/** `find_image_pairs` of `create_mpo_gui.py`: the files are sorted by name, each
    readable EXIF timestamp is collected into `file_info`, `file_info` is sorted
    by timestamp, and a scan over adjacent entries accepts a pair when the two
    timestamps are 1 to 4 seconds apart and no other timestamp lies strictly
    between them. An accepted pair moves the scan on by two, a rejected one by
    one.

    `Scan` is the specification of the scan over positions; `ScanPairs` and
    `NoIntervening` are the source's two loops, proved to compute it. The lemmas
    state that pairs are adjacent, disjoint and in time order, that on sorted
    input the "intervening timestamp" test never rejects, and that no adjacent
    acceptable pair is skipped. */
module StrictAdjacency {
  import opened Common
  import opened Sorting
  import opened ExifTime

  /** An entry of `file_info`: the file and its timestamp, in seconds. */
  datatype Shot = Shot(name: string, ts: int)

  function ShotTime(s: Shot): int { s.ts }

  // ---------------------------------------------------------------------------
  // Collecting `file_info`.

  /** The timestamp `get_exif_timestamp` gives each file, from its EXIF read. */
  function Stamps(exif: string -> ExifRead): string -> Option<int> {
    f => CaptureSeconds(exif(f))
  }

  /** The entries the collecting loop appends, in the order of `files`, given
      each file's timestamp reading `stamp`. */
  function Collected(files: seq<string>, stamp: string -> Option<int>): seq<Shot>
  {
    if files == [] then []
    else
      var init := Collected(files[..|files| - 1], stamp);
      match stamp(files[|files| - 1])
      case None => init
      case Some(t) => init + [Shot(files[|files| - 1], t)]
  }

  /** A file is in `file_info`, with timestamp `t`, exactly when it is one of the
      files and its reading gives `t`. */
  lemma {:induction false} CollectedMember(files: seq<string>, stamp: string -> Option<int>, s: Shot)
    ensures s in Collected(files, stamp) <==> s.name in files && stamp(s.name) == Some(s.ts)
  {
    if files != [] {
      var init := files[..|files| - 1];
      var last := files[|files| - 1];
      CollectedMember(init, stamp, s);
      assert files == init + [last];
      assert s.name in files <==> s.name in init || s.name == last;
    }
  }

  /** The loop `for file in files: ... file_info.append((file, timestamp))`. */
  method CollectShots(files: seq<string>, stamp: string -> Option<int>) returns (info: seq<Shot>)
    ensures info == Collected(files, stamp)
  {
    info := [];
    var k := 0;
    while k < |files|
      invariant 0 <= k <= |files|
      invariant info == Collected(files[..k], stamp)
    {
      assert files[..k + 1][..k] == files[..k];
      var ts := stamp(files[k]);
      if ts.Some? {
        info := info + [Shot(files[k], ts.value)];
      }
      k := k + 1;
    }
    assert files[..k] == files;
  }

  // ---------------------------------------------------------------------------
  // The scan.

  /** The intervening-timestamp test: no entry's timestamp differs from both and
      lies strictly between them. */
  predicate NoneBetween(info: seq<Shot>, ts1: int, ts2: int) {
    forall k :: 0 <= k < |info| ==> !(info[k].ts != ts1 && info[k].ts != ts2 && ts1 < info[k].ts < ts2)
  }

  /** The scan accepts the entries at `i` and `i + 1`. */
  predicate Accept(info: seq<Shot>, i: nat)
    requires i + 1 < |info|
  {
    var d := info[i + 1].ts - info[i].ts;
    1 <= d <= 4 && NoneBetween(info, info[i].ts, info[i + 1].ts)
  }

  /** Positions `k` of the accepted pairs `(k, k + 1)` when the scan starts at `i`. */
  function ScanFrom(info: seq<Shot>, i: nat): (r: seq<nat>)
    decreases |info| - i
    ensures forall q :: 0 <= q < |r| ==> i <= r[q] && r[q] + 1 < |info|
    ensures forall q :: 0 <= q < |r| ==> Accept(info, r[q])
    ensures forall q :: 0 <= q < |r| - 1 ==> r[q] + 2 <= r[q + 1]
  {
    if i + 1 >= |info| then []
    else if Accept(info, i) then [i] + ScanFrom(info, i + 2)
    else ScanFrom(info, i + 1)
  }

  function Scan(info: seq<Shot>): seq<nat> {
    ScanFrom(info, 0)
  }

  /** The pairs of files at the accepted positions. */
  function Named(info: seq<Shot>, ks: seq<nat>): (r: seq<(string, string)>)
    requires forall q :: 0 <= q < |ks| ==> ks[q] + 1 < |info|
    ensures |r| == |ks|
    ensures forall q :: 0 <= q < |ks| ==> r[q] == (info[ks[q]].name, info[ks[q] + 1].name)
  {
    if ks == [] then [] else [(info[ks[0]].name, info[ks[0] + 1].name)] + Named(info, ks[1..])
  }

  /** The inner `for _, other_ts in file_info` loop with its `break`. */
  method NoIntervening(info: seq<Shot>, ts1: int, ts2: int) returns (valid: bool)
    ensures valid <==> NoneBetween(info, ts1, ts2)
  {
    valid := true;
    var k := 0;
    while k < |info|
      invariant 0 <= k <= |info|
      invariant forall m :: 0 <= m < k ==> !(info[m].ts != ts1 && info[m].ts != ts2 && ts1 < info[m].ts < ts2)
    {
      var other := info[k].ts;
      if other != ts1 && other != ts2 && ts1 < other < ts2 {
        valid := false;
        return;
      }
      k := k + 1;
    }
  }

  lemma AcceptStep(info: seq<Shot>, i: nat, done: seq<nat>)
    requires i + 1 < |info| && Accept(info, i)
    requires done + ScanFrom(info, i) == Scan(info)
    ensures (done + [i]) + ScanFrom(info, i + 2) == Scan(info)
  {
    var rest := ScanFrom(info, i + 2);
    assert ScanFrom(info, i) == [i] + rest;
    assert done + ([i] + rest) == (done + [i]) + rest;
  }

  lemma RejectStep(info: seq<Shot>, i: nat)
    requires i + 1 < |info| && !Accept(info, i)
    ensures ScanFrom(info, i) == ScanFrom(info, i + 1)
  {
  }

  lemma NamedAppend(info: seq<Shot>, ks: seq<nat>, k: nat)
    requires forall q :: 0 <= q < |ks| ==> ks[q] + 1 < |info|
    requires k + 1 < |info|
    ensures Named(info, ks + [k]) == Named(info, ks) + [(info[k].name, info[k + 1].name)]
  {
  }

  /** The outer `while i < len(file_info) - 1` loop. */
  method ScanPairs(info: seq<Shot>) returns (pairs: seq<(string, string)>)
    ensures pairs == Named(info, Scan(info))
  {
    pairs := [];
    var i: nat := 0;
    ghost var done: seq<nat> := [];
    while i < |info| - 1
      invariant 0 <= i <= |info|
      invariant forall q :: 0 <= q < |done| ==> done[q] + 1 < |info|
      invariant done + ScanFrom(info, i) == Scan(info)
      invariant pairs == Named(info, done)
      decreases |info| - i
    {
      var file1, ts1 := info[i].name, info[i].ts;
      var file2, ts2 := info[i + 1].name, info[i + 1].ts;
      var timeDiff := ts2 - ts1;
      var validPair := false;
      if 1 <= timeDiff <= 4 {
        validPair := NoIntervening(info, ts1, ts2);
      }
      if validPair {
        AcceptStep(info, i, done);
        NamedAppend(info, done, i);
        done := done + [i];
        pairs := pairs + [(file1, file2)];
        i := i + 2;
      } else {
        RejectStep(info, i);
        i := i + 1;
      }
    }
    assert ScanFrom(info, i) == [];
    assert done + [] == done;
  }

  /** `find_image_pairs`: name sort, collect, timestamp sort (stable), scan. */
  function SortedShots(files: seq<string>, exif: string -> ExifRead): seq<Shot> {
    SortBy(Collected(SortBy(files, StrLe), Stamps(exif)), ByKey(ShotTime))
  }

  function FindPairs(files: seq<string>, exif: string -> ExifRead): seq<(string, string)> {
    Named(SortedShots(files, exif), Scan(SortedShots(files, exif)))
  }

  method FindImagePairs(files: seq<string>, exif: string -> ExifRead) returns (pairs: seq<(string, string)>)
    ensures pairs == FindPairs(files, exif)
  {
    var names := SortBy(files, StrLe);
    var info := CollectShots(names, Stamps(exif));
    info := SortBy(info, ByKey(ShotTime));
    pairs := ScanPairs(info);
  }

  // ---------------------------------------------------------------------------
  // Properties.

  ghost predicate TimeSorted(info: seq<Shot>) {
    forall a, b :: 0 <= a < b < |info| ==> info[a].ts <= info[b].ts
  }

  lemma SortedShotsSorted(files: seq<string>, exif: string -> ExifRead)
    ensures TimeSorted(SortedShots(files, exif))
  {
    var c := Collected(SortBy(files, StrLe), Stamps(exif));
    var s := SortBy(c, ByKey(ShotTime));
    forall a, b | 0 <= a < b < |s| ensures s[a].ts <= s[b].ts {
      SortByKeyNondecreasing(c, ShotTime, a, b);
    }
  }

  /** On a list sorted by timestamp, nothing lies strictly between two adjacent
      timestamps, so the intervening-timestamp test never fails. */
  lemma SortedAdjacentNoneBetween(info: seq<Shot>, i: nat)
    requires TimeSorted(info) && i + 1 < |info|
    ensures NoneBetween(info, info[i].ts, info[i + 1].ts)
  {
    forall k | 0 <= k < |info|
      ensures !(info[k].ts != info[i].ts && info[k].ts != info[i + 1].ts && info[i].ts < info[k].ts < info[i + 1].ts)
    {
      if k < i {
        assert info[k].ts <= info[i].ts;
      } else if k > i + 1 {
        assert info[i + 1].ts <= info[k].ts;
      }
    }
  }

  /** The scan without the intervening-timestamp test: only the 1-4 second rule. */
  function GapScanFrom(info: seq<Shot>, i: nat): seq<nat>
    decreases |info| - i
  {
    if i + 1 >= |info| then []
    else if 1 <= info[i + 1].ts - info[i].ts <= 4 then [i] + GapScanFrom(info, i + 2)
    else GapScanFrom(info, i + 1)
  }

  /** Because `file_info` is sorted first, the intervening-timestamp test is
      redundant: the scan equals the scan on time differences alone. */
  lemma {:induction false} InterveningNeverRejects(info: seq<Shot>, i: nat)
    requires TimeSorted(info)
    ensures ScanFrom(info, i) == GapScanFrom(info, i)
    decreases |info| - i
  {
    if i + 1 < |info| {
      SortedAdjacentNoneBetween(info, i);
      InterveningNeverRejects(info, i + 1);
      InterveningNeverRejects(info, i + 2);
    }
  }

  /** Every accepted pair is strictly later on its right, by 1 to 4 seconds. */
  lemma AcceptedGap(info: seq<Shot>, q: nat)
    requires q < |Scan(info)|
    ensures 1 <= info[Scan(info)[q] + 1].ts - info[Scan(info)[q]].ts <= 4
  {
  }

  /** Pairs are index-adjacent and no entry is in two pairs. */
  lemma {:induction false} ScanDisjoint(info: seq<Shot>, q1: nat, q2: nat)
    requires q1 < q2 < |Scan(info)|
    ensures Scan(info)[q1] + 1 < Scan(info)[q2]
    decreases q2 - q1
  {
    var ks := Scan(info);
    if q1 + 1 < q2 {
      ScanDisjoint(info, q1 + 1, q2);
    }
  }

  /** On sorted input the pairs come out in increasing timestamp order: every
      member of an earlier pair is no later than every member of a later one. */
  lemma ScanTimeOrdered(info: seq<Shot>, q1: nat, q2: nat)
    requires TimeSorted(info) && q1 < q2 < |Scan(info)|
    ensures info[Scan(info)[q1] + 1].ts <= info[Scan(info)[q2]].ts
  {
    ScanDisjoint(info, q1, q2);
  }

  /** No acceptable adjacent pair is passed over: if the entries at `k` and
      `k + 1` pass the test, then `k` starts a pair or is the right member of the
      pair starting at `k - 1`. A rejected candidate's right member is thus looked
      at next as a left member. */
  lemma {:induction false} ScanCovers(info: seq<Shot>, i: nat, k: nat)
    requires i <= k && k + 1 < |info| && Accept(info, k)
    ensures k in ScanFrom(info, i) || (i < k && k - 1 in ScanFrom(info, i))
    decreases |info| - i
  {
    if i < k {
      if Accept(info, i) {
        if i + 1 < k {
          ScanCovers(info, i + 2, k);
        }
      } else {
        ScanCovers(info, i + 1, k);
      }
    }
  }

  /** Both files of every pair `find_image_pairs` returns had a readable
      timestamp, the right one 1 to 4 seconds after the left. */
  lemma FoundPairsTimed(files: seq<string>, exif: string -> ExifRead, q: nat)
    requires q < |FindPairs(files, exif)|
    ensures var (a, b) := FindPairs(files, exif)[q];
      && a in files && b in files
      && CaptureSeconds(exif(a)).Some? && CaptureSeconds(exif(b)).Some?
      && 1 <= CaptureSeconds(exif(b)).value - CaptureSeconds(exif(a)).value <= 4
  {
    var names := SortBy(files, StrLe);
    var c := Collected(names, Stamps(exif));
    var info := SortedShots(files, exif);
    var k := Scan(info)[q];
    assert info[k] in multiset(info) && info[k + 1] in multiset(info);
    assert info[k] in c && info[k + 1] in c;
    CollectedMember(names, Stamps(exif), info[k]);
    CollectedMember(names, Stamps(exif), info[k + 1]);
    assert info[k].name in multiset(names) && info[k + 1].name in multiset(names);
  }
}

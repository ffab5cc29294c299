/** The sorting phase of `pair3d.v3.py` (`task`) and `pair3d-web.0-1-1.py`
    (`process_images`), and the per-folder matching of the stereogram tools
    (`task` in `stereogrampo.py` and `stereogrampo.mpo-test.py`), as uses of the
    greedy first-fit matcher.

    Modification times are counted in microseconds (the resolution of Python's
    `datetime`) from `datetime.min`, so `datetime.min` itself is 0. Reading a
    file's time (`get_image_timestamp`) and its perceptual hash are parameters;
    in the pair3d tools the time is None when `os.path.getmtime` raises. */
module SortingPhase {
  import opened Common
  import opened Sorting
  import opened Similarity
  import opened GreedyMatch

  /** `abs((time2 - time1).total_seconds()) <= TIME_DIFF_THRESHOLD`, times in
      microseconds, the threshold in seconds. */
  predicate WithinTime(t1: int, t2: int, threshold: real) {
    (if t2 >= t1 then t2 - t1 else t1 - t2) as real <= threshold * 1000000.0
  }

  lemma WithinTimeSymmetric(t1: int, t2: int, threshold: real)
    ensures WithinTime(t1, t2, threshold) <==> WithinTime(t2, t1, threshold)
  {
  }

  // ---------------------------------------------------------------------------
  // pair3d.v3.py and pair3d-web.0-1-1.py.

  /** The sort key `get_image_timestamp(x) or datetime.min`. */
  function TimeOrMin<P>(mtime: P -> Option<int>): P -> int {
    p => mtime(p).GetOr(0)
  }

  /** `if time1 is None: continue`: only a timed image starts a pair. */
  function HasTime<P>(mtime: P -> Option<int>): P -> bool {
    p => mtime(p).Some?
  }

  /** `time2 and abs(...) <= TIME_DIFF_THRESHOLD` and then `is_similar_image`. */
  function TimedFits<P>(mtime: P -> Option<int>, phash: P -> Option<Fingerprint>, timeDiff: real, hashDiff: int): (P, P) -> bool {
    (a: P, b: P) =>
      && mtime(a).Some? && mtime(b).Some?
      && WithinTime(mtime(a).value, mtime(b).value, timeDiff)
      && IsSimilar(phash(a), phash(b), hashDiff)
  }

  function SortedByTime<P>(files: seq<P>, mtime: P -> Option<int>): seq<P> {
    SortBy(files, ByKey(TimeOrMin(mtime)))
  }

  function PhasePairs<P>(files: seq<P>, mtime: P -> Option<int>, phash: P -> Option<Fingerprint>, timeDiff: real, hashDiff: int): seq<(P, P)> {
    GreedyPairs(SortedByTime(files, mtime), HasTime(mtime), TimedFits(mtime, phash, timeDiff, hashDiff))
  }

  function PhaseUsed<P>(files: seq<P>, mtime: P -> Option<int>, phash: P -> Option<Fingerprint>, timeDiff: real, hashDiff: int): set<P> {
    GreedyUsed(SortedByTime(files, mtime), HasTime(mtime), TimedFits(mtime, phash, timeDiff, hashDiff))
  }

  /** The sorting phase: `image_files.sort(key=...)`, then the greedy loop. The
      listed paths are distinct (they come from one directory walk). */
  method SortImages<P(==)>(files: seq<P>, mtime: P -> Option<int>, phash: P -> Option<Fingerprint>, timeDiff: real, hashDiff: int)
    returns (sorted: seq<P>, pairs: seq<(P, P)>, used: set<P>)
    requires Distinct(files)
    ensures sorted == SortedByTime(files, mtime)
    ensures pairs == PhasePairs(files, mtime, phash, timeDiff, hashDiff)
    ensures used == PhaseUsed(files, mtime, phash, timeDiff, hashDiff)
  {
    sorted := SortBy(files, ByKey(TimeOrMin(mtime)));
    SortByDistinct(files, ByKey(TimeOrMin(mtime)));
    pairs, used := MatchGreedy(sorted, HasTime(mtime), TimedFits(mtime, phash, timeDiff, hashDiff));
  }

  /** Every pair is two timed images, within the time threshold, similar, and
      the second later than the first in the sorted list. */
  lemma PhasePairFits<P(!new)>(files: seq<P>, mtime: P -> Option<int>, phash: P -> Option<Fingerprint>, timeDiff: real, hashDiff: int, q: nat)
    requires q < |PhasePairs(files, mtime, phash, timeDiff, hashDiff)|
    ensures var (a, b) := PhasePairs(files, mtime, phash, timeDiff, hashDiff)[q];
      && mtime(a).Some? && mtime(b).Some?
      && WithinTime(mtime(a).value, mtime(b).value, timeDiff)
      && IsSimilar(phash(a), phash(b), hashDiff)
      && mtime(a).value <= mtime(b).value
      && a in files && b in files
  {
    var sorted := SortedByTime(files, mtime);
    var (a, b) := PhasePairs(files, mtime, phash, timeDiff, hashDiff)[q];
    GreedyPairFits(sorted, HasTime(mtime), TimedFits(mtime, phash, timeDiff, hashDiff), q);
    var i, j :| 0 <= i < j < |sorted| && sorted[i] == a && sorted[j] == b;
    SortByKeyNondecreasing(files, TimeOrMin(mtime), i, j);
    assert a in multiset(sorted) && b in multiset(sorted);
  }

  /** An image without a timestamp ends up neither first nor second in a pair. */
  lemma UntimedNeverPaired<P(!new)>(files: seq<P>, mtime: P -> Option<int>, phash: P -> Option<Fingerprint>, timeDiff: real, hashDiff: int, p: P)
    requires mtime(p).None?
    ensures p !in PhaseUsed(files, mtime, phash, timeDiff, hashDiff)
  {
    var sorted := SortedByTime(files, mtime);
    GreedyUsedMember(sorted, HasTime(mtime), TimedFits(mtime, phash, timeDiff, hashDiff), p);
    if p in PhaseUsed(files, mtime, phash, timeDiff, hashDiff) {
      var q :| 0 <= q < |PhasePairs(files, mtime, phash, timeDiff, hashDiff)| &&
        (PhasePairs(files, mtime, phash, timeDiff, hashDiff)[q].0 == p || PhasePairs(files, mtime, phash, timeDiff, hashDiff)[q].1 == p);
      PhasePairFits(files, mtime, phash, timeDiff, hashDiff, q);
    }
  }

  /** The figures shown after sorting. */
  datatype Report = Report(numPairs: nat, numSingles: int)

  /** `num_pairs = len(pairs)`, `num_singles = len(image_files) - len(used)`. */
  function Reported<P>(files: seq<P>, pairs: seq<(P, P)>, used: set<P>): Report {
    Report(|pairs|, |files| - |used|)
  }

  /** Every image is paired or a single: the singles figure is the count of
      unpaired images, `n - 2 * num_pairs`, and never negative. */
  lemma ReportedCounts<P>(files: seq<P>, mtime: P -> Option<int>, phash: P -> Option<Fingerprint>, timeDiff: real, hashDiff: int)
    requires Distinct(files)
    ensures var r := Reported(files, PhasePairs(files, mtime, phash, timeDiff, hashDiff), PhaseUsed(files, mtime, phash, timeDiff, hashDiff));
      r.numSingles == |files| - 2 * r.numPairs && r.numSingles >= 0
  {
    var sorted := SortedByTime(files, mtime);
    SortByDistinct(files, ByKey(TimeOrMin(mtime)));
    GreedyCounts(sorted, HasTime(mtime), TimedFits(mtime, phash, timeDiff, hashDiff));
  }

  // ---------------------------------------------------------------------------
  // stereogrampo.py and stereogrampo.mpo-test.py: one greedy scan per folder.

  /** The stereogram tools test only the candidate: `time2 and abs(...) <= T`
      and `is_similar_image`; every unused image starts a scan. */
  function StereoFits<P>(mtime: P -> int, phash: P -> Option<Fingerprint>, timeDiff: real, hashDiff: int): (P, P) -> bool {
    (a: P, b: P) => WithinTime(mtime(a), mtime(b), timeDiff) && IsSimilar(phash(a), phash(b), hashDiff)
  }

  function Anyone<P>(): P -> bool {
    p => true
  }

  function FolderMatch<P>(files: seq<P>, mtime: P -> int, phash: P -> Option<Fingerprint>, timeDiff: real, hashDiff: int): seq<(P, P)> {
    GreedyPairs(SortBy(files, ByKey(mtime)), Anyone(), StereoFits(mtime, phash, timeDiff, hashDiff))
  }

  /** The pairs of all folders, folder after folder. */
  function FolderPairs<P>(folders: seq<seq<P>>, mtime: P -> int, phash: P -> Option<Fingerprint>, timeDiff: real, hashDiff: int): seq<(P, P)> {
    if folders == [] then []
    else FolderPairs(folders[..|folders| - 1], mtime, phash, timeDiff, hashDiff)
         + FolderMatch(folders[|folders| - 1], mtime, phash, timeDiff, hashDiff)
  }

  /** `for subfolder, files in folders.items()`: sort the folder by time, start a
      new `used`, run the greedy loop, and append to `pairs`. */
  method PairPerFolder<P(==)>(folders: seq<seq<P>>, mtime: P -> int, phash: P -> Option<Fingerprint>, timeDiff: real, hashDiff: int)
    returns (pairs: seq<(P, P)>)
    requires forall k :: 0 <= k < |folders| ==> Distinct(folders[k])
    ensures pairs == FolderPairs(folders, mtime, phash, timeDiff, hashDiff)
  {
    pairs := [];
    var k := 0;
    while k < |folders|
      invariant 0 <= k <= |folders|
      invariant pairs == FolderPairs(folders[..k], mtime, phash, timeDiff, hashDiff)
    {
      var files := SortBy(folders[k], ByKey(mtime));
      SortByDistinct(folders[k], ByKey(mtime));
      var folderPairs, used := MatchGreedy(files, Anyone(), StereoFits(mtime, phash, timeDiff, hashDiff));
      assert folders[..k + 1][..k] == folders[..k];
      pairs := pairs + folderPairs;
      k := k + 1;
    }
    assert folders[..k] == folders;
  }

  /** Matching is scoped to one folder: both images of every pair come from the
      same folder `k`, within the time threshold and similar, and since each
      folder is sorted by time first, the second image is no earlier. */
  lemma {:induction false} NoPairSpansFolders<P(!new)>(folders: seq<seq<P>>, mtime: P -> int, phash: P -> Option<Fingerprint>, timeDiff: real, hashDiff: int, q: nat)
    returns (k: nat)
    requires q < |FolderPairs(folders, mtime, phash, timeDiff, hashDiff)|
    ensures var (a, b) := FolderPairs(folders, mtime, phash, timeDiff, hashDiff)[q];
      && k < |folders| && a in folders[k] && b in folders[k]
      && WithinTime(mtime(a), mtime(b), timeDiff) && IsSimilar(phash(a), phash(b), hashDiff)
      && mtime(a) <= mtime(b)
  {
    var init := folders[..|folders| - 1];
    var last := folders[|folders| - 1];
    var before := FolderPairs(init, mtime, phash, timeDiff, hashDiff);
    var all := FolderPairs(folders, mtime, phash, timeDiff, hashDiff);
    assert all == before + FolderMatch(last, mtime, phash, timeDiff, hashDiff);
    if q < |before| {
      k := NoPairSpansFolders(init, mtime, phash, timeDiff, hashDiff, q);
      assert all[q] == before[q];
      assert init[k] == folders[k];
    } else {
      k := |folders| - 1;
      var sorted := SortBy(last, ByKey(mtime));
      var r := q - |before|;
      assert all[q] == FolderMatch(last, mtime, phash, timeDiff, hashDiff)[r];
      GreedyPairFits(sorted, Anyone(), StereoFits(mtime, phash, timeDiff, hashDiff), r);
      var i, j :| 0 <= i < j < |sorted| && sorted[i] == all[q].0 && sorted[j] == all[q].1;
      assert sorted[i] in multiset(last) && sorted[j] in multiset(last);
      SortByKeyNondecreasing(last, mtime, i, j);
    }
  }
}

/** The greedy first-fit matcher shared by `pair3d.v3.py`, `pair3d-web.0-1-1.py`,
    `stereogrampo.py` and `stereogrampo.mpo-test.py`: scan the (already sorted)
    images in order; an image that is not yet used and is eligible as a first
    member is paired with the first later image that is not yet used and "fits"
    it (close enough in time and perceptually similar); both are then used and
    the scan for that image stops.

    `Greedy` is the specification, over positions in the list; `MatchGreedy` is
    the source's nested loop over paths with its `used` set, proved to compute
    it. The lemmas state what the source relies on: pairs are disjoint, each
    pair fits, each partner is the first fitting candidate, and no two leftover
    images could have been paired with each other. */
module GreedyMatch {
  import opened Common

  /** A pair of positions in the sorted list. */
  datatype IdxPair = IdxPair(first: nat, second: nat)

  /** Every position that occurs in a pair of `ps` (the `used` set). */
  function Members(ps: seq<IdxPair>): set<nat>
  {
    if ps == [] then {} else Members(ps[..|ps| - 1]) + {ps[|ps| - 1].first, ps[|ps| - 1].second}
  }

  lemma {:induction false} MembersIn(ps: seq<IdxPair>, x: nat)
    ensures x in Members(ps) <==> exists q :: 0 <= q < |ps| && (ps[q].first == x || ps[q].second == x)
  {
    if ps != [] {
      MembersIn(ps[..|ps| - 1], x);
      if x in Members(ps[..|ps| - 1]) {
        var q :| 0 <= q < |ps| - 1 && (ps[..|ps| - 1][q].first == x || ps[..|ps| - 1][q].second == x);
        assert ps[q] == ps[..|ps| - 1][q];
      }
      if exists q :: 0 <= q < |ps| && (ps[q].first == x || ps[q].second == x) {
        var q :| 0 <= q < |ps| && (ps[q].first == x || ps[q].second == x);
        if q < |ps| - 1 {
          assert ps[..|ps| - 1][q] == ps[q];
        }
      }
    }
  }

  lemma MembersAppend(ps: seq<IdxPair>, p: IdxPair)
    ensures Members(ps + [p]) == Members(ps) + {p.first, p.second}
  {
    assert (ps + [p])[..|ps|] == ps;
  }

  /** The first position `k >= j` whose image is unused and fits the image at `i`. */
  function FirstFit<T>(files: seq<T>, fits: (T, T) -> bool, i: nat, j: nat, used: set<nat>): (r: Option<nat>)
    requires i < |files|
    decreases |files| - j
    ensures r.Some? ==> j <= r.value < |files| && r.value !in used && fits(files[i], files[r.value])
    ensures r.Some? ==> forall k :: j <= k < r.value ==> k in used || !fits(files[i], files[k])
    ensures r.None? ==> forall k :: j <= k < |files| ==> k in used || !fits(files[i], files[k])
  {
    if j >= |files| then None
    else if j !in used && fits(files[i], files[j]) then Some(j)
    else FirstFit(files, fits, i, j + 1, used)
  }

  /** The pairs after looking at position `i`, given the pairs `ps` made before it. */
  function Step<T>(files: seq<T>, eligible: T -> bool, fits: (T, T) -> bool, i: nat, ps: seq<IdxPair>): seq<IdxPair>
    requires i < |files|
  {
    if i in Members(ps) || !eligible(files[i]) then ps
    else match FirstFit(files, fits, i, i + 1, Members(ps))
      case None => ps
      case Some(j) => ps + [IdxPair(i, j)]
  }

  /** The matcher from position `i` on, given the pairs `ps` already made. */
  function GreedyFrom<T>(files: seq<T>, eligible: T -> bool, fits: (T, T) -> bool, i: nat, ps: seq<IdxPair>): seq<IdxPair>
    decreases |files| - i
  {
    if i >= |files| then ps
    else GreedyFrom(files, eligible, fits, i + 1, Step(files, eligible, fits, i, ps))
  }

  /** The pairs the greedy first-fit scan makes, as positions. */
  function Greedy<T>(files: seq<T>, eligible: T -> bool, fits: (T, T) -> bool): seq<IdxPair> {
    GreedyFrom(files, eligible, fits, 0, [])
  }

  // ---------------------------------------------------------------------------
  // What holds of the pairs made before position `i`.

  ghost predicate PairsFit<T>(files: seq<T>, eligible: T -> bool, fits: (T, T) -> bool, ps: seq<IdxPair>) {
    forall q :: 0 <= q < |ps| ==>
      && ps[q].first < ps[q].second < |files|
      && eligible(files[ps[q].first])
      && fits(files[ps[q].first], files[ps[q].second])
  }

  /** First members strictly increase: pairs come out in scan order. */
  ghost predicate InScanOrder(ps: seq<IdxPair>) {
    forall q1, q2 :: 0 <= q1 < q2 < |ps| ==> ps[q1].first < ps[q2].first
  }

  /** No position belongs to two pairs. */
  ghost predicate Disjoint(ps: seq<IdxPair>) {
    forall q1, q2 :: 0 <= q1 < q2 < |ps| ==>
      && ps[q1].first != ps[q2].second
      && ps[q1].second != ps[q2].first
      && ps[q1].second != ps[q2].second
  }

  /** Each partner is the first candidate that fits and was not already used
      when its pair was made. */
  ghost predicate FirstFitting<T>(files: seq<T>, fits: (T, T) -> bool, ps: seq<IdxPair>)
    requires forall q :: 0 <= q < |ps| ==> ps[q].first < |files|
  {
    forall q, k :: 0 <= q < |ps| && ps[q].first < k < ps[q].second && k < |files| && fits(files[ps[q].first], files[k]) ==>
      k in Members(ps[..q])
  }

  /** The partners taken by pairs whose first member comes before position `s`. */
  function TakenBefore(ps: seq<IdxPair>, s: nat): set<nat>
  {
    if ps == [] then {}
    else TakenBefore(ps[..|ps| - 1], s) + (if ps[|ps| - 1].first < s then {ps[|ps| - 1].second} else {})
  }

  lemma {:induction false} TakenBeforeIn(ps: seq<IdxPair>, s: nat, j: nat)
    ensures j in TakenBefore(ps, s) <==> exists q :: 0 <= q < |ps| && ps[q].first < s && ps[q].second == j
  {
    if ps != [] {
      var init := ps[..|ps| - 1];
      TakenBeforeIn(init, s, j);
      if j in TakenBefore(init, s) {
        var q :| 0 <= q < |init| && init[q].first < s && init[q].second == j;
        assert ps[q] == init[q];
      }
      if exists q :: 0 <= q < |ps| && ps[q].first < s && ps[q].second == j {
        var q :| 0 <= q < |ps| && ps[q].first < s && ps[q].second == j;
        if q < |init| {
          assert init[q] == ps[q];
        }
      }
    }
  }

  /** When every pair starts before `s`, a used position from `s` on was taken
      as a partner. */
  lemma {:induction false} TakenBeforeAll(ps: seq<IdxPair>, s: nat, j: nat)
    requires forall q :: 0 <= q < |ps| ==> ps[q].first < s
    requires j in Members(ps) && s <= j
    ensures j in TakenBefore(ps, s)
  {
    var init := ps[..|ps| - 1];
    if j !in {ps[|ps| - 1].first, ps[|ps| - 1].second} {
      assert forall q :: 0 <= q < |init| ==> init[q].first < s by {
        forall q | 0 <= q < |init| ensures init[q].first < s {
          assert init[q] == ps[q];
        }
      }
      TakenBeforeAll(init, s, j);
    }
  }

  lemma {:induction false} TakenBeforeMembers(ps: seq<IdxPair>, s: nat)
    ensures TakenBefore(ps, s) <= Members(ps)
  {
    if ps != [] {
      TakenBeforeMembers(ps[..|ps| - 1], s);
    }
  }

  /** An eligible image `s` before position `i` that ended up in no pair has no
      fitting later candidate, except ones a pair starting before `s` had
      already taken. */
  ghost predicate SinglesMaximal<T>(files: seq<T>, eligible: T -> bool, fits: (T, T) -> bool, i: nat, ps: seq<IdxPair>) {
    forall s, j :: 0 <= s < i && s < j < |files| && s !in Members(ps) && eligible(files[s]) && fits(files[s], files[j]) ==>
      j in TakenBefore(ps, s)
  }

  ghost predicate Inv<T>(files: seq<T>, eligible: T -> bool, fits: (T, T) -> bool, i: nat, ps: seq<IdxPair>) {
    && i <= |files|
    && PairsFit(files, eligible, fits, ps)
    && (forall q :: 0 <= q < |ps| ==> ps[q].first < i)
    && InScanOrder(ps)
    && Disjoint(ps)
    && FirstFitting(files, fits, ps)
    && SinglesMaximal(files, eligible, fits, i, ps)
  }

  lemma InvSkip<T>(files: seq<T>, eligible: T -> bool, fits: (T, T) -> bool, i: nat, ps: seq<IdxPair>)
    requires i < |files| && Inv(files, eligible, fits, i, ps)
    requires i in Members(ps) || !eligible(files[i])
    ensures Inv(files, eligible, fits, i + 1, ps)
  {
    assert SinglesMaximal(files, eligible, fits, i + 1, ps) by {
      forall s, j | 0 <= s < i + 1 && s < j < |files| && s !in Members(ps) && eligible(files[s]) && fits(files[s], files[j])
        ensures j in TakenBefore(ps, s)
      {
        assert s != i;
      }
    }
  }

  lemma InvNone<T>(files: seq<T>, eligible: T -> bool, fits: (T, T) -> bool, i: nat, ps: seq<IdxPair>)
    requires i < |files| && Inv(files, eligible, fits, i, ps)
    requires i !in Members(ps) && eligible(files[i])
    requires FirstFit(files, fits, i, i + 1, Members(ps)).None?
    ensures Inv(files, eligible, fits, i + 1, ps)
  {
    assert SinglesMaximal(files, eligible, fits, i + 1, ps) by {
      forall s, j | 0 <= s < i + 1 && s < j < |files| && s !in Members(ps) && eligible(files[s]) && fits(files[s], files[j])
        ensures j in TakenBefore(ps, s)
      {
        if s == i {
          TakenBeforeAll(ps, i, j);
        }
      }
    }
  }

  lemma SomeFirstFitting<T>(files: seq<T>, fits: (T, T) -> bool, i: nat, j: nat, ps: seq<IdxPair>)
    requires i < j < |files|
    requires forall q :: 0 <= q < |ps| ==> ps[q].first < i
    requires FirstFitting(files, fits, ps)
    requires forall k :: i + 1 <= k < j ==> k in Members(ps) || !fits(files[i], files[k])
    ensures FirstFitting(files, fits, ps + [IdxPair(i, j)])
  {
    var ps' := ps + [IdxPair(i, j)];
    forall q, k | 0 <= q < |ps'| && ps'[q].first < k < ps'[q].second && k < |files| && fits(files[ps'[q].first], files[k])
      ensures k in Members(ps'[..q])
    {
      if q < |ps| {
        assert ps'[q] == ps[q] && ps'[..q] == ps[..q];
      } else {
        assert ps'[..q] == ps;
      }
    }
  }

  lemma SomeSingles<T>(files: seq<T>, eligible: T -> bool, fits: (T, T) -> bool, i: nat, j: nat, ps: seq<IdxPair>)
    requires i < j < |files|
    requires SinglesMaximal(files, eligible, fits, i, ps)
    ensures SinglesMaximal(files, eligible, fits, i + 1, ps + [IdxPair(i, j)])
  {
    var ps' := ps + [IdxPair(i, j)];
    MembersAppend(ps, IdxPair(i, j));
    assert ps'[..|ps|] == ps;
    forall s, k | 0 <= s < i + 1 && s < k < |files| && s !in Members(ps') && eligible(files[s]) && fits(files[s], files[k])
      ensures k in TakenBefore(ps', s)
    {
      assert TakenBefore(ps', s) == TakenBefore(ps, s);
    }
  }

  lemma SomeDisjoint(i: nat, j: nat, ps: seq<IdxPair>)
    requires i < j
    requires Disjoint(ps) && InScanOrder(ps)
    requires forall q :: 0 <= q < |ps| ==> ps[q].first < i
    requires i !in Members(ps) && j !in Members(ps)
    ensures Disjoint(ps + [IdxPair(i, j)]) && InScanOrder(ps + [IdxPair(i, j)])
  {
    MembersIn(ps, i);
    MembersIn(ps, j);
    var ps' := ps + [IdxPair(i, j)];
    forall q | 0 <= q < |ps| ensures ps'[q] == ps[q] && ps[q].second != i && ps[q].second != j && ps[q].first != j {
    }
  }

  lemma InvSome<T>(files: seq<T>, eligible: T -> bool, fits: (T, T) -> bool, i: nat, ps: seq<IdxPair>, j: nat)
    requires i < |files| && Inv(files, eligible, fits, i, ps)
    requires i !in Members(ps) && eligible(files[i])
    requires FirstFit(files, fits, i, i + 1, Members(ps)) == Some(j)
    ensures Inv(files, eligible, fits, i + 1, ps + [IdxPair(i, j)])
  {
    var ps' := ps + [IdxPair(i, j)];
    SomeFirstFitting(files, fits, i, j, ps);
    SomeSingles(files, eligible, fits, i, j, ps);
    SomeDisjoint(i, j, ps);
    assert PairsFit(files, eligible, fits, ps') by {
      forall q | 0 <= q < |ps'| ensures ps'[q] == if q < |ps| then ps[q] else IdxPair(i, j) {}
    }
  }

  lemma InvStep<T>(files: seq<T>, eligible: T -> bool, fits: (T, T) -> bool, i: nat, ps: seq<IdxPair>)
    requires i < |files| && Inv(files, eligible, fits, i, ps)
    ensures Inv(files, eligible, fits, i + 1, Step(files, eligible, fits, i, ps))
  {
    if i in Members(ps) || !eligible(files[i]) {
      InvSkip(files, eligible, fits, i, ps);
    } else {
      match FirstFit(files, fits, i, i + 1, Members(ps))
      case None => InvNone(files, eligible, fits, i, ps);
      case Some(j) => InvSome(files, eligible, fits, i, ps, j);
    }
  }

  lemma GreedyFromUnfold<T>(files: seq<T>, eligible: T -> bool, fits: (T, T) -> bool, i: nat, ps: seq<IdxPair>)
    requires i < |files|
    ensures GreedyFrom(files, eligible, fits, i, ps) == GreedyFrom(files, eligible, fits, i + 1, Step(files, eligible, fits, i, ps))
  {
  }

  /** Induction along the scan: a property of (position, pairs so far) that
      holds at `i` and survives every step holds once the list is scanned. */
  lemma {:induction false} GreedyFromKeeps<T>(files: seq<T>, eligible: T -> bool, fits: (T, T) -> bool, inv: (nat, seq<IdxPair>) -> bool, i: nat, ps: seq<IdxPair>)
    requires forall k: nat, qs :: k < |files| && inv(k, qs) ==> inv(k + 1, Step(files, eligible, fits, k, qs))
    requires i <= |files| && inv(i, ps)
    ensures inv(|files|, GreedyFrom(files, eligible, fits, i, ps))
    decreases |files| - i
  {
    if i < |files| {
      GreedyFromKeeps(files, eligible, fits, inv, i + 1, Step(files, eligible, fits, i, ps));
      GreedyFromUnfold(files, eligible, fits, i, ps);
    }
  }

  lemma GreedyFromInv<T>(files: seq<T>, eligible: T -> bool, fits: (T, T) -> bool, i: nat, ps: seq<IdxPair>)
    requires Inv(files, eligible, fits, i, ps)
    ensures Inv(files, eligible, fits, |files|, GreedyFrom(files, eligible, fits, i, ps))
  {
    var inv := (k: nat, qs: seq<IdxPair>) => Inv(files, eligible, fits, k, qs);
    forall k: nat, qs | k < |files| && inv(k, qs) ensures inv(k + 1, Step(files, eligible, fits, k, qs)) {
      InvStep(files, eligible, fits, k, qs);
    }
    GreedyFromKeeps(files, eligible, fits, inv, i, ps);
  }

  /** The properties of the greedy first-fit matching:
      every pair is (earlier, later), its first member eligible, the two fit;
      pairs appear in scan order and share no image; each partner is the first
      free fitting candidate; and an eligible leftover image has no fitting
      later candidate that an earlier pair had not already taken (in particular
      no two leftover images fit each other). */
  lemma GreedyCorrect<T>(files: seq<T>, eligible: T -> bool, fits: (T, T) -> bool)
    ensures PairsFit(files, eligible, fits, Greedy(files, eligible, fits))
    ensures InScanOrder(Greedy(files, eligible, fits))
    ensures Disjoint(Greedy(files, eligible, fits))
    ensures FirstFitting(files, fits, Greedy(files, eligible, fits))
    ensures SinglesMaximal(files, eligible, fits, |files|, Greedy(files, eligible, fits))
  {
    GreedyFromInv(files, eligible, fits, 0, []);
  }

  /** Two leftover images never fit each other when the earlier one is eligible. */
  lemma LeftoversDoNotFit<T>(files: seq<T>, eligible: T -> bool, fits: (T, T) -> bool, s: nat, j: nat)
    requires s < j < |files|
    requires s !in Members(Greedy(files, eligible, fits)) && j !in Members(Greedy(files, eligible, fits))
    requires eligible(files[s])
    ensures !fits(files[s], files[j])
  {
    var ps := Greedy(files, eligible, fits);
    GreedyCorrect(files, eligible, fits);
    TakenBeforeMembers(ps, s);
  }

  /** A pair list with no shared position uses exactly two positions per pair:
      `len(used) == 2 * len(pairs)`. */
  lemma {:induction false} MembersCount(ps: seq<IdxPair>)
    requires Disjoint(ps)
    requires forall q :: 0 <= q < |ps| ==> ps[q].first < ps[q].second
    requires InScanOrder(ps)
    ensures |Members(ps)| == 2 * |ps|
  {
    if ps != [] {
      var init := ps[..|ps| - 1];
      var last := ps[|ps| - 1];
      MembersCount(init);
      assert last.first !in Members(init) && last.second !in Members(init) by {
        MembersIn(init, last.first);
        MembersIn(init, last.second);
        forall q | 0 <= q < |init|
          ensures init[q].first != last.first && init[q].second != last.first
          ensures init[q].first != last.second && init[q].second != last.second
        {
          assert init[q] == ps[q];
        }
      }
    }
  }

  /** The greedy result uses exactly two images per pair. */
  lemma GreedyUsedCount<T>(files: seq<T>, eligible: T -> bool, fits: (T, T) -> bool)
    ensures |Members(Greedy(files, eligible, fits))| == 2 * |Greedy(files, eligible, fits)|
  {
    GreedyCorrect(files, eligible, fits);
    MembersCount(Greedy(files, eligible, fits));
  }

  ghost predicate InBounds(n: nat, ps: seq<IdxPair>) {
    forall q :: 0 <= q < |ps| ==> ps[q].first < n && ps[q].second < n
  }

  lemma {:induction false} GreedyFromInBounds<T>(files: seq<T>, eligible: T -> bool, fits: (T, T) -> bool, i: nat, ps: seq<IdxPair>)
    requires InBounds(|files|, ps)
    ensures InBounds(|files|, GreedyFrom(files, eligible, fits, i, ps))
    decreases |files| - i
  {
    if i < |files| {
      var ps' := Step(files, eligible, fits, i, ps);
      assert InBounds(|files|, ps') by {
        forall q | 0 <= q < |ps'| ensures ps'[q].first < |files| && ps'[q].second < |files| {
          if q < |ps| { assert ps'[q] == ps[q]; }
        }
      }
      GreedyFromInBounds(files, eligible, fits, i + 1, ps');
    }
  }

  lemma MembersInBounds(n: nat, ps: seq<IdxPair>)
    requires InBounds(n, ps)
    ensures forall x :: x in Members(ps) ==> x < n
  {
    forall x | x in Members(ps) ensures x < n {
      MembersIn(ps, x);
    }
  }

  /** Every position the matcher uses lies in the list. */
  lemma GreedyInBounds<T>(files: seq<T>, eligible: T -> bool, fits: (T, T) -> bool)
    ensures InBounds(|files|, Greedy(files, eligible, fits))
    ensures forall x :: x in Members(Greedy(files, eligible, fits)) ==> x < |files|
  {
    GreedyFromInBounds(files, eligible, fits, 0, []);
    MembersInBounds(|files|, Greedy(files, eligible, fits));
  }

  // ---------------------------------------------------------------------------
  // The source's loop, over paths.

  /** The pairs of paths that the positions name. */
  function PathsOf<T>(files: seq<T>, ps: seq<IdxPair>): (r: seq<(T, T)>)
    requires forall q :: 0 <= q < |ps| ==> ps[q].first < |files| && ps[q].second < |files|
    ensures |r| == |ps|
    ensures forall q :: 0 <= q < |ps| ==> r[q] == (files[ps[q].first], files[ps[q].second])
  {
    if ps == [] then [] else PathsOf(files, ps[..|ps| - 1]) + [(files[ps[|ps| - 1].first], files[ps[|ps| - 1].second])]
  }

  /** The paths at the given positions. */
  function PathSet<T>(files: seq<T>, ks: set<nat>): set<T>
    requires forall k :: k in ks ==> k < |files|
  {
    set k | k in ks :: files[k]
  }

  lemma PathSetMember<T>(files: seq<T>, ks: set<nat>, k: nat)
    requires Distinct(files)
    requires forall x :: x in ks ==> x < |files|
    requires k < |files|
    ensures files[k] in PathSet(files, ks) <==> k in ks
  {
  }

  /** The pairs of paths the greedy scan makes. */
  function GreedyPairs<T>(files: seq<T>, eligible: T -> bool, fits: (T, T) -> bool): seq<(T, T)> {
    GreedyInBounds(files, eligible, fits);
    PathsOf(files, Greedy(files, eligible, fits))
  }

  /** The `used` set after the greedy scan. */
  function GreedyUsed<T>(files: seq<T>, eligible: T -> bool, fits: (T, T) -> bool): set<T> {
    GreedyInBounds(files, eligible, fits);
    PathSet(files, Members(Greedy(files, eligible, fits)))
  }

  /** The inner loop of the sorting phase: the first later path that is not yet
      used and fits `files[i]`, found by scanning `files[i+1..]` and stopping at
      the first hit (`break`). */
  method FindPartner<T(==)>(files: seq<T>, fits: (T, T) -> bool, i: nat, used: set<T>, ghost ks: set<nat>)
    returns (found: bool, j: nat)
    requires Distinct(files) && i < |files|
    requires forall x :: x in ks ==> x < |files|
    requires used == PathSet(files, ks)
    ensures found <==> FirstFit(files, fits, i, i + 1, ks).Some?
    ensures found ==> FirstFit(files, fits, i, i + 1, ks) == Some(j)
  {
    j := i + 1;
    found := false;
    while j < |files|
      invariant i + 1 <= j <= |files|
      invariant FirstFit(files, fits, i, i + 1, ks) == FirstFit(files, fits, i, j, ks)
    {
      var path2 := files[j];
      PathSetMember(files, ks, j);
      if path2 !in used && fits(files[i], path2) {
        found := true;
        return;
      }
      j := j + 1;
    }
  }

  /** Recording the pair `(i, j)` extends the pairs of paths by one and the used
      set by its two paths. */
  lemma RecordPair<T>(files: seq<T>, ps: seq<IdxPair>, i: nat, j: nat)
    requires InBounds(|files|, ps) && i < |files| && j < |files|
    requires forall x :: x in Members(ps) ==> x < |files|
    ensures InBounds(|files|, ps + [IdxPair(i, j)])
    ensures forall x :: x in Members(ps + [IdxPair(i, j)]) ==> x < |files|
    ensures PathsOf(files, ps + [IdxPair(i, j)]) == PathsOf(files, ps) + [(files[i], files[j])]
    ensures PathSet(files, Members(ps + [IdxPair(i, j)])) == PathSet(files, Members(ps)) + {files[i], files[j]}
  {
    var ps' := ps + [IdxPair(i, j)];
    assert ps'[..|ps|] == ps;
    assert InBounds(|files|, ps') by {
      forall q | 0 <= q < |ps'| ensures ps'[q].first < |files| && ps'[q].second < |files| {
        if q < |ps| { assert ps'[q] == ps[q]; }
      }
    }
    MembersAppend(ps, IdxPair(i, j));
    MembersInBounds(|files|, ps');
  }

  /** What the outer loop keeps before position `i`: the pairs and the used set
      are those of the pair positions `ps`, and scanning on from `i` gives the
      greedy result. */
  ghost predicate Scanned<T>(files: seq<T>, eligible: T -> bool, fits: (T, T) -> bool, i: nat, ps: seq<IdxPair>, pairs: seq<(T, T)>, used: set<T>) {
    && i <= |files|
    && InBounds(|files|, ps)
    && (forall x :: x in Members(ps) ==> x < |files|)
    && GreedyFrom(files, eligible, fits, i, ps) == Greedy(files, eligible, fits)
    && pairs == PathsOf(files, ps)
    && used == PathSet(files, Members(ps))
  }

  /** One turn of the outer loop: skip `path1` when it is used or not eligible,
      else look for its partner and record the pair if there is one. */
  method ScanOne<T(==)>(files: seq<T>, eligible: T -> bool, fits: (T, T) -> bool, i: nat, pairs: seq<(T, T)>, used: set<T>, ghost ps: seq<IdxPair>)
    returns (pairs': seq<(T, T)>, used': set<T>, ghost ps': seq<IdxPair>)
    requires Distinct(files) && i < |files|
    requires Scanned(files, eligible, fits, i, ps, pairs, used)
    ensures Scanned(files, eligible, fits, i + 1, ps', pairs', used')
  {
    pairs', used', ps' := pairs, used, ps;
    var path1 := files[i];
    GreedyFromUnfold(files, eligible, fits, i, ps);
    PathSetMember(files, Members(ps), i);
    if path1 !in used && eligible(path1) {
      var found, j := FindPartner(files, fits, i, used, Members(ps));
      if found {
        RecordPair(files, ps, i, j);
        ps' := ps + [IdxPair(i, j)];
        pairs' := pairs + [(path1, files[j])];
        used' := used + {path1, files[j]};
      }
    }
  }

  /** The nested loop of the sorting phase: `used = set()`, `pairs = []`, then for
      each unused eligible `path1` the inner loop over later unused `path2`,
      appending and marking the first one that fits. */
  method MatchGreedy<T(==)>(files: seq<T>, eligible: T -> bool, fits: (T, T) -> bool)
    returns (pairs: seq<(T, T)>, used: set<T>)
    requires Distinct(files)
    ensures pairs == GreedyPairs(files, eligible, fits)
    ensures used == GreedyUsed(files, eligible, fits)
  {
    pairs, used := [], {};
    ghost var ps: seq<IdxPair> := [];
    var i := 0;
    while i < |files|
      invariant 0 <= i <= |files|
      invariant Scanned(files, eligible, fits, i, ps, pairs, used)
    {
      pairs, used, ps := ScanOne(files, eligible, fits, i, pairs, used, ps);
      i := i + 1;
    }
    GreedyInBounds(files, eligible, fits);
  }

  // ---------------------------------------------------------------------------
  // Counting.

  lemma {:induction false} PathSetCard<T>(files: seq<T>, ks: set<nat>)
    requires Distinct(files)
    requires forall x :: x in ks ==> x < |files|
    ensures |PathSet(files, ks)| == |ks|
    decreases |ks|
  {
    if ks != {} {
      var k :| k in ks;
      var rest := ks - {k};
      PathSetCard(files, rest);
      assert PathSet(files, ks) == PathSet(files, rest) + {files[k]};
      assert files[k] !in PathSet(files, rest);
    }
  }

  lemma {:induction false} BoundedCard(ks: set<nat>, n: nat)
    requires forall x :: x in ks ==> x < n
    ensures |ks| <= n
  {
    if n > 0 {
      var rest := ks - {n - 1};
      BoundedCard(rest, n - 1);
    } else {
      assert ks == {};
    }
  }

  /** `len(used) == 2 * len(pairs)`, so at most every image is paired:
      `2 * len(pairs) <= len(files)`. */
  lemma GreedyCounts<T>(files: seq<T>, eligible: T -> bool, fits: (T, T) -> bool)
    requires Distinct(files)
    ensures |GreedyUsed(files, eligible, fits)| == 2 * |GreedyPairs(files, eligible, fits)|
    ensures 2 * |GreedyPairs(files, eligible, fits)| <= |files|
  {
    var ps := Greedy(files, eligible, fits);
    GreedyInBounds(files, eligible, fits);
    GreedyUsedCount(files, eligible, fits);
    PathSetCard(files, Members(ps));
    BoundedCard(Members(ps), |files|);
  }

  // ---------------------------------------------------------------------------
  // The same properties, for the paths the method returns.

  /** Each returned pair `(path1, path2)` has `path1` earlier in the list than
      `path2`, `path1` eligible, and the two fitting. */
  lemma GreedyPairFits<T>(files: seq<T>, eligible: T -> bool, fits: (T, T) -> bool, q: nat)
    requires q < |GreedyPairs(files, eligible, fits)|
    ensures var (a, b) := GreedyPairs(files, eligible, fits)[q];
      && (exists i, j :: 0 <= i < j < |files| && files[i] == a && files[j] == b)
      && eligible(a) && fits(a, b)
  {
    var ps := Greedy(files, eligible, fits);
    GreedyCorrect(files, eligible, fits);
    GreedyInBounds(files, eligible, fits);
    var i, j := ps[q].first, ps[q].second;
    assert GreedyPairs(files, eligible, fits)[q] == (files[i], files[j]);
  }

  /** A path is used exactly when it is a member of a returned pair. */
  lemma GreedyUsedMember<T>(files: seq<T>, eligible: T -> bool, fits: (T, T) -> bool, x: T)
    ensures x in GreedyUsed(files, eligible, fits) <==>
      exists q :: 0 <= q < |GreedyPairs(files, eligible, fits)| &&
        (GreedyPairs(files, eligible, fits)[q].0 == x || GreedyPairs(files, eligible, fits)[q].1 == x)
  {
    var ps := Greedy(files, eligible, fits);
    var pairs := GreedyPairs(files, eligible, fits);
    GreedyInBounds(files, eligible, fits);
    if x in GreedyUsed(files, eligible, fits) {
      var k :| k in Members(ps) && files[k] == x;
      MembersIn(ps, k);
      var q :| 0 <= q < |ps| && (ps[q].first == k || ps[q].second == k);
      assert pairs[q] == (files[ps[q].first], files[ps[q].second]);
    }
    if exists q :: 0 <= q < |pairs| && (pairs[q].0 == x || pairs[q].1 == x) {
      var q :| 0 <= q < |pairs| && (pairs[q].0 == x || pairs[q].1 == x);
      assert pairs[q] == (files[ps[q].first], files[ps[q].second]);
      var k := if pairs[q].0 == x then ps[q].first else ps[q].second;
      MembersIn(ps, k);
      assert k in Members(ps);
    }
  }
}

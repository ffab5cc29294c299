/** The two positional pairings of the stereogram tools (`stereogrampo.py`,
    `stereogrampo.mpo-test.py`). With the "single" folder structure the
    name-sorted files are paired in order, `(files[0], files[1])`,
    `(files[2], files[3])`, and so on, leaving a last odd file out; with the
    "lr_folders" structure the i-th file of `Left` is paired with the i-th file
    of `Right`, as far as the shorter list goes. */
module Positional {
  import opened Common
  import opened Sorting

  /** `[(files[i], files[i + 1]) for i in range(0, len(files) - 1, 2)]`. */
  function ConsecutivePairs<T>(files: seq<T>): (r: seq<(T, T)>)
    ensures |r| == |files| / 2
    ensures forall q :: 0 <= q < |r| ==> r[q] == (files[2 * q], files[2 * q + 1])
  {
    if |files| < 2 then [] else [(files[0], files[1])] + ConsecutivePairs(files[2..])
  }

  /** Both members of each pair, pair after pair. */
  function Flatten<T>(pairs: seq<(T, T)>): seq<T> {
    if pairs == [] then [] else [pairs[0].0, pairs[0].1] + Flatten(pairs[1..])
  }

  /** Reading the pairs back, member after member, gives the files in order
      without the last one of an odd count. */
  lemma {:induction false} FlattenConsecutive<T>(files: seq<T>)
    ensures Flatten(ConsecutivePairs(files)) == files[..2 * (|files| / 2)]
  {
    if |files| >= 2 {
      var r := ConsecutivePairs(files);
      FlattenConsecutive(files[2..]);
      assert r[1..] == ConsecutivePairs(files[2..]);
      assert files[..2 * (|files| / 2)] == [files[0], files[1]] + files[2..][..2 * (|files[2..]| / 2)];
    }
  }

  /** With distinct file names no file is in two pairs. */
  lemma ConsecutiveDisjoint<T>(files: seq<T>, q1: nat, q2: nat)
    requires Distinct(files)
    requires q1 < q2 < |ConsecutivePairs(files)|
    ensures var (a, b) := ConsecutivePairs(files)[q1];
            var (c, d) := ConsecutivePairs(files)[q2];
            a != c && a != d && b != c && b != d
  {
  }

  /** Every file but an odd last one is in the pair at half its position. */
  lemma ConsecutiveCovers<T>(files: seq<T>, k: nat)
    requires k < 2 * (|files| / 2)
    ensures ConsecutivePairs(files)[k / 2] == if k % 2 == 0 then (files[k], files[k + 1]) else (files[k - 1], files[k])
  {
    var q, n := k / 2, |files| / 2;
    assert k == 2 * q + k % 2;
    assert q < n;
    var p := ConsecutivePairs(files)[q];
    assert p == (files[2 * q], files[2 * q + 1]);
    if k % 2 == 0 {
      assert k == 2 * q;
    } else {
      assert k - 1 == 2 * q && k == 2 * q + 1;
    }
  }

  /** "single" structure: `image_files.sort()` and the consecutive pairing. */
  function SinglePairs(files: seq<string>): seq<(string, string)> {
    ConsecutivePairs(SortBy(files, StrLe))
  }

  /** Every pair of the "single" structure is in name order. */
  lemma SinglePairsOrdered(files: seq<string>, q: nat)
    requires q < |SinglePairs(files)|
    ensures StrLe(SinglePairs(files)[q].0, SinglePairs(files)[q].1)
  {
    StrLeIsTotalPreorder();
    SortBySorted(files, StrLe);
  }

  /** `[(left_files[i], right_files[i]) for i in range(min(len(left_files), len(right_files)))]`. */
  function LeftRightPairs<T>(left: seq<T>, right: seq<T>): (r: seq<(T, T)>)
    ensures |r| == Min(|left|, |right|)
    ensures forall q :: 0 <= q < |r| ==> r[q] == (left[q], right[q])
  {
    if left == [] || right == [] then [] else [(left[0], right[0])] + LeftRightPairs(left[1..], right[1..])
  }

  function Firsts<T>(pairs: seq<(T, T)>): seq<T> {
    if pairs == [] then [] else [pairs[0].0] + Firsts(pairs[1..])
  }

  function Seconds<T>(pairs: seq<(T, T)>): seq<T> {
    if pairs == [] then [] else [pairs[0].1] + Seconds(pairs[1..])
  }

  /** Unzipping the pairs gives back the two lists, cut to the shorter length. */
  lemma {:induction false} UnzipLeft<T>(left: seq<T>, right: seq<T>)
    ensures Firsts(LeftRightPairs(left, right)) == left[..Min(|left|, |right|)]
  {
    if left != [] && right != [] {
      var r := LeftRightPairs(left, right);
      var m := Min(|left|, |right|);
      UnzipLeft(left[1..], right[1..]);
      assert r[1..] == LeftRightPairs(left[1..], right[1..]);
      assert left[..m] == [left[0]] + left[1..][..m - 1];
    }
  }

  lemma {:induction false} UnzipRight<T>(left: seq<T>, right: seq<T>)
    ensures Seconds(LeftRightPairs(left, right)) == right[..Min(|left|, |right|)]
  {
    if left != [] && right != [] {
      var r := LeftRightPairs(left, right);
      var m := Min(|left|, |right|);
      UnzipRight(left[1..], right[1..]);
      assert r[1..] == LeftRightPairs(left[1..], right[1..]);
      assert right[..m] == [right[0]] + right[1..][..m - 1];
    }
  }

  /** "lr_folders" structure: both listings sorted by name, then zipped. */
  function LeftRightSorted(left: seq<string>, right: seq<string>): seq<(string, string)> {
    LeftRightPairs(SortBy(left, StrLe), SortBy(right, StrLe))
  }
}

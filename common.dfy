/** Values shared by every part of the model: optional values, results with an
    error message, bytes, and a few predicates on sequences. */
module Common {

  datatype Option<+T> = None | Some(value: T) {
    function GetOr(default: T): T {
      match this
      case Some(v) => v
      case None => default
    }
  }

  /** The outcome of an operation that the source guards with `try`/`except`. */
  datatype Result<+T> = Ok(value: T) | Err(message: string)

  type byte = b: int | 0 <= b < 256

  /** No element occurs twice (paths in one directory listing). */
  ghost predicate Distinct<T>(s: seq<T>) {
    forall i, j :: 0 <= i < j < |s| ==> s[i] != s[j]
  }

  lemma {:induction false} DistinctMultiplicity<T>(s: seq<T>, x: T)
    requires Distinct(s)
    ensures multiset(s)[x] <= 1
  {
    if s != [] {
      var init := s[..|s| - 1];
      assert s == init + [s[|s| - 1]];
      DistinctMultiplicity(init, x);
      if x == s[|s| - 1] {
        assert x !in init by {
          forall k | 0 <= k < |init| ensures init[k] != x {
            assert init[k] == s[k];
          }
        }
      }
    }
  }

  /** A sequence whose every element is `x` holds `x` as often as it is long. */
  lemma {:induction false} AllSameMultiplicity<T>(s: seq<T>, x: T)
    requires forall k :: 0 <= k < |s| ==> s[k] == x
    ensures multiset(s)[x] == |s|
  {
    if s != [] {
      AllSameMultiplicity(s[1..], x);
      assert s == [s[0]] + s[1..];
    }
  }

  /** A helper: concatenation regrouped, for loops that append to an accumulated
      sequence; stated once to keep those loops' proofs small. */
  lemma SeqAssoc<T>(x: seq<T>, y: seq<T>, z: seq<T>)
    ensures x + (y + z) == (x + y) + z
  {
  }

  function Min(a: int, b: int): int {
    if a <= b then a else b
  }

  function Max(a: int, b: int): int {
    if a >= b then a else b
  }
}

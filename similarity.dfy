/** The perceptual-similarity test `is_similar_image`: two images are similar when
    the Hamming distance of their `imagehash.phash` fingerprints is strictly below
    `HASH_DIFF_THRESHOLD`. Computing a fingerprint decodes the image and runs a
    DCT; that library call is a parameter of the model (None when the image does
    not open), and any failure makes the test answer False. */
module Similarity {
  import opened Common

  /** The bits of a perceptual hash (64 of them for `phash` with its defaults). */
  type Fingerprint = seq<bool>

  /** `hash1 - hash2`: the number of positions where the two hashes differ. */
  function Hamming(a: Fingerprint, b: Fingerprint): (d: nat)
    requires |a| == |b|
    ensures d <= |a|
  {
    if a == [] then 0 else Hamming(a[1..], b[1..]) + (if a[0] != b[0] then 1 else 0)
  }

  lemma {:induction false} HammingSelf(a: Fingerprint)
    ensures Hamming(a, a) == 0
  {
    if a != [] { HammingSelf(a[1..]); }
  }

  lemma {:induction false} HammingSymmetric(a: Fingerprint, b: Fingerprint)
    requires |a| == |b|
    ensures Hamming(a, b) == Hamming(b, a)
  {
    if a != [] { HammingSymmetric(a[1..], b[1..]); }
  }

  /** The distance is zero exactly for equal hashes. */
  lemma {:induction false} HammingZeroIffEqual(a: Fingerprint, b: Fingerprint)
    requires |a| == |b|
    ensures Hamming(a, b) == 0 <==> a == b
  {
    if a != [] {
      HammingZeroIffEqual(a[1..], b[1..]);
      assert a == [a[0]] + a[1..] && b == [b[0]] + b[1..];
    }
  }

  lemma {:induction false} HammingTriangle(a: Fingerprint, b: Fingerprint, c: Fingerprint)
    requires |a| == |b| == |c|
    ensures Hamming(a, c) <= Hamming(a, b) + Hamming(b, c)
  {
    if a != [] { HammingTriangle(a[1..], b[1..], c[1..]); }
  }

  /** `is_similar_image(file1, file2)`: False when either image fails to open
      (`h1` or `h2` is None) or the hashes differ in shape (the subtraction
      raises), else `abs(hash1 - hash2) < HASH_DIFF_THRESHOLD`. */
  predicate IsSimilar(h1: Option<Fingerprint>, h2: Option<Fingerprint>, threshold: int) {
    h1.Some? && h2.Some? && |h1.value| == |h2.value| && Hamming(h1.value, h2.value) < threshold
  }

  /** Similarity does not depend on which image comes first. */
  lemma SimilarSymmetric(h1: Option<Fingerprint>, h2: Option<Fingerprint>, threshold: int)
    ensures IsSimilar(h1, h2, threshold) <==> IsSimilar(h2, h1, threshold)
  {
    if h1.Some? && h2.Some? && |h1.value| == |h2.value| {
      HammingSymmetric(h1.value, h2.value);
    }
  }

  /** Once the threshold is clamped to at least 1, an image whose hash can be
      computed is similar to any image with the same hash; with threshold 0 or
      less nothing is similar. */
  lemma SameHashSimilar(h: Fingerprint, threshold: int)
    ensures IsSimilar(Some(h), Some(h), threshold) <==> threshold >= 1
  {
    HammingSelf(h);
  }

  /** Raising the threshold never loses a similar pair. */
  lemma SimilarMonotone(h1: Option<Fingerprint>, h2: Option<Fingerprint>, t1: int, t2: int)
    requires t1 <= t2 && IsSimilar(h1, h2, t1)
    ensures IsSimilar(h1, h2, t2)
  {
  }
}

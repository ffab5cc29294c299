/** The Multi-Picture Format data that `create_mpo` (`create_mpo_gui.py`) and
    `create_mpo_file` (`stereogrampo.mpo-test.py`) write for a stereo pair: the
    32-byte `MPF:MPEntry` value, handed to exiftool as hex, and the MPO stream,
    which is the left JPEG followed by the right JPEG.

    The MP Entry value follows the layout of the MP Entry field of the MP
    Index IFD (CIPA DC-007, section 5.2.3.3): one 16-byte entry per image, each
    four big-endian 32-bit words (attribute, size, offset, dependency). The
    values are the ones the code writes: attribute 0 for the left image,
    0x00020000 for the right one, and the right image's offset counted from the
    start of the stream. */
module MpEntry {
  import opened Common

  const Word := 0x1_0000_0000

  /** `n.to_bytes(4, byteorder='big')`; it raises `OverflowError` from 2^32 up. */
  function Be32(n: nat): (r: seq<byte>)
    requires n < Word
    ensures |r| == 4
  {
    var n1 := n / 0x100;
    var n2 := n1 / 0x100;
    [n2 / 0x100, n2 % 0x100, n1 % 0x100, n % 0x100]
  }

  /** The big-endian 32-bit word at `b[at..at + 4]`. */
  function Word32At(b: seq<byte>, at: nat): nat
    requires at + 4 <= |b|
  {
    ((b[at] as int * 0x100 + b[at + 1]) * 0x100 + b[at + 2]) * 0x100 + b[at + 3]
  }

  lemma Be32Decodes(n: nat, rest: seq<byte>, before: seq<byte>)
    requires n < Word
    ensures Word32At(before + Be32(n) + rest, |before|) == n
  {
    var b := before + Be32(n) + rest;
    var k := |before|;
    assert b[k] == Be32(n)[0] && b[k + 1] == Be32(n)[1] && b[k + 2] == Be32(n)[2] && b[k + 3] == Be32(n)[3];
    var n1 := n / 0x100;
    var n2 := n1 / 0x100;
    assert n == n1 * 0x100 + n % 0x100;
    assert n1 == n2 * 0x100 + n1 % 0x100;
    assert n2 == n2 / 0x100 * 0x100 + n2 % 0x100;
  }

  datatype Entry = Entry(attribute: nat, size: nat, offset: nat, dependency: nat)

  /** Attribute of the first (left) image. */
  const Primary := 0
  /** Attribute the code writes for the second (right) image. */
  const RightEye := 0x0002_0000

  /** The two entries of a stereo pair. The right image follows the left one,
      so its offset is the left image's size. */
  function StereoEntries(leftSize: nat, rightSize: nat): (Entry, Entry) {
    (Entry(Primary, leftSize, 0, 0), Entry(RightEye, rightSize, leftSize, 0))
  }

  predicate Encodable(e: Entry) {
    e.attribute < Word && e.size < Word && e.offset < Word && e.dependency < Word
  }

  /** One 16-byte MP entry. */
  function EncodeEntry(e: Entry): (r: seq<byte>)
    requires Encodable(e)
    ensures |r| == 16
  {
    Be32(e.attribute) + Be32(e.size) + Be32(e.offset) + Be32(e.dependency)
  }

  /** The `MPF:MPEntry` bytes built from the two file sizes; `Err` when a size
      does not fit in four bytes, as `to_bytes(4)` raises. */
  function MPEntry(leftSize: nat, rightSize: nat): (r: Result<seq<byte>>)
    ensures r.Ok? <==> leftSize < Word && rightSize < Word
    ensures r.Ok? ==> |r.value| == 32
  {
    if leftSize < Word && rightSize < Word then
      var (e1, e2) := StereoEntries(leftSize, rightSize);
      Ok(EncodeEntry(e1) + EncodeEntry(e2))
    else
      Err("int too big to convert")
  }

  function DecodeEntry(b: seq<byte>, at: nat): Entry
    requires at + 16 <= |b|
  {
    Entry(Word32At(b, at), Word32At(b, at + 4), Word32At(b, at + 8), Word32At(b, at + 12))
  }

  /** Reading the two entries back; `None` unless the value is 32 bytes. */
  function DecodeEntries(b: seq<byte>): Option<(Entry, Entry)> {
    if |b| == 32 then Some((DecodeEntry(b, 0), DecodeEntry(b, 16))) else None
  }

  lemma EncodeEntryDecodes(e: Entry, before: seq<byte>, rest: seq<byte>)
    requires Encodable(e)
    ensures DecodeEntry(before + EncodeEntry(e) + rest, |before|) == e
  {
    var b := before + EncodeEntry(e) + rest;
    var n := |before|;
    Be32Decodes(e.attribute, Be32(e.size) + Be32(e.offset) + Be32(e.dependency) + rest, before);
    assert b == before + Be32(e.attribute) + (Be32(e.size) + Be32(e.offset) + Be32(e.dependency) + rest);
    Be32Decodes(e.size, Be32(e.offset) + Be32(e.dependency) + rest, before + Be32(e.attribute));
    assert b == (before + Be32(e.attribute)) + Be32(e.size) + (Be32(e.offset) + Be32(e.dependency) + rest);
    Be32Decodes(e.offset, Be32(e.dependency) + rest, before + Be32(e.attribute) + Be32(e.size));
    assert b == (before + Be32(e.attribute) + Be32(e.size)) + Be32(e.offset) + (Be32(e.dependency) + rest);
    Be32Decodes(e.dependency, rest, before + Be32(e.attribute) + Be32(e.size) + Be32(e.offset));
    assert b == (before + Be32(e.attribute) + Be32(e.size) + Be32(e.offset)) + Be32(e.dependency) + rest;
  }

  /** Decoding the MP Entry value gives back both file sizes, the right image's
      offset equal to the left image's size, and zero dependencies. */
  lemma MPEntryRoundTrip(leftSize: nat, rightSize: nat)
    requires MPEntry(leftSize, rightSize).Ok?
    ensures DecodeEntries(MPEntry(leftSize, rightSize).value) == Some(StereoEntries(leftSize, rightSize))
    ensures var (e1, e2) := DecodeEntries(MPEntry(leftSize, rightSize).value).value;
      && e1.size == leftSize && e2.size == rightSize && e2.offset == e1.size
      && e1.offset == 0 && e1.dependency == 0 && e2.dependency == 0
      && e1.attribute == Primary && e2.attribute == RightEye
  {
    var (e1, e2) := StereoEntries(leftSize, rightSize);
    var b := MPEntry(leftSize, rightSize).value;
    EncodeEntryDecodes(e1, [], EncodeEntry(e2));
    assert b == [] + EncodeEntry(e1) + EncodeEntry(e2);
    EncodeEntryDecodes(e2, EncodeEntry(e1), []);
    assert b == EncodeEntry(e1) + EncodeEntry(e2) + [];
  }

  /** The bytes as written: the first attribute is all zero, the second is
      `00 02 00 00`, and the left size appears twice, as entry 1's size and as
      entry 2's offset. */
  lemma MPEntryBytes(leftSize: nat, rightSize: nat)
    requires MPEntry(leftSize, rightSize).Ok?
    ensures var b := MPEntry(leftSize, rightSize).value;
      && b[0..4] == [0, 0, 0, 0] && b[8..16] == [0, 0, 0, 0, 0, 0, 0, 0]
      && b[16..20] == [0, 2, 0, 0] && b[28..32] == [0, 0, 0, 0]
      && b[4..8] == b[24..28] == Be32(leftSize) && b[20..24] == Be32(rightSize)
  {
  }

  // ---------------------------------------------------------------------------
  // `.hex()`, the form in which the value is passed to exiftool.

  const HexDigits := "0123456789abcdef"

  function Hex(b: seq<byte>): (r: string)
    ensures |r| == 2 * |b|
  {
    if b == [] then "" else [HexDigits[b[0] / 16], HexDigits[b[0] % 16]] + Hex(b[1..])
  }

  function DigitValue(c: char): Option<nat> {
    if '0' <= c <= '9' then Some(c as int - '0' as int)
    else if 'a' <= c <= 'f' then Some(c as int - 'a' as int + 10)
    else None
  }

  /** `bytes.fromhex` restricted to lower-case digit pairs. */
  function Unhex(s: string): Option<seq<byte>>
    decreases |s|
  {
    if s == [] then Some([])
    else if |s| == 1 then None
    else match (DigitValue(s[0]), DigitValue(s[1]), Unhex(s[2..]))
      case (Some(hi), Some(lo), Some(rest)) => Some([hi * 16 + lo] + rest)
      case _ => None
  }

  lemma DigitValueOfHexDigit(d: nat)
    requires d < 16
    ensures DigitValue(HexDigits[d]) == Some(d)
  {
  }

  lemma {:induction false} HexRoundTrip(b: seq<byte>)
    ensures Unhex(Hex(b)) == Some(b)
  {
    if b != [] {
      var hi, lo := b[0] / 16, b[0] % 16;
      var s := [HexDigits[hi], HexDigits[lo]] + Hex(b[1..]);
      assert Hex(b) == s;
      DigitValueOfHexDigit(hi);
      DigitValueOfHexDigit(lo);
      HexRoundTrip(b[1..]);
      assert s[0] == HexDigits[hi] && s[1] == HexDigits[lo] && s[2..] == Hex(b[1..]);
      assert hi * 16 + lo == b[0];
      assert Unhex(s) == Some([b[0]] + b[1..]);
      assert [b[0]] + b[1..] == b;
    }
  }

  // ---------------------------------------------------------------------------
  // The MPO stream.

  /** The temporary MPO file being written (`open(temp_mpo, 'wb')`). */
  class OutputFile {
    var contents: seq<byte>

    constructor ()
      ensures contents == []
    {
      contents := [];
    }

    /** `mpo_file.write(data)`. */
    method Write(data: seq<byte>)
      modifies this
      ensures contents == old(contents) + data
    {
      contents := contents + data;
    }
  }

  /** The two writes: all of the left file, then all of the right file. */
  method WriteStream(left: seq<byte>, right: seq<byte>) returns (f: OutputFile)
    ensures fresh(f) && f.contents == Concat(left, right)
  {
    f := new OutputFile();
    f.Write(left);
    f.Write(right);
  }

  function Concat(left: seq<byte>, right: seq<byte>): (r: seq<byte>)
    ensures |r| == |left| + |right|
  {
    left + right
  }

  /** Cutting a stream at the left image's size. */
  function Split(stream: seq<byte>, leftSize: nat): Option<(seq<byte>, seq<byte>)> {
    if leftSize <= |stream| then Some((stream[..leftSize], stream[leftSize..])) else None
  }

  lemma SplitConcat(left: seq<byte>, right: seq<byte>)
    ensures Split(Concat(left, right), |left|) == Some((left, right))
  {
    assert Concat(left, right)[..|left|] == left;
    assert Concat(left, right)[|left|..] == right;
  }

  lemma ConcatSplit(stream: seq<byte>, leftSize: nat)
    requires leftSize <= |stream|
    ensures Split(stream, leftSize).Some?
    ensures Concat(Split(stream, leftSize).value.0, Split(stream, leftSize).value.1) == stream
  {
  }

  /** Each entry locates its image in the stream: the bytes from `offset` to
      `offset + size` are the left JPEG for entry 1 and the right JPEG for
      entry 2. */
  lemma EntriesLocateImages(left: seq<byte>, right: seq<byte>)
    requires MPEntry(|left|, |right|).Ok?
    ensures var stream := Concat(left, right);
      var (e1, e2) := DecodeEntries(MPEntry(|left|, |right|).value).value;
      && e1.offset + e1.size <= |stream| && stream[e1.offset..e1.offset + e1.size] == left
      && e2.offset + e2.size == |stream| && stream[e2.offset..e2.offset + e2.size] == right
  {
    MPEntryRoundTrip(|left|, |right|);
    var stream := Concat(left, right);
    assert stream[0..|left|] == left;
    assert stream[|left|..|left| + |right|] == right;
  }
}

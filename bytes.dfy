/** Byte-level primitives of the codec: big-endian integers as Python's
    `int.to_bytes(4, byteorder="big")` writes them and `int.from_bytes`
    reads them back, and Python's clamping slice `b[lo:hi]`. */
module Bytes {

  type Byte = b: int | 0 <= b < 256

  /** 2^32: the first value that no longer fits in a 4-byte field. */
  const UINT32_LIMIT: nat := 0x1_0000_0000
  /** 2^31: the magnitude bound of a 4-byte two's-complement field. */
  const INT32_LIMIT: int := 0x8000_0000

  function Pow256(n: nat): (r: nat)
    ensures r >= 1
  {
    if n == 0 then 1 else 256 * Pow256(n - 1)
  }

  /** `int.from_bytes(s, byteorder="big")`: the unsigned value of any
      number of bytes, most significant first; the empty sequence is 0. */
  function BigEndian(s: seq<Byte>): (r: nat)
    ensures r < Pow256(|s|)
  {
    if s == [] then 0
    else
      var hi := BigEndian(s[..|s| - 1]);
      assert hi * 256 + s[|s| - 1] <= (Pow256(|s| - 1) - 1) * 256 + 255;
      hi * 256 + s[|s| - 1]
  }

  /** `int.from_bytes(s, byteorder="big", signed=True)`: two's complement
      over exactly the bytes given, so the sign is the top bit of the first. */
  function SignedBigEndian(s: seq<Byte>): (r: int)
    ensures r < 0 <==> |s| > 0 && s[0] >= 128
  {
    if |s| > 0 && s[0] >= 128 then
      BigEndian(s) - Pow256(|s|)
    else
      NonNegativeWhenTopBitClear(s);
      BigEndian(s)
  }

  lemma {:induction false} NonNegativeWhenTopBitClear(s: seq<Byte>)
    requires |s| > 0 ==> s[0] < 128
    ensures 2 * BigEndian(s) < Pow256(|s|)
  {
    if |s| > 1 {
      NonNegativeWhenTopBitClear(s[..|s| - 1]);
      assert s[..|s| - 1][0] == s[0];
    }
  }

  /** The four bytes of a big-endian field as one number. */
  lemma BigEndian4(s: seq<Byte>)
    requires |s| == 4
    ensures BigEndian(s) == s[0] as int * 0x100_0000 + s[1] as int * 0x1_0000 + s[2] as int * 0x100 + s[3]
  {
    var s3, s2, s1 := s[..3], s[..3][..2], s[..3][..2][..1];
    assert s1[..0] == [];
    assert BigEndian(s1) == s[0];
    assert BigEndian(s2) == s[0] as int * 0x100 + s[1];
    assert BigEndian(s3) == (s[0] as int * 0x100 + s[1]) * 0x100 + s[2];
  }

  /** `n.to_bytes(4, byteorder="big")`; Python raises OverflowError outside
      0 <= n < 2^32, which the precondition excludes. */
  function UInt32Bytes(n: nat): (r: seq<Byte>)
    requires n < UINT32_LIMIT
    ensures |r| == 4 && BigEndian(r) == n && U32At(r, 0) == n
  {
    var q1 := n / 0x100;
    var q2 := q1 / 0x100;
    var q3 := q2 / 0x100;
    var r: seq<Byte> := [q3, q2 % 0x100, q1 % 0x100, n % 0x100];
    BigEndian4(r);
    r
  }

  /** A value below 256 is three zero bytes and itself. */
  lemma UInt32BytesOfSmall(n: nat)
    requires n < 0x100
    ensures UInt32Bytes(n) == [0, 0, 0, n]
  {
    assert n / 0x100 == 0;
  }

  /** The 4-byte encoding is onto: every 4-byte field is the encoding of
      the value it reads as. */
  lemma UInt32BytesOfBigEndian(s: seq<Byte>)
    requires |s| == 4
    ensures BigEndian(s) < UINT32_LIMIT && UInt32Bytes(BigEndian(s)) == s
  {
    BigEndian4(s);
    var n := BigEndian(s);
    var q1 := s[0] as int * 0x1_0000 + s[1] as int * 0x100 + s[2];
    var q2 := s[0] as int * 0x100 + s[1];
    assert n == q1 * 0x100 + s[3];
    assert n / 0x100 == q1 && n % 0x100 == s[3];
    assert q1 == q2 * 0x100 + s[2];
    assert q1 / 0x100 == q2 && q1 % 0x100 == s[2];
    assert q2 / 0x100 == s[0] && q2 % 0x100 == s[1];
  }

  /** A signed value written in two's complement over four bytes. This is
      the inverse of the signed read; the source never writes one. */
  function Int32Bytes(v: int): (r: seq<Byte>)
    requires -INT32_LIMIT <= v < INT32_LIMIT
    ensures |r| == 4 && SignedBigEndian(r) == v && I32At(r, 0) == v
  {
    var r := UInt32Bytes(if v < 0 then v + UINT32_LIMIT else v);
    BigEndian4(r);
    assert Pow256(4) == UINT32_LIMIT;
    r
  }

  /** Python's `s[lo:hi]` for 0 <= lo: both bounds are clamped to the length
      and a slice that would run backwards is empty. */
  function Slice(s: seq<Byte>, lo: nat, hi: nat): (r: seq<Byte>)
    ensures |r| <= |s|
    ensures hi <= |s| && lo <= hi ==> r == s[lo..hi]
    ensures lo <= |s| <= hi ==> r == s[lo..]
    ensures |s| <= lo || hi <= lo ==> r == []
  {
    var l := if lo < |s| then lo else |s|;
    var h := if hi < |s| then hi else |s|;
    if h <= l then [] else s[l..h]
  }

  /** Reads the 4-byte big-endian unsigned field that starts at `pos`,
      written out byte by byte (FieldIsBigEndian ties it to BigEndian). */
  function U32At(buf: seq<Byte>, pos: nat): (r: nat)
    requires pos + 4 <= |buf|
    ensures r < UINT32_LIMIT
  {
    buf[pos] as int * 0x100_0000 + buf[pos + 1] as int * 0x1_0000 + buf[pos + 2] as int * 0x100 + buf[pos + 3]
  }

  /** Reads the 4-byte big-endian two's-complement field that starts at `pos`. */
  function I32At(buf: seq<Byte>, pos: nat): (r: int)
    requires pos + 4 <= |buf|
    ensures -INT32_LIMIT <= r < INT32_LIMIT
    ensures r < 0 <==> buf[pos] >= 128
  {
    if buf[pos] >= 128 then U32At(buf, pos) - UINT32_LIMIT else U32At(buf, pos)
  }

  /** The field readers agree with `int.from_bytes` on the four bytes. */
  lemma FieldIsBigEndian(buf: seq<Byte>, pos: nat)
    requires pos + 4 <= |buf|
    ensures U32At(buf, pos) == BigEndian(buf[pos..pos + 4])
    ensures I32At(buf, pos) == SignedBigEndian(buf[pos..pos + 4])
  {
    BigEndian4(buf[pos..pos + 4]);
    assert Pow256(4) == UINT32_LIMIT;
  }

  /** A field reads the same inside a buffer as on its own. */
  lemma FieldAt(buf: seq<Byte>, pos: nat, field: seq<Byte>)
    requires pos + 4 <= |buf| && buf[pos..pos + 4] == field
    ensures U32At(buf, pos) == U32At(field, 0)
    ensures I32At(buf, pos) == I32At(field, 0)
  {
    assert forall k :: 0 <= k < 4 ==> buf[pos + k] == field[k];
  }

  /** Placing a piece between any prefix and suffix leaves it readable at
      the prefix's length. */
  lemma SliceOfMiddle(pre: seq<Byte>, mid: seq<Byte>, post: seq<Byte>, i: nat, j: nat)
    requires i <= j <= |mid|
    ensures (pre + mid + post)[|pre| + i..|pre| + j] == mid[i..j]
  {
  }

  lemma U32AtOfMiddle(pre: seq<Byte>, mid: seq<Byte>, post: seq<Byte>, i: nat)
    requires i + 4 <= |mid|
    ensures U32At(pre + mid + post, |pre| + i) == U32At(mid, i)
    ensures I32At(pre + mid + post, |pre| + i) == I32At(mid, i)
  {
    SliceOfMiddle(pre, mid, post, i, i + 4);
    FieldAt(pre + mid + post, |pre| + i, mid[i..i + 4]);
    FieldAt(mid, i, mid[i..i + 4]);
  }

  /** A field reads the same when more bytes follow the buffer. */
  lemma FieldOfPrefix(buf: seq<Byte>, rest: seq<Byte>, pos: nat)
    requires pos + 4 <= |buf|
    ensures U32At(buf + rest, pos) == U32At(buf, pos)
    ensures I32At(buf + rest, pos) == I32At(buf, pos)
  {
    assert (buf + rest)[pos..pos + 4] == buf[pos..pos + 4];
    FieldAt(buf + rest, pos, buf[pos..pos + 4]);
    FieldAt(buf, pos, buf[pos..pos + 4]);
  }
}

/**
  A read-only view of an immutable byte buffer, the model of the
  `DataView` that `script.js` builds over the `ArrayBuffer` a `FileReader`
  produced.  Every read takes an explicit offset.  The unchecked readers
  demand that the read is in range; the `Get*` readers model
  `DataView.getUint16` / `getUint32`, which throw a `RangeError` (here:
  return `None`) when the read crosses the end of the buffer.
*/
module Bytes {
  import opened Results

  newtype byte = x: int | 0 <= x < 256

  const TWO16: nat := 0x1_0000
  const TWO32: nat := 0x1_0000_0000

  /** Big-endian unsigned 16-bit value of b[o], b[o + 1]. */
  function ReadU16BE(b: seq<byte>, o: nat): (v: nat)
    requires o + 2 <= |b|
    ensures v < TWO16
  {
    b[o] as nat * 0x100 + b[o + 1] as nat
  }

  /** Little-endian unsigned 16-bit value of b[o], b[o + 1]. */
  function ReadU16LE(b: seq<byte>, o: nat): (v: nat)
    requires o + 2 <= |b|
    ensures v < TWO16
  {
    b[o + 1] as nat * 0x100 + b[o] as nat
  }

  /** Big-endian unsigned 32-bit value of b[o..o + 4]. */
  function ReadU32BE(b: seq<byte>, o: nat): (v: nat)
    requires o + 4 <= |b|
    ensures v < TWO32
  {
    ReadU16BE(b, o) * TWO16 + ReadU16BE(b, o + 2)
  }

  /** Little-endian unsigned 32-bit value of b[o..o + 4]. */
  function ReadU32LE(b: seq<byte>, o: nat): (v: nat)
    requires o + 4 <= |b|
    ensures v < TWO32
  {
    ReadU16LE(b, o + 2) * TWO16 + ReadU16LE(b, o)
  }

  /** `DataView.getUint16(o, little)`: None when the two bytes are not all in the buffer. */
  function GetU16(b: seq<byte>, o: nat, little: bool): (r: Option<nat>)
    ensures r.Some? <==> o + 2 <= |b|
    ensures r.Some? ==> r.value < TWO16
    ensures r.Some? && little ==> r.value == ReadU16LE(b, o)
    ensures r.Some? && !little ==> r.value == ReadU16BE(b, o)
  {
    if o + 2 > |b| then None
    else if little then Some(ReadU16LE(b, o))
    else Some(ReadU16BE(b, o))
  }

  /** `DataView.getUint32(o, little)`: None when the four bytes are not all in the buffer. */
  function GetU32(b: seq<byte>, o: nat, little: bool): (r: Option<nat>)
    ensures r.Some? <==> o + 4 <= |b|
    ensures r.Some? ==> r.value < TWO32
    ensures r.Some? && little ==> r.value == ReadU32LE(b, o)
    ensures r.Some? && !little ==> r.value == ReadU32BE(b, o)
  {
    if o + 4 > |b| then None
    else if little then Some(ReadU32LE(b, o))
    else Some(ReadU32BE(b, o))
  }

  /** The bytes of v in big-endian order: the inverse of ReadU16BE. */
  function EncodeU16BE(v: nat): (s: seq<byte>)
    requires v < TWO16
    ensures |s| == 2
  {
    [(v / 0x100) as byte, (v % 0x100) as byte]
  }

  /** The bytes of v in little-endian order: the inverse of ReadU32LE. */
  function EncodeU32LE(v: nat): (s: seq<byte>)
    requires v < TWO32
    ensures |s| == 4
  {
    [(v % 0x100) as byte, (v / 0x100 % 0x100) as byte,
     (v / TWO16 % 0x100) as byte, (v / 0x100_0000) as byte]
  }

  /** Reading back an encoded 16-bit big-endian value, wherever it sits, gives the value. */
  lemma ReadEncodedU16BE(p: seq<byte>, v: nat, q: seq<byte>)
    requires v < TWO16
    ensures ReadU16BE(p + EncodeU16BE(v) + q, |p|) == v
  {
    var b := p + EncodeU16BE(v) + q;
    assert b[|p|] as nat == v / 0x100 && b[|p| + 1] as nat == v % 0x100;
  }

  /** Encoding the bytes a 16-bit big-endian read saw gives those bytes back. */
  lemma EncodeReadU16BE(b: seq<byte>, o: nat)
    requires o + 2 <= |b|
    ensures EncodeU16BE(ReadU16BE(b, o)) == b[o..o + 2]
  {
  }

  /** x is its quotient by 256 and its low byte. */
  lemma ByteParts(x: nat)
    ensures x == (x / 0x100) * 0x100 + x % 0x100 && x % 0x100 < 0x100
  {
  }

  /** Division by d is unique: the quotient and remainder of q * d + r, for r < d. */
  lemma DivUnique(v: nat, q: nat, r: nat, d: nat)
    requires d in {0x100, TWO16, 0x100_0000} && r < d && v == q * d + r
    ensures v / d == q && v % d == r
  {
    if d == 0x100 {
      assert v == q * 0x100 + r;
    } else if d == TWO16 {
      assert v == q * TWO16 + r;
    } else {
      assert v == q * 0x100_0000 + r;
    }
  }

  /** Reading back an encoded 32-bit little-endian value, wherever it sits, gives the value. */
  lemma ReadEncodedU32LE(p: seq<byte>, v: nat, q: seq<byte>)
    requires v < TWO32
    ensures ReadU32LE(p + EncodeU32LE(v) + q, |p|) == v
  {
    var q1 := v / 0x100;
    var q2 := q1 / 0x100;
    var q3 := q2 / 0x100;
    ByteParts(v);
    ByteParts(q1);
    ByteParts(q2);
    var r1 := q1 % 0x100;
    var r2 := q2 % 0x100;
    assert v == q3 * 0x100_0000 + (r2 * TWO16 + r1 * 0x100 + v % 0x100);
    DivUnique(v, q2, r1 * 0x100 + v % 0x100, TWO16);
    DivUnique(v, q3, r2 * TWO16 + r1 * 0x100 + v % 0x100, 0x100_0000);
    var b := p + EncodeU32LE(v) + q;
    var o := |p|;
    assert b[o] as nat == v % 0x100 && b[o + 1] as nat == r1;
    assert b[o + 2] as nat == r2 && b[o + 3] as nat == q3;
  }

  /** Encoding the bytes a 32-bit little-endian read saw gives those bytes back. */
  lemma EncodeReadU32LE(b: seq<byte>, o: nat)
    requires o + 4 <= |b|
    ensures EncodeU32LE(ReadU32LE(b, o)) == b[o..o + 4]
  {
    var b0, b1, b2, b3 := b[o] as nat, b[o + 1] as nat, b[o + 2] as nat, b[o + 3] as nat;
    var v := ReadU32LE(b, o);
    assert v == b3 * 0x100_0000 + b2 * TWO16 + b1 * 0x100 + b0;
    DivUnique(v, b3 * TWO16 + b2 * 0x100 + b1, b0, 0x100);
    DivUnique(v / 0x100, b3 * 0x100 + b2, b1, 0x100);
    DivUnique(v, b3 * 0x100 + b2, b1 * 0x100 + b0, TWO16);
    DivUnique(v / TWO16, b3, b2, 0x100);
    DivUnique(v, b3, b2 * TWO16 + b1 * 0x100 + b0, 0x100_0000);
    assert b[o..o + 4] == [b[o], b[o + 1], b[o + 2], b[o + 3]];
  }
}

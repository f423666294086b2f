/**
 * Bytes and the little-endian integer layouts that `BitConverter` and
 * `BinaryWriter` use on the x86 targets of the application.
 */
module Bytes {

  /** One byte of a BLE notification or of a packed struct. */
  newtype byte = b: int | 0 <= b < 0x100

  type U8 = x: int | 0 <= x < 0x100
  type U16 = x: int | 0 <= x < 0x1_0000
  type U32 = x: int | 0 <= x < 0x1_0000_0000
  type U64 = x: int | 0 <= x < 0x1_0000_0000_0000_0000
  type I16 = x: int | -0x8000 <= x < 0x8000

  /** `BitConverter.ToUInt16(s, off)`. */
  function U16At(s: seq<byte>, off: nat): (r: U16)
    requires off + 2 <= |s|
  {
    s[off] as int + 0x100 * s[off + 1] as int
  }

  /** `BitConverter.ToUInt32(s, off)`. */
  function U32At(s: seq<byte>, off: nat): (r: U32)
    requires off + 4 <= |s|
  {
    U16At(s, off) + 0x1_0000 * U16At(s, off + 2)
  }

  /** `BitConverter.ToInt16(s, off)`: two's complement of the unsigned value. */
  function I16At(s: seq<byte>, off: nat): (r: I16)
    requires off + 2 <= |s|
  {
    var u := U16At(s, off);
    if u < 0x8000 then u else u - 0x1_0000
  }

  /** `BinaryWriter.Write(ushort)`: low byte first. */
  function LE16(v: U16): (r: seq<byte>)
  {
    [(v % 0x100) as byte, (v / 0x100) as byte]
  }

  /** `BinaryWriter.Write(uint)`: the low half, then the high half. */
  function LE32(v: U32): (r: seq<byte>)
  {
    LE16(v % 0x1_0000) + LE16(v / 0x1_0000)
  }

  /** The two bytes of a `short` as the firmware sends them. */
  function LEI16(v: I16): (r: seq<byte>)
  {
    LE16(if v < 0 then v + 0x1_0000 else v)
  }

  lemma U16AtLE16(s: seq<byte>, off: nat, v: U16)
    requires off + 2 <= |s| && s[off..off + 2] == LE16(v)
    ensures U16At(s, off) == v
  {
    assert s[off] == LE16(v)[0] && s[off + 1] == LE16(v)[1];
  }

  lemma U32AtLE32(s: seq<byte>, off: nat, v: U32)
    requires off + 4 <= |s| && s[off..off + 4] == LE32(v)
    ensures U32At(s, off) == v
  {
    assert s[off..off + 2] == LE32(v)[..2] == LE16(v % 0x1_0000);
    assert s[off + 2..off + 4] == LE32(v)[2..] == LE16(v / 0x1_0000);
    U16AtLE16(s, off, v % 0x1_0000);
    U16AtLE16(s, off + 2, v / 0x1_0000);
  }

  lemma I16AtLEI16(s: seq<byte>, off: nat, v: I16)
    requires off + 2 <= |s| && s[off..off + 2] == LEI16(v)
    ensures I16At(s, off) == v
  {
    U16AtLE16(s, off, if v < 0 then v + 0x1_0000 else v);
  }

  /** Encoding after decoding gives the bytes back: the layout wastes no bit. */
  lemma LE16U16At(s: seq<byte>, off: nat)
    requires off + 2 <= |s|
    ensures LE16(U16At(s, off)) == s[off..off + 2]
  {
  }

  lemma LE32U32At(s: seq<byte>, off: nat)
    requires off + 4 <= |s|
    ensures LE32(U32At(s, off)) == s[off..off + 4]
  {
    var lo, hi := U16At(s, off), U16At(s, off + 2);
    assert U32At(s, off) % 0x1_0000 == lo && U32At(s, off) / 0x1_0000 == hi;
    LE16U16At(s, off);
    LE16U16At(s, off + 2);
  }
}

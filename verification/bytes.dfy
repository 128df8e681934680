/** Byte-level helpers for the binary `.cbc` record: little-endian signed
    32-bit integers as Python's `struct` packs them with format `<i`. */
module Bytes {
  import opened Wrappers

  /** One byte, as the integer value Python's `bytes` holds. */
  type Byte = b: int | 0 <= b < 0x100

  /** Four bytes: one packed 32-bit slot. */
  type Word = s: seq<Byte> | |s| == 4 witness [0, 0, 0, 0]

  const Int32Min: int := -0x8000_0000
  const Int32Max: int := 0x7FFF_FFFF

  predicate InInt32(v: int) {
    Int32Min <= v <= Int32Max
  }

  /** `struct.pack('<i', v)`; `None` where `struct` raises `struct.error`. */
  function PackInt32(v: int): (r: Option<Word>)
    ensures r.Some? <==> InInt32(v)
  {
    if !InInt32(v) then None
    else
      var u := if v < 0 then v + 0x1_0000_0000 else v;
      Some([(u % 0x100) as Byte, (u / 0x100 % 0x100) as Byte,
            (u / 0x1_0000 % 0x100) as Byte, (u / 0x100_0000) as Byte])
  }

  /** `struct.unpack('<i', w)[0]`. */
  function UnpackInt32(w: Word): (v: int)
    ensures InInt32(v)
  {
    var u := w[0] as int + 0x100 * (w[1] as int) + 0x1_0000 * (w[2] as int) + 0x100_0000 * (w[3] as int);
    if u >= 0x8000_0000 then u - 0x1_0000_0000 else u
  }

  lemma ByteDigits(u: nat)
    requires u < 0x1_0000_0000
    ensures u == u % 0x100 + 0x100 * (u / 0x100 % 0x100) + 0x1_0000 * (u / 0x1_0000 % 0x100) + 0x100_0000 * (u / 0x100_0000)
  {
    var a := u / 0x100;
    var b := a / 0x100;
    var c := b / 0x100;
    assert u == u % 0x100 + 0x100 * a;
    assert a == a % 0x100 + 0x100 * b;
    assert b == b % 0x100 + 0x100 * c;
    assert b == u / 0x1_0000;
    assert c == u / 0x100_0000;
  }

  /** Unpacking a packed slot gives the integer back. */
  lemma PackUnpack(v: int)
    requires InInt32(v)
    ensures UnpackInt32(PackInt32(v).value) == v
  {
    var u := if v < 0 then v + 0x1_0000_0000 else v;
    ByteDigits(u);
    var w := PackInt32(v).value;
    assert w == [(u % 0x100) as Byte, (u / 0x100 % 0x100) as Byte,
                 (u / 0x1_0000 % 0x100) as Byte, (u / 0x100_0000) as Byte];
    var sum := w[0] as int + 0x100 * (w[1] as int) + 0x1_0000 * (w[2] as int) + 0x100_0000 * (w[3] as int);
    assert sum == u;
  }

  // ---------------------------------------------------------------------
  // ASCII text as bytes

  predicate IsAscii(s: string)
  {
    forall i :: 0 <= i < |s| ==> s[i] as int < 128
  }

  /** `bytes(s, 'utf-8')` for an ASCII string: one byte per character. */
  function AsciiBytes(s: string): (b: seq<Byte>)
    requires IsAscii(s)
    ensures |b| == |s|
    ensures forall i :: 0 <= i < |s| ==> b[i] as int == s[i] as int
  {
    seq(|s|, i requires 0 <= i < |s| => ByteOf(s[i] as int))
  }

  function ByteOf(n: int): (b: Byte)
    requires 0 <= n < 256
    ensures b as int == n
  {
    n as Byte
  }

  /** Bytes read back as characters, one per byte. */
  function AsciiString(b: seq<Byte>): (s: string)
    ensures |s| == |b|
  {
    seq(|b|, i requires 0 <= i < |b| => b[i] as int as char)
  }

  /** Decoding the bytes as ASCII gives the string back. */
  lemma AsciiRoundTrip(s: string)
    requires IsAscii(s)
    ensures AsciiString(AsciiBytes(s)) == s
  {
    var t := AsciiString(AsciiBytes(s));
    forall i | 0 <= i < |s|
      ensures t[i] == s[i]
    {
      assert AsciiBytes(s)[i] as int == s[i] as int;
    }
  }
}

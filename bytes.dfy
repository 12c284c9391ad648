/** Bytes and the big-endian 32-bit integers that the wire format is made of. */
module Bytes {

  /** One octet, as held by a Uint8Array element or a Go `byte`. */
  newtype byte = x: int | 0 <= x < 256

  const TWO_32: nat := 0x1_0000_0000

  predicate IsU32(v: int) {
    0 <= v < TWO_32
  }

  /** DataView.getUint32(off, false): the big-endian unsigned 32-bit integer at s[off..off+4]. */
  function GetU32(s: seq<byte>, off: nat): (v: nat)
    requires off + 4 <= |s|
    ensures IsU32(v)
  {
    s[off] as nat * 0x100_0000 + s[off + 1] as nat * 0x1_0000 + s[off + 2] as nat * 0x100 + s[off + 3] as nat
  }

  /** The four bytes that DataView.setUint32(off, v, false) stores: v is first reduced
      modulo 2^32 (ToUint32), then written most significant byte first. */
  function U32Bytes(v: int): (r: seq<byte>)
    ensures |r| == 4
  {
    var w := v % TWO_32;
    [(w / 0x100_0000) as byte, (w / 0x1_0000 % 0x100) as byte, (w / 0x100 % 0x100) as byte, (w % 0x100) as byte]
  }

  /** Reading back what setUint32 wrote gives the value modulo 2^32. */
  lemma GetU32OfU32Bytes(v: int, prefix: seq<byte>, suffix: seq<byte>)
    ensures GetU32(prefix + U32Bytes(v) + suffix, |prefix|) == v % TWO_32
  {
    var s := prefix + U32Bytes(v) + suffix;
    var w := v % TWO_32;
    assert s[|prefix|..|prefix| + 4] == U32Bytes(v);
    Recompose(w);
  }

  /** A 32-bit value is the sum of its four bytes at their weights. */
  lemma Recompose(w: int)
    requires 0 <= w < TWO_32
    ensures w == (w / 0x100_0000) * 0x100_0000 + (w / 0x1_0000 % 0x100) * 0x1_0000 + (w / 0x100 % 0x100) * 0x100 + w % 0x100
  {
    var hi := w / 0x1_0000;
    var lo := w % 0x1_0000;
    assert w == hi * 0x1_0000 + lo;
    assert hi == (w / 0x100_0000) * 0x100 + hi % 0x100 by {
      assert w / 0x100_0000 == hi / 0x100;
    }
    assert lo == (w / 0x100 % 0x100) * 0x100 + w % 0x100 by {
      assert w / 0x100 == hi * 0x100 + lo / 0x100;
      assert w % 0x100 == lo % 0x100;
    }
  }

  /** The bytes of a value built from four bytes are those bytes. */
  lemma Digits(v: int, a: int, b: int, c: int, d: int)
    requires 0 <= a < 0x100 && 0 <= b < 0x100 && 0 <= c < 0x100 && 0 <= d < 0x100
    requires v == a * 0x100_0000 + b * 0x1_0000 + c * 0x100 + d
    ensures v % TWO_32 == v
    ensures v / 0x100_0000 == a && v / 0x1_0000 % 0x100 == b && v / 0x100 % 0x100 == c && v % 0x100 == d
  {
    assert v / 0x1_0000 == a * 0x100 + b;
    assert v / 0x100 == a * 0x1_0000 + b * 0x100 + c;
  }

  /** Writing back what getUint32 read reproduces the four bytes. */
  lemma U32BytesOfGetU32(s: seq<byte>, off: nat)
    requires off + 4 <= |s|
    ensures U32Bytes(GetU32(s, off)) == s[off..off + 4]
  {
    var v := GetU32(s, off);
    Digits(v, s[off] as int, s[off + 1] as int, s[off + 2] as int, s[off + 3] as int);
    var r := U32Bytes(v);
    assert r == [(v / 0x100_0000) as byte, (v / 0x1_0000 % 0x100) as byte, (v / 0x100 % 0x100) as byte, (v % 0x100) as byte];
  }
}

/** Bytes, 32-bit words, and the byte order on the wire (xdrpp/endian.h). */
module Bytes {
  type Byte = b: int | 0 <= b < 0x100
  type Word = w: int | 0 <= w < 0x1_0000_0000

  /** The digits of the word with the given bytes, most significant first. */
  lemma JoinDigits(a: Byte, b: Byte, c: Byte, d: Byte)
    ensures var w := a * 0x100_0000 + b * 0x1_0000 + c * 0x100 + d;
      && 0 <= w < 0x1_0000_0000
      && w / 0x100_0000 == a && w / 0x1_0000 % 0x100 == b && w / 0x100 % 0x100 == c && w % 0x100 == d
  {
    var w := a * 0x100_0000 + b * 0x1_0000 + c * 0x100 + d;
    assert w / 0x100 == a as int * 0x1_0000 + b as int * 0x100 + c;
    assert w / 0x1_0000 == a as int * 0x100 + b;
  }

  lemma DigitsJoin(w: Word)
    ensures w / 0x100_0000 * 0x100_0000 + w / 0x1_0000 % 0x100 * 0x1_0000 + w / 0x100 % 0x100 * 0x100 + w % 0x100 == w
  {
    assert w / 0x1_0000 == w / 0x100 / 0x100;
    assert w / 0x100_0000 == w / 0x1_0000 / 0x100;
  }

  /** A word as the four bytes of the wire, most significant first. */
  function Be32(w: Word): (s: seq<Byte>)
    ensures |s| == 4
  {
    [w / 0x100_0000, w / 0x1_0000 % 0x100, w / 0x100 % 0x100, w % 0x100]
  }

  function FromBe32(s: seq<Byte>): Word
    requires |s| == 4
  {
    JoinDigits(s[0], s[1], s[2], s[3]);
    s[0] as int * 0x100_0000 + s[1] as int * 0x1_0000 + s[2] as int * 0x100 + s[3]
  }

  lemma FromBe32OfBe32(w: Word)
    ensures FromBe32(Be32(w)) == w
  {
    DigitsJoin(w);
  }

  lemma Be32OfFromBe32(s: seq<Byte>)
    requires |s| == 4
    ensures Be32(FromBe32(s)) == s
  {
    JoinDigits(s[0], s[1], s[2], s[3]);
  }

  /** Four bytes of memory as a little-endian machine loads them. */
  function FromLe32(s: seq<Byte>): Word
    requires |s| == 4
  {
    JoinDigits(s[3], s[2], s[1], s[0]);
    s[3] as int * 0x100_0000 + s[2] as int * 0x1_0000 + s[1] as int * 0x100 + s[0]
  }

  /** swap32; its four shifted and masked fields do not overlap, so they add up. */
  function Swap32(v: Word): Word {
    JoinDigits(v % 0x100, v / 0x100 % 0x100, v / 0x1_0000 % 0x100, v / 0x100_0000);
    v % 0x100 * 0x100_0000 + v / 0x100 % 0x100 * 0x1_0000 + v / 0x1_0000 % 0x100 * 0x100 + v / 0x100_0000
  }

  /** On a little-endian machine a swapped load reads the wire order. */
  lemma SwappedLoad(s: seq<Byte>)
    requires |s| == 4
    ensures Swap32(FromLe32(s)) == FromBe32(s)
    ensures Swap32(FromBe32(s)) == FromLe32(s)
  {
    JoinDigits(s[0], s[1], s[2], s[3]);
    JoinDigits(s[3], s[2], s[1], s[0]);
  }

  lemma Swap32Involution(v: Word)
    ensures Swap32(Swap32(v)) == v
  {
    DigitsJoin(v);
    JoinDigits(v % 0x100, v / 0x100 % 0x100, v / 0x1_0000 % 0x100, v / 0x100_0000);
  }
}

/**
 What encodings look like on the wire, told over their bytes as section 4 of RFC 4506
 does: numbers most significant byte first, data as it is and padded with zeros, parts
 one after the other (xdrpp/marshal.h, xdrpp/types.h).
 */
module WireForm {
  import opened Bytes
  import opened Sequences
  import opened Xdr
  import opened Codec

  /** The number with these base-256 digits, most significant first. */
  function Number(s: seq<Byte>): nat {
    if s == [] then 0 else Number(s[..|s| - 1]) * 0x100 + s[|s| - 1]
  }

  lemma {:induction false} NumberSnoc(s: seq<Byte>, b: Byte)
    ensures Number(s + [b]) == Number(s) * 0x100 + b
  {
    assert (s + [b])[..|s|] == s;
  }

  /** The number of four digits behind others. */
  lemma {:induction false} NumberOfFour(s: seq<Byte>, a: Byte, b: Byte, c: Byte, d: Byte)
    ensures Number(s + [a, b, c, d]) == Number(s) * 0x1_0000_0000 + a * 0x100_0000 + b * 0x1_0000 + c * 0x100 + d
  {
    NumberSnoc(s, a);
    NumberSnoc(s + [a], b);
    NumberSnoc(s + [a] + [b], c);
    NumberSnoc(s + [a] + [b] + [c], d);
    assert s + [a, b, c, d] == s + [a] + [b] + [c] + [d];
  }

  lemma {:induction false} NumberOfWord(s: seq<Byte>, w: Word)
    ensures Number(s + Be32(w)) == Number(s) * 0x1_0000_0000 + w
  {
    DigitsJoin(w);
    var b := Be32(w);
    NumberOfFour(s, b[0], b[1], b[2], b[3]);
    assert b == [b[0], b[1], b[2], b[3]];
  }

  lemma WordNumber(w: Word)
    ensures Number(Be32(w)) == w
  {
    NumberOfWord([], w);
    assert [] + Be32(w) == Be32(w);
  }

  lemma NumberWord(s: seq<Byte>)
    requires |s| == 4
    ensures FromBe32(s) == Number(s)
  {
    Be32OfFromBe32(s);
    WordNumber(FromBe32(s));
  }

  /** A little-endian machine loads the number with the bytes in the opposite order. */
  lemma LittleEndianNumber(s: seq<Byte>)
    requires |s| == 4
    ensures FromLe32(s) == Number([s[3], s[2], s[1], s[0]])
  {
    NumberWord([s[3], s[2], s[1], s[0]]);
  }

  // ----- numbers -------------------------------------------------------------------------

  /** A 32-bit number is written as its four bytes, a 64-bit one as its eight. */
  lemma {:induction false} NumbersOnTheWire(defs: seq<Type>, float: bool, hi: Word, lo: Word)
    ensures var s := Encode(defs, Int(float), VInt(lo)); |s| == 4 && Number(s) == lo
    ensures var s := Encode(defs, Hyper(float), VHyper(hi, lo)); |s| == 8 && Number(s) == hi * 0x1_0000_0000 + lo
  {
    WordNumber(lo);
    WordNumber(hi);
    NumberOfWord(Be32(hi), lo);
  }

  /** A bool is written as the number 0 or 1. */
  lemma BoolsOnTheWire(defs: seq<Type>, b: bool)
    ensures var s := Encode(defs, Bool, VBool(b)); |s| == 4 && Number(s) == if b then 1 else 0
  {
    WordNumber(if b then 1 else 0);
  }

  /** A bool is read as true from any number but 0. */
  lemma {:induction false} BoolRead(defs: seq<Type>, limit: nat, s: seq<Byte>)
    requires WellFormed(defs)
    ensures Decode(defs, LIBRARY, limit, Bool, s) ==
      if |s| < 4 then Fail(Overflow) else Done(VBool(Number(s[..4]) != 0), s[4..])
  {
    if |s| >= 4 {
      NumberWord(s[..4]);
    }
  }

  /** Any four bytes are read as the 32-bit number they are, ... */
  lemma {:induction false} WordRead(defs: seq<Type>, rules: Rules, limit: nat, float: bool, s: seq<Byte>)
    requires WellFormed(defs)
    ensures var r := Decode(defs, rules, limit, Int(float), s);
      if |s| < 4 then r == Fail(Overflow)
      else r.Done? && r.value.VInt? && r.value.w == Number(s[..4]) && r.rest == s[4..]
  {
    if |s| >= 4 {
      NumberWord(s[..4]);
    }
  }

  lemma EightBytes(s: seq<Byte>)
    requires 8 <= |s|
    ensures s[..4] + s[4..8] == s[..8]
    ensures s[4..][..4] == s[4..8] && s[4..][4..] == s[8..]
  {
  }

  /** ... and any eight as the 64-bit number. */
  lemma {:induction false} HyperRead(defs: seq<Type>, rules: Rules, limit: nat, float: bool, s: seq<Byte>)
    requires WellFormed(defs)
    ensures var r := Decode(defs, rules, limit, Hyper(float), s);
      if |s| < 8 then r == Fail(Overflow)
      else r.Done? && r.value.VHyper? && r.value.hi * 0x1_0000_0000 + r.value.lo == Number(s[..8]) && r.rest == s[8..]
  {
    if |s| >= 8 {
      var a, b := s[..4], s[4..8];
      NumberWord(a);
      NumberWord(b);
      EightBytes(s);
      Be32OfFromBe32(b);
      NumberOfWord(a, FromBe32(b));
    }
  }

  // ----- data -----------------------------------------------------------------------------

  /** `s` is `b` and fewer than four zeros, up to a multiple of four. */
  predicate IsPadded(s: seq<Byte>, b: seq<Byte>) {
    && |b| <= |s| < |b| + 4 && |s| % 4 == 0 && s[..|b|] == b
    && forall i :: |b| <= i < |s| ==> s[i] == 0
  }

  lemma BytesArePadded(b: seq<Byte>)
    ensures IsPadded(EncodeBytes(b), b)
  {
  }

  /** Opaque data of a fixed length is written as it is, with its padding; of a variable
      length, behind its length. */
  lemma {:induction false} DataOnTheWire(defs: seq<Type>, max: Word, b: seq<Byte>)
    ensures IsPadded(Encode(defs, Opaque(|b|), VBytes(b)), b)
    ensures |b| < 0x1_0000_0000 ==>
      var s := Encode(defs, Type.Bytes(max), VBytes(b));
      4 <= |s| && Number(s[..4]) == |b| && IsPadded(s[4..], b)
  {
    BytesArePadded(b);
    if |b| < 0x1_0000_0000 {
      WordNumber(|b|);
      var s := Encode(defs, Type.Bytes(max), VBytes(b));
      assert s == Be32(|b|) + EncodeBytes(b);
      assert s[..4] == Be32(|b|) && s[4..] == EncodeBytes(b);
    }
  }

  // ----- parts ----------------------------------------------------------------------------

  /** The encodings of values of one type, one after the other. */
  function Each(defs: seq<Type>, t: Type, vs: seq<Value>): seq<Byte> {
    if vs == [] then [] else Encode(defs, t, vs[0]) + Each(defs, t, vs[1..])
  }

  /** The encodings of values, each of its type, one after the other. */
  function InOrder(defs: seq<Type>, ts: seq<Type>, vs: seq<Value>): seq<Byte>
    requires |ts| == |vs|
  {
    if vs == [] then [] else Encode(defs, ts[0], vs[0]) + InOrder(defs, ts[1..], vs[1..])
  }

  lemma {:induction false} PartsInOrder(defs: seq<Type>, ts: seq<Type>, vs: seq<Value>, i: nat)
    requires |ts| == |vs| && i <= |vs|
    ensures EncodeFrom(defs, Struct(ts), VSeq(vs), i) == InOrder(defs, ts[i..], vs[i..])
    decreases |vs| - i
  {
    if i < |vs| {
      assert ts[i..][1..] == ts[i + 1..] && vs[i..][1..] == vs[i + 1..];
      PartsInOrder(defs, ts, vs, i + 1);
    }
  }

  lemma {:induction false} PartsEach(defs: seq<Type>, u: Type, vs: seq<Value>, i: nat)
    requires (u.Array? || u.Vector? || u.Pointer?) && i <= |vs|
    ensures EncodeFrom(defs, u, VSeq(vs), i) == Each(defs, u.elem, vs[i..])
    decreases |vs| - i
  {
    if i < |vs| {
      assert vs[i..][1..] == vs[i + 1..];
      PartsEach(defs, u, vs, i + 1);
    }
  }

  /** A struct is written as its fields in order. */
  lemma {:induction false} StructsOnTheWire(defs: seq<Type>, ts: seq<Type>, vs: seq<Value>)
    requires |ts| == |vs|
    ensures Encode(defs, Struct(ts), VSeq(vs)) == InOrder(defs, ts, vs)
  {
    PartsInOrder(defs, ts, vs, 0);
    assert ts[0..] == ts && vs[0..] == vs;
    assert [] + InOrder(defs, ts, vs) == InOrder(defs, ts, vs);
  }

  /** An array is written as its elements in order; a vector as their number and then the
      elements; a pointer as 1 and what it points to, or as 0. */
  lemma {:induction false} ContainersOnTheWire(defs: seq<Type>, t: Type, max: Word, vs: seq<Value>)
    ensures Encode(defs, Array(t, |vs|), VSeq(vs)) == Each(defs, t, vs)
    ensures |vs| < 0x1_0000_0000 ==>
      var s := Encode(defs, Vector(t, max), VSeq(vs)); 4 <= |s| && Number(s[..4]) == |vs| && s[4..] == Each(defs, t, vs)
    ensures |vs| <= 1 ==>
      var s := Encode(defs, Pointer(t), VSeq(vs)); 4 <= |s| && Number(s[..4]) == |vs| && s[4..] == Each(defs, t, vs)
  {
    ArraysOnTheWire(defs, t, vs);
    if |vs| < 0x1_0000_0000 {
      CountedOnTheWire(defs, Vector(t, max), vs);
    }
    if |vs| <= 1 {
      CountedOnTheWire(defs, Pointer(t), vs);
    }
  }

  lemma {:induction false} ArraysOnTheWire(defs: seq<Type>, t: Type, vs: seq<Value>)
    ensures Encode(defs, Array(t, |vs|), VSeq(vs)) == Each(defs, t, vs)
  {
    PartsEach(defs, Array(t, |vs|), vs, 0);
    assert vs[0..] == vs;
    assert [] + Each(defs, t, vs) == Each(defs, t, vs);
  }

  lemma {:induction false} CountedOnTheWire(defs: seq<Type>, u: Type, vs: seq<Value>)
    requires (u.Vector? || u.Pointer?) && |vs| < 0x1_0000_0000
    ensures var s := Encode(defs, u, VSeq(vs)); 4 <= |s| && Number(s[..4]) == |vs| && s[4..] == Each(defs, u.elem, vs)
  {
    PartsEach(defs, u, vs, 0);
    assert vs[0..] == vs;
    WordNumber(|vs|);
    HeadAndParts(Be32(|vs|), Each(defs, u.elem, vs));
  }

  lemma HeadAndParts(head: seq<Byte>, parts: seq<Byte>)
    requires |head| == 4
    ensures (head + parts)[..4] == head && (head + parts)[4..] == parts
  {
  }

  /** A union is written as its tag and then the field that is live, if there is one. */
  lemma {:induction false} UnionsOnTheWire(defs: seq<Type>, boolTag: bool, arms: seq<Arm>, tag: Word, v: Value)
    ensures var s := Encode(defs, Union(boolTag, arms), VUnion(tag, []));
      4 == |s| && Number(s) == tag
    ensures Field(arms, tag).Some? ==>
      var s := Encode(defs, Union(boolTag, arms), VUnion(tag, [v]));
      4 <= |s| && Number(s[..4]) == tag && s[4..] == Encode(defs, Field(arms, tag).value, v)
  {
    WordNumber(tag);
    var u := Union(boolTag, arms);
    assert Encode(defs, u, VUnion(tag, [])) == Be32(tag) + [] == Be32(tag);
    if Field(arms, tag).Some? {
      var w := VUnion(tag, [v]);
      assert EncodeFrom(defs, u, w, 1) == [];
      assert EncodeFrom(defs, u, w, 0) == Encode(defs, Field(arms, tag).value, v) + [] == Encode(defs, Field(arms, tag).value, v);
      HeadAndParts(Be32(tag), EncodeFrom(defs, u, w, 0));
    }
  }
}

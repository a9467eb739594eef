/** What the decoder refuses, and as what (xdrpp/marshal.h, xdrpp/types.h). */
module Truncation {
  import opened Bytes
  import opened Sequences
  import opened Xdr
  import opened Codec
  import opened RoundTrip
  import opened WireForm

  // ----- wrong padding, lengths and tags ----------------------------------------------------

  /** Opaque data is taken with its padding, which has to be zeros. */
  lemma {:induction false} PaddingIsChecked(defs: seq<Type>, limit: nat, n: nat, s: seq<Byte>)
    requires WellFormed(defs)
    ensures var r := Decode(defs, LIBRARY, limit, Opaque(n), s);
      if |s| < Padded(n) then r == Fail(Overflow)
      else if exists i :: n <= i < Padded(n) && s[i] != 0 then r == Fail(ShouldBeZero)
      else r == Done(VBytes(s[..n]), s[Padded(n)..])
  {
    if |s| >= Padded(n) {
      var pad := s[n..Padded(n)];
      assert forall i :: n <= i < Padded(n) ==> s[i] == pad[i - n];
      if exists i :: n <= i < Padded(n) && s[i] != 0 {
        var i :| n <= i < Padded(n) && s[i] != 0;
        assert pad[i - n] != Zeros(Padded(n) - n)[i - n];
      }
    }
  }

  /** A length over its maximum, a pointer's flag over 1 and a tag without an arm are
      refused whatever follows. */
  lemma {:induction false} HeadsAreChecked(defs: seq<Type>, limit: nat, u: Type, s: seq<Byte>)
    requires WellFormed(defs) && Closed(u, |defs|) && limit > 0 && 4 <= |s|
    ensures var n, r := Number(s[..4]), Decode(defs, LIBRARY, limit, u, s);
      && (u.Vector? && n > u.max ==> r == Fail(Overflow))
      && (u.Pointer? && n > 1 ==> r == Fail(Overflow))
      && (u.Bytes? && n > u.max ==> r == Fail(Overflow))
      && (u.Union? && !u.boolTag && (forall j :: 0 <= j < |u.arms| ==> n !in u.arms[j].labels && !u.arms[j].isDefault) ==>
            r == Fail(BadDiscriminant))
  {
    NumberWord(s[..4]);
    if u.Union? {
      PickIs(u.arms, FromBe32(s[..4]));
    }
  }

  /** No class or container is decoded without a level of stack left for it. */
  lemma {:induction false} StackIsChecked(defs: seq<Type>, t: Type, s: seq<Byte>)
    requires WellFormed(defs) && Closed(t, |defs|) && Resolve(defs, t).Composite()
    ensures Decode(defs, LIBRARY, 0, t, s) == Fail(StackOverflow)
  {
  }

  // ----- truncated input ---------------------------------------------------------------------

  lemma Cut(a: seq<Byte>, b: seq<Byte>, k: nat)
    requires k <= |a| + |b|
    ensures (a + b)[..k] == if k <= |a| then a[..k] else a + b[..k - |a|]
  {
  }

  lemma {:induction false} LeafTruncated(defs: seq<Type>, rules: Rules, limit: nat, t: Type, v: Value, k: nat)
    requires WellFormed(defs) && Closed(t, |defs|) && !Resolve(defs, t).Composite()
    requires Sound(defs, t, v) && Fits(defs, rules, t, v) && k < |Encode(defs, t, v)|
    ensures Decode(defs, rules, limit, t, Encode(defs, t, v)[..k]) == Fail(Overflow)
  {
    var u := Resolve(defs, t);
    if u.Bytes? {
      BytesTruncated(rules, u, v.bytes, k);
    }
  }

  lemma {:induction false} BytesTruncated(rules: Rules, u: Type, b: seq<Byte>, k: nat)
    requires u.Bytes? && |b| < 0x1_0000_0000 && (rules.maxima ==> |b| <= u.max) && k < 4 + Padded(|b|)
    ensures DecodeLeaf(rules, u, (Be32(|b|) + EncodeBytes(b))[..k]) == Fail(Overflow)
  {
    Cut(Be32(|b|), EncodeBytes(b), k);
    if k >= 4 {
      var s := (Be32(|b|) + EncodeBytes(b))[..k];
      assert s[..4] == Be32(|b|);
      FromBe32OfBe32(|b|);
    }
  }

  /** The parts from `i` on, cut off. */
  lemma {:induction false} PartsTruncated(defs: seq<Type>, rules: Rules, limit: nat, u: Type, v: Value, i: nat, k: nat)
    requires Whole(defs, u, v) && i <= |v.Parts()|
    requires FitsFrom(defs, rules, u, v, i) && DepthFrom(defs, u, v, i) <= limit && k < |EncodeFrom(defs, u, v, i)|
    ensures DecodeParts(defs, rules, limit, u, Head(u, v), i, EncodeFrom(defs, u, v, i)[..k]) == Fail(Overflow)
    decreases v, 0, |v.Parts()| - i
  {
    var p, a, tail := Part(u, Head(u, v), i), v.Parts()[i], EncodeFrom(defs, u, v, i + 1);
    PartRefers(u, Head(u, v), i, |defs|);
    FitsStep(defs, rules, u, v, i);
    assert Sound(defs, p, a);
    Cut(Encode(defs, p, a), tail, k);
    if k < |Encode(defs, p, a)| {
      Truncated(defs, rules, limit, p, a, k);
    } else {
      var j := k - |Encode(defs, p, a)|;
      CutBehind(Encode(defs, p, a), tail, k);
      DecodeOfEncode(defs, rules, limit, p, a, tail[..j]);
      PartsTruncated(defs, rules, limit, u, v, i + 1, j);
    }
  }

  lemma CutBehind(a: seq<Byte>, b: seq<Byte>, k: nat)
    requires |a| <= k <= |a| + |b|
    ensures (a + b)[..k] == a + b[..k - |a|]
  {
  }

  /** From the parts to the whole. */
  lemma {:induction false} NodeTruncated(defs: seq<Type>, rules: Rules, limit: nat, t: Type, v: Value, k: nat)
    requires Compound(defs, t, v) && limit > 0 && HeadFits(rules, Resolve(defs, t), v) && k < |Encode(defs, t, v)|
    requires var u := Resolve(defs, t); var n := |EncodeHead(u, Head(u, v))|;
      && Whole(defs, u, v)
      && (n <= k ==> DecodeParts(defs, rules, limit - 1, u, Head(u, v), 0, EncodeFrom(defs, u, v, 0)[..k - n]) == Fail(Overflow))
    ensures Decode(defs, rules, limit, t, Encode(defs, t, v)[..k]) == Fail(Overflow)
  {
    var u := Resolve(defs, t);
    var head, tail := EncodeHead(u, Head(u, v)), EncodeFrom(defs, u, v, 0);
    SoundNode(defs, t, v);
    Cut(head, tail, k);
    DecodeNode(defs, rules, limit, t, Encode(defs, t, v)[..k]);
    if |head| <= k {
      CutBehind(head, tail, k);
      HeadRoundTrip(rules, u, v, tail[..k - |head|]);
    }
  }

  /** The beginning of an encoding, whatever is missing of it, is refused as too short: no
      truncated message is taken for another value. */
  lemma {:induction false} Truncated(defs: seq<Type>, rules: Rules, limit: nat, t: Type, v: Value, k: nat)
    requires WellFormed(defs) && Closed(t, |defs|) && Sound(defs, t, v)
    requires Fits(defs, rules, t, v) && Depth(defs, t, v) <= limit && k < |Encode(defs, t, v)|
    ensures Decode(defs, rules, limit, t, Encode(defs, t, v)[..k]) == Fail(Overflow)
    decreases v, 1, 0
  {
    var u := Resolve(defs, t);
    if !u.Composite() {
      LeafTruncated(defs, rules, limit, t, v, k);
    } else {
      SoundNode(defs, t, v);
      FitsParts(defs, rules, t, v);
      var n := |EncodeHead(u, Head(u, v))|;
      if n <= k {
        PartsTruncated(defs, rules, limit - 1, u, v, 0, k - n);
      }
      NodeTruncated(defs, rules, limit, t, v, k);
    }
  }
}

/** Decoding undoes encoding, and what the decoder accepts is an encoding. */
module RoundTrip {
  import opened Bytes
  import opened Sequences
  import opened Xdr
  import opened Codec

  /** The outcome of decoding an encoding: the value, or an error with its cause. */
  predicate Gives<T(==)>(r: Outcome<T>, fits: bool, shallow: bool, v: T, rest: seq<Byte>) {
    if fits && shallow then r == Done(v, rest)
    else (r == Fail(Overflow) && !fits) || (r == Fail(StackOverflow) && !shallow)
  }

  /** The head of `v` is one that the decoder lets through. */
  predicate HeadFits(rules: Rules, u: Type, v: Value) {
    rules.maxima && u.Vector? ==> |v.Parts()| <= u.max
  }

  lemma WordRoundTrip(w: Word, rest: seq<Byte>)
    ensures (Be32(w) + rest)[..4] == Be32(w) && (Be32(w) + rest)[4..] == rest
    ensures FromBe32(Be32(w)) == w
  {
    FromBe32OfBe32(w);
  }

  lemma BytesRoundTrip(b: seq<Byte>, rest: seq<Byte>)
    ensures DecodeBytes(|b|, EncodeBytes(b) + rest) == Done(VBytes(b), rest)
  {
    var s := EncodeBytes(b) + rest;
    assert s[..|b|] == b;
    assert s[|b|..Padded(|b|)] == Zeros(Padded(|b|) - |b|);
    assert s[Padded(|b|)..] == rest;
  }

  lemma Associate(a: seq<Byte>, b: seq<Byte>, c: seq<Byte>)
    ensures a + b + c == a + (b + c)
  {
  }

  lemma NumberRoundTrip(rules: Rules, u: Type, v: Value, rest: seq<Byte>)
    requires (u.Int? || u.Bool?) && LeafShaped(u, v)
    ensures DecodeLeaf(rules, u, EncodeLeaf(u, v) + rest) == Done(v, rest)
  {
    var w := if u.Int? then v.w else if v.b then 1 else 0;
    WordRoundTrip(w, rest);
    assert EncodeLeaf(u, v) == Be32(w);
    if u.Int? {
    } else {
    }
  }

  lemma HyperRoundTrip(rules: Rules, u: Type, v: Value, rest: seq<Byte>)
    requires u.Hyper? && v.VHyper?
    ensures DecodeLeaf(rules, u, EncodeLeaf(u, v) + rest) == Done(v, rest)
  {
    Associate(Be32(v.hi), Be32(v.lo), rest);
    WordRoundTrip(v.hi, Be32(v.lo) + rest);
    WordRoundTrip(v.lo, rest);
  }

  lemma CountedBytesRoundTrip(rules: Rules, u: Type, v: Value, rest: seq<Byte>)
    requires u.Bytes? && LeafShaped(u, v)
    ensures DecodeLeaf(rules, u, EncodeLeaf(u, v) + rest)
      == if rules.maxima && |v.bytes| > u.max then Fail(Overflow) else Done(v, rest)
  {
    Associate(Be32(|v.bytes|), EncodeBytes(v.bytes), rest);
    WordRoundTrip(|v.bytes|, EncodeBytes(v.bytes) + rest);
    BytesRoundTrip(v.bytes, rest);
  }

  lemma LeafRoundTrip(rules: Rules, u: Type, v: Value, rest: seq<Byte>)
    requires LeafShaped(u, v)
    ensures Gives(DecodeLeaf(rules, u, EncodeLeaf(u, v) + rest),
              rules.maxima && u.Bytes? ==> |v.bytes| <= u.max, true, v, rest)
  {
    match u
    case Int(_) => NumberRoundTrip(rules, u, v, rest);
    case Hyper(_) => HyperRoundTrip(rules, u, v, rest);
    case Bool => NumberRoundTrip(rules, u, v, rest);
    case Opaque(_) => BytesRoundTrip(v.bytes, rest);
    case Bytes(_) => CountedBytesRoundTrip(rules, u, v, rest);
  }

  lemma HeadRoundTrip(rules: Rules, u: Type, v: Value, rest: seq<Byte>)
    requires NodeShaped(u, v)
    requires u.Union? ==> Pick(u.arms, v.tag) != -1
    ensures var r := DecodeHead(rules, u, EncodeHead(u, Head(u, v)) + rest);
      if !HeadFits(rules, u, v) then r == Fail(Overflow)
      else r == Done(Head(u, v), rest)
  {
    if u.Headed() {
      WordRoundTrip(Head(u, v), rest);
    } else {
      assert EncodeHead(u, Head(u, v)) + rest == rest;
    }
  }

  predicate Fits(defs: seq<Type>, rules: Rules, t: Type, v: Value) {
    rules.maxima ==> InBounds(defs, t, v)
  }

  predicate FitsFrom(defs: seq<Type>, rules: Rules, u: Type, v: Value, i: nat) {
    forall j :: i <= j < |v.Parts()| ==> Fits(defs, rules, Part(u, Head(u, v), j), v.Parts()[j])
  }

  lemma FitsParts(defs: seq<Type>, rules: Rules, t: Type, v: Value)
    requires Resolve(defs, t).Composite() && NodeShaped(Resolve(defs, t), v)
    ensures Fits(defs, rules, t, v) <==>
      HeadFits(rules, Resolve(defs, t), v) && FitsFrom(defs, rules, Resolve(defs, t), v, 0)
  {
    var u := Resolve(defs, t);
    if rules.maxima && FitsFrom(defs, rules, u, v, 0) {
      forall j | 0 <= j < |v.Parts()| ensures InBounds(defs, Part(u, Head(u, v), j), v.Parts()[j]) {
        assert Fits(defs, rules, Part(u, Head(u, v), j), v.Parts()[j]);
      }
    }
  }

  lemma FitsStep(defs: seq<Type>, rules: Rules, u: Type, v: Value, i: nat)
    requires i < |v.Parts()|
    ensures FitsFrom(defs, rules, u, v, i) <==>
      Fits(defs, rules, Part(u, Head(u, v), i), v.Parts()[i]) && FitsFrom(defs, rules, u, v, i + 1)
  {
  }

  lemma Behead<T>(s: seq<T>, i: nat, x: T, q: seq<T>)
    requires i < |s| && [x] + q == From(s, i)
    ensures x == s[i] && q == From(s, i + 1)
  {
    assert x == ([x] + q)[0];
    forall k | 0 <= k < |q| ensures q[k] == From(s, i + 1)[k] {
      assert q[k] == ([x] + q)[k + 1];
    }
  }

  lemma Prepend<T>(s: seq<T>, i: nat)
    requires i < |s|
    ensures [s[i]] + From(s, i + 1) == From(s, i)
  {
  }

  predicate Sound(defs: seq<Type>, t: Type, v: Value) {
    Shaped(defs, t, v) && Live(defs, t, v)
  }

  predicate PartsSound(defs: seq<Type>, u: Type, v: Value) {
    forall j :: 0 <= j < |v.Parts()| ==> Sound(defs, Part(u, Head(u, v), j), v.Parts()[j])
  }

  /** A sound value of a composite type. */
  predicate Compound(defs: seq<Type>, t: Type, v: Value) {
    WellFormed(defs) && Closed(t, |defs|) && Sound(defs, t, v) && Resolve(defs, t).Composite()
  }

  /** A value of the composite type `u`, and all its parts, are sound. */
  predicate Whole(defs: seq<Type>, u: Type, v: Value) {
    WellFormed(defs) && Closed(u, |defs|) && NodeShaped(u, v) && PartsSound(defs, u, v)
  }

  lemma NodeOfParts(u: Type, v: Value)
    requires NodeShaped(u, v)
    ensures Node(u, Head(u, v), From(v.Parts(), 0)) == v
  {
    assert From(v.Parts(), 0) == v.Parts();
  }

  /** Decode, once the head and the parts are decoded. */
  lemma {:induction false} DecodeNode(defs: seq<Type>, rules: Rules, limit: nat, t: Type, s: seq<Byte>)
    requires WellFormed(defs) && Closed(t, |defs|) && limit > 0 && Resolve(defs, t).Composite()
    ensures var u := Resolve(defs, t); var h, r := DecodeHead(rules, u, s), Decode(defs, rules, limit, t, s);
      if h.Fail? then r == Fail(h.error)
      else
        var ps := DecodeParts(defs, rules, limit - 1, u, h.value, 0, h.rest);
        if ps.Fail? then r == Fail(ps.error) else r == Done(Node(u, h.value, ps.value), ps.rest)
  {
  }

  /** From the parts to the whole. */
  lemma {:induction false} NodeRoundTrip(
    defs: seq<Type>, rules: Rules, limit: nat, t: Type, v: Value, rest: seq<Byte>)
    requires Compound(defs, t, v) && limit > 0
    requires var u := Resolve(defs, t);
      && Whole(defs, u, v)
      && Gives(DecodeParts(defs, rules, limit - 1, u, Head(u, v), 0, EncodeFrom(defs, u, v, 0) + rest),
               FitsFrom(defs, rules, u, v, 0), DepthFrom(defs, u, v, 0) <= limit - 1, From(v.Parts(), 0), rest)
    ensures Gives(Decode(defs, rules, limit, t, Encode(defs, t, v) + rest),
              Fits(defs, rules, t, v), Depth(defs, t, v) <= limit, v, rest)
  {
    var u := Resolve(defs, t);
    SoundNode(defs, t, v);
    var tail := EncodeFrom(defs, u, v, 0);
    var ps := DecodeParts(defs, rules, limit - 1, u, Head(u, v), 0, tail + rest);
    Associate(EncodeHead(u, Head(u, v)), tail, rest);
    HeadRoundTrip(rules, u, v, tail + rest);
    DecodeNode(defs, rules, limit, t, Encode(defs, t, v) + rest);
    FitsParts(defs, rules, t, v);
    NodeOfParts(u, v);
    if !HeadFits(rules, u, v) {
    } else if ps.Done? {
    } else {
    }
  }

  /** From a part and the parts after it to the parts from there on. */
  lemma PartsStep(defs: seq<Type>, rules: Rules, limit: nat, u: Type, v: Value, i: nat, rest: seq<Byte>)
    requires WellFormed(defs) && Closed(u, |defs|)
    requires i < |v.Parts()| == Count(u, Head(u, v)) && Closed(Part(u, Head(u, v), i), |defs|)
    requires var p, a, tail := Part(u, Head(u, v), i), v.Parts()[i], EncodeFrom(defs, u, v, i + 1);
      Gives(Decode(defs, rules, limit, p, Encode(defs, p, a) + (tail + rest)),
        Fits(defs, rules, p, a), Depth(defs, p, a) <= limit, a, tail + rest)
    requires Gives(DecodeParts(defs, rules, limit, u, Head(u, v), i + 1, EncodeFrom(defs, u, v, i + 1) + rest),
               FitsFrom(defs, rules, u, v, i + 1), DepthFrom(defs, u, v, i + 1) <= limit, From(v.Parts(), i + 1), rest)
    ensures Gives(DecodeParts(defs, rules, limit, u, Head(u, v), i, EncodeFrom(defs, u, v, i) + rest),
              FitsFrom(defs, rules, u, v, i), DepthFrom(defs, u, v, i) <= limit, From(v.Parts(), i), rest)
  {
    var p, a, tail := Part(u, Head(u, v), i), v.Parts()[i], EncodeFrom(defs, u, v, i + 1);
    Associate(Encode(defs, p, a), tail, rest);
    Prepend(v.Parts(), i);
    FitsStep(defs, rules, u, v, i);
    if !(Fits(defs, rules, p, a) && Depth(defs, p, a) <= limit) {
    } else if !(FitsFrom(defs, rules, u, v, i + 1) && DepthFrom(defs, u, v, i + 1) <= limit) {
    } else {
    }
  }

  lemma {:induction false} SoundNode(defs: seq<Type>, t: Type, v: Value)
    requires Compound(defs, t, v)
    ensures var u := Resolve(defs, t);
      Whole(defs, u, v) && (u.Union? ==> Pick(u.arms, v.tag) != -1)
  {
  }

  lemma {:induction false} NoStackLeft(defs: seq<Type>, rules: Rules, t: Type, v: Value, rest: seq<Byte>)
    requires WellFormed(defs) && Closed(t, |defs|) && Resolve(defs, t).Composite()
    ensures Gives(Decode(defs, rules, 0, t, Encode(defs, t, v) + rest),
              Fits(defs, rules, t, v), Depth(defs, t, v) <= 0, v, rest)
  {
  }

  /** Decoding an encoding, followed by anything, gives the value and leaves what
      follows, exactly when no length is over its maximum and the nesting is within
      the stack limit. */
  lemma {:induction false} DecodeOfEncode(
    defs: seq<Type>, rules: Rules, limit: nat, t: Type, v: Value, rest: seq<Byte>)
    requires WellFormed(defs) && Closed(t, |defs|)
    requires Sound(defs, t, v)
    ensures Gives(Decode(defs, rules, limit, t, Encode(defs, t, v) + rest),
              Fits(defs, rules, t, v), Depth(defs, t, v) <= limit, v, rest)
    decreases v, 1, 0
  {
    var u := Resolve(defs, t);
    if u.Composite() {
      if limit == 0 {
        NoStackLeft(defs, rules, t, v, rest);
      } else {
        DecodeNodeOfEncode(defs, rules, limit, t, v, rest);
      }
    } else {
      LeafRoundTrip(rules, u, v, rest);
    }
  }

  lemma {:induction false} DecodeNodeOfEncode(
    defs: seq<Type>, rules: Rules, limit: nat, t: Type, v: Value, rest: seq<Byte>)
    requires Compound(defs, t, v) && limit > 0
    ensures Gives(Decode(defs, rules, limit, t, Encode(defs, t, v) + rest),
              Fits(defs, rules, t, v), Depth(defs, t, v) <= limit, v, rest)
    decreases v, 0, |v.Parts()| + 1
  {
    var u := Resolve(defs, t);
    SoundNode(defs, t, v);
    DecodePartsOfEncode(defs, rules, limit - 1, u, v, 0, rest);
    NodeRoundTrip(defs, rules, limit, t, v, rest);
  }

  lemma {:induction false} DecodePartsOfEncode(
    defs: seq<Type>, rules: Rules, limit: nat, u: Type, v: Value, i: nat, rest: seq<Byte>)
    requires Whole(defs, u, v) && i <= |v.Parts()|
    ensures Gives(DecodeParts(defs, rules, limit, u, Head(u, v), i, EncodeFrom(defs, u, v, i) + rest),
              FitsFrom(defs, rules, u, v, i), DepthFrom(defs, u, v, i) <= limit, From(v.Parts(), i), rest)
    decreases v, 0, |v.Parts()| - i
  {
    if i == |v.Parts()| {
      assert EncodeFrom(defs, u, v, i) + rest == rest;
      assert From(v.Parts(), i) == [];
    } else {
      var p, a, tail := Part(u, Head(u, v), i), v.Parts()[i], EncodeFrom(defs, u, v, i + 1);
      PartRefers(u, Head(u, v), i, |defs|);
      DecodeOfEncode(defs, rules, limit, p, a, tail + rest);
      DecodePartsOfEncode(defs, rules, limit, u, v, i + 1, rest);
      PartsStep(defs, rules, limit, u, v, i, rest);
    }
  }
}

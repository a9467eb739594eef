/** operator== on XDR values against their encodings (xdrpp/types.h). */
module Equality {
  import opened Bytes
  import opened Xdr
  import opened Codec
  import opened RoundTrip
  import opened Canonical

  /** IEEE 754 single and double, given the most significant word and the rest. */
  predicate IsNaN32(w: Word) { w / 0x80_0000 % 0x100 == 0xff && w % 0x80_0000 != 0 }

  predicate IsNaN64(hi: Word, lo: Word) { hi / 0x10_0000 % 0x800 == 0x7ff && (hi % 0x10_0000 != 0 || lo != 0) }

  predicate IsZero(hi: Word, lo: Word) { hi % 0x8000_0000 == 0 && lo == 0 }

  predicate LeafNaN(t: Type, v: Value) {
    || (t.Int? && t.float && v.VInt? && IsNaN32(v.w))
    || (t.Hyper? && t.float && v.VHyper? && IsNaN64(v.hi, v.lo))
  }

  predicate LeafNegativeZero(t: Type, v: Value) {
    || (t.Int? && t.float && v == VInt(0x8000_0000))
    || (t.Hyper? && t.float && v == VHyper(0x8000_0000, 0))
  }

  predicate LeafZero(t: Type, v: Value) {
    || (t.Int? && t.float && v.VInt? && IsZero(v.w, 0))
    || (t.Hyper? && t.float && v.VHyper? && IsZero(v.hi, v.lo))
  }

  predicate LeafEqual(t: Type, a: Value, b: Value) {
    !LeafNaN(t, a) && !LeafNaN(t, b) && (a == b || (LeafZero(t, a) && LeafZero(t, b)))
  }

  /** operator==: vectors by length and elements, structs by fields, unions by tag and
      live field, floating-point numbers as IEEE 754 has it. */
  predicate Equal(defs: seq<Type>, t: Type, a: Value, b: Value)
    decreases a
  {
    var u := Resolve(defs, t);
    if u.Composite() then
      && (u.Union? ==> Head(u, a) == Head(u, b))
      && |a.Parts()| == |b.Parts()|
      && forall i :: 0 <= i < |a.Parts()| ==> Equal(defs, Part(u, Head(u, a), i), a.Parts()[i], b.Parts()[i])
    else LeafEqual(u, a, b)
  }

  /** No floating-point number in `v` is a NaN, and if `strict` none is a negative zero. */
  predicate Ordered(defs: seq<Type>, strict: bool, t: Type, v: Value)
    decreases v
  {
    var u := Resolve(defs, t);
    if u.Composite() then
      forall i :: 0 <= i < |v.Parts()| ==> Ordered(defs, strict, Part(u, Head(u, v), i), v.Parts()[i])
    else !LeafNaN(u, v) && !(strict && LeafNegativeZero(u, v))
  }

  /** A value is equal to itself exactly when there is no NaN in it. */
  lemma {:induction false} EqualToItself(defs: seq<Type>, t: Type, v: Value)
    ensures Equal(defs, t, v, v) <==> Ordered(defs, false, t, v)
    decreases v
  {
    var u := Resolve(defs, t);
    if u.Composite() {
      forall i | 0 <= i < |v.Parts()|
        ensures var p, a := Part(u, Head(u, v), i), v.Parts()[i]; Equal(defs, p, a, a) <==> Ordered(defs, false, p, a)
      {
        EqualToItself(defs, Part(u, Head(u, v), i), v.Parts()[i]);
      }
    }
  }

  lemma LeafEqualIsIdentity(u: Type, a: Value, b: Value)
    requires LeafShaped(u, a) && LeafShaped(u, b) && LeafEqual(u, a, b)
    requires !LeafNegativeZero(u, a) && !LeafNegativeZero(u, b)
    ensures a == b
  {
  }

  /** Apart from NaNs and negative zeros, equal values are the same. */
  lemma {:induction false} EqualIsIdentity(defs: seq<Type>, t: Type, a: Value, b: Value)
    requires Shaped(defs, t, a) && Shaped(defs, t, b)
    requires Ordered(defs, true, t, a) && Ordered(defs, true, t, b)
    ensures Equal(defs, t, a, b) <==> a == b
    decreases a
  {
    var u := Resolve(defs, t);
    if u.Composite() {
      if |a.Parts()| == |b.Parts()| && Head(u, a) == Head(u, b) {
        forall i | 0 <= i < |a.Parts()|
          ensures Equal(defs, Part(u, Head(u, a), i), a.Parts()[i], b.Parts()[i]) <==> a.Parts()[i] == b.Parts()[i]
        {
          EqualIsIdentity(defs, Part(u, Head(u, a), i), a.Parts()[i], b.Parts()[i]);
        }
      }
    } else if LeafEqual(u, a, b) {
      LeafEqualIsIdentity(u, a, b);
    }
  }

  lemma {:induction false} FloatFreeIsOrdered(defs: seq<Type>, t: Type, v: Value)
    requires DefsFree(Floats, defs) && Free(Floats, t) && Shaped(defs, t, v)
    ensures Ordered(defs, true, t, v)
    decreases v
  {
    var u := Resolve(defs, t);
    if u.Composite() {
      forall i | 0 <= i < |v.Parts()| ensures Ordered(defs, true, Part(u, Head(u, v), i), v.Parts()[i]) {
        FloatFreeIsOrdered(defs, Part(u, Head(u, v), i), v.Parts()[i]);
      }
    }
  }

  /** Values without NaNs and negative zeros are == exactly when their encodings are. */
  lemma {:induction false} EqualExactlyWhenEncodedAlike(defs: seq<Type>, t: Type, a: Value, b: Value)
    requires WellFormed(defs) && Closed(t, |defs|) && Sound(defs, t, a) && Sound(defs, t, b)
    requires Ordered(defs, true, t, a) && Ordered(defs, true, t, b)
    ensures Equal(defs, t, a, b) <==> Encode(defs, t, a) == Encode(defs, t, b)
  {
    EqualIsIdentity(defs, t, a, b);
    if Encode(defs, t, a) == Encode(defs, t, b) {
      EncodeIsInjective(defs, t, a, [], b, []);
    }
  }

  /** Values of float-free types are == exactly when their encodings are. */
  lemma {:induction false} FloatFreeEquality(defs: seq<Type>, t: Type, a: Value, b: Value)
    requires WellFormed(defs) && Closed(t, |defs|) && DefsFree(Floats, defs) && Free(Floats, t)
    requires Sound(defs, t, a) && Sound(defs, t, b)
    ensures Equal(defs, t, a, b) <==> Encode(defs, t, a) == Encode(defs, t, b)
  {
    FloatFreeIsOrdered(defs, t, a);
    FloatFreeIsOrdered(defs, t, b);
    EqualExactlyWhenEncodedAlike(defs, t, a, b);
  }

  /** The two ways in which floating-point numbers break it. */
  lemma FloatsBreakEquality()
    ensures !Equal([], Int(true), VInt(0x7fc0_0000), VInt(0x7fc0_0000))
    ensures Equal([], Int(true), VInt(0), VInt(0x8000_0000))
    ensures Encode([], Int(true), VInt(0)) != Encode([], Int(true), VInt(0x8000_0000))
  {
    assert Encode([], Int(true), VInt(0))[0] == 0;
    assert Encode([], Int(true), VInt(0x8000_0000))[0] == 0x80;
  }

  // ----- exactly the values for which it holds ---------------------------------------

  /** No NaN and no zero of either sign among the floating-point numbers in `v`. */
  predicate Plain(defs: seq<Type>, t: Type, v: Value)
    decreases v
  {
    var u := Resolve(defs, t);
    if u.Composite() then
      forall i :: 0 <= i < |v.Parts()| ==> Plain(defs, Part(u, Head(u, v), i), v.Parts()[i])
    else !LeafNaN(u, v) && !LeafZero(u, v)
  }

  /** The other zero, for a floating-point zero. */
  function FlipLeaf(t: Type, v: Value): (w: Value)
    ensures LeafShaped(t, v) ==> LeafShaped(t, w)
    ensures !LeafNaN(t, v) ==> LeafEqual(t, v, w)
    ensures LeafZero(t, v) ==> w != v
  {
    if !LeafZero(t, v) then v
    else if v.VInt? then VInt(if v.w == 0 then 0x8000_0000 else 0)
    else if v.VHyper? then VHyper(if v.hi == 0 then 0x8000_0000 else 0, 0)
    else v
  }

  /** `v` with the sign of every floating-point zero changed. */
  function Flip(defs: seq<Type>, t: Type, v: Value): (w: Value)
    ensures v.VSeq? || v.VUnion? ==> |w.Parts()| == |v.Parts()|
    decreases v
  {
    var u := Resolve(defs, t);
    if !u.Composite() then FlipLeaf(u, v)
    else
      var parts := seq(|v.Parts()|, i requires 0 <= i < |v.Parts()| =>
        Flip(defs, Part(u, Head(u, v), i), v.Parts()[i]));
      match v
      case VSeq(_) => VSeq(parts)
      case VUnion(tag, _) => VUnion(tag, parts)
      case _ => v
  }

  lemma {:induction false} FlipParts(defs: seq<Type>, t: Type, v: Value)
    requires Resolve(defs, t).Composite() && (v.VSeq? || v.VUnion?)
    ensures var u, w := Resolve(defs, t), Flip(defs, t, v);
      && Head(u, w) == Head(u, v) && (w.VUnion? <==> v.VUnion?) && (w.VSeq? <==> v.VSeq?)
      && (v.VUnion? ==> w.tag == v.tag) && |w.Parts()| == |v.Parts()|
      && forall i :: 0 <= i < |v.Parts()| ==> w.Parts()[i] == Flip(defs, Part(u, Head(u, v), i), v.Parts()[i])
  {
  }

  /** Flipping keeps a value well-formed and equal, if it has no NaN ... */
  lemma {:induction false} FlipIsEqual(defs: seq<Type>, t: Type, v: Value)
    requires Sound(defs, t, v) && Ordered(defs, false, t, v)
    ensures Sound(defs, t, Flip(defs, t, v)) && Equal(defs, t, v, Flip(defs, t, v))
    decreases v
  {
    var u, w := Resolve(defs, t), Flip(defs, t, v);
    if u.Composite() {
      FlipParts(defs, t, v);
      forall i | 0 <= i < |v.Parts()|
        ensures Shaped(defs, Part(u, Head(u, w), i), w.Parts()[i]) && Live(defs, Part(u, Head(u, w), i), w.Parts()[i])
        ensures Equal(defs, Part(u, Head(u, v), i), v.Parts()[i], w.Parts()[i])
      {
        FlipIsEqual(defs, Part(u, Head(u, v), i), v.Parts()[i]);
      }
    }
  }

  /** ... and changes it, if there is a zero to flip. */
  lemma {:induction false} FlipDiffers(defs: seq<Type>, t: Type, v: Value)
    requires Shaped(defs, t, v) && Ordered(defs, false, t, v) && !Plain(defs, t, v)
    ensures Flip(defs, t, v) != v
    decreases v
  {
    var u := Resolve(defs, t);
    if u.Composite() {
      FlipParts(defs, t, v);
      var i :| 0 <= i < |v.Parts()| && !Plain(defs, Part(u, Head(u, v), i), v.Parts()[i]);
      FlipDiffers(defs, Part(u, Head(u, v), i), v.Parts()[i]);
    }
  }

  lemma {:induction false} PlainEqualIsIdentity(defs: seq<Type>, t: Type, v: Value, b: Value)
    requires Shaped(defs, t, v) && Shaped(defs, t, b) && Plain(defs, t, v)
    ensures Equal(defs, t, v, b) <==> v == b
    decreases v
  {
    var u := Resolve(defs, t);
    if u.Composite() {
      if |v.Parts()| == |b.Parts()| && Head(u, v) == Head(u, b) {
        forall i | 0 <= i < |v.Parts()|
          ensures Equal(defs, Part(u, Head(u, v), i), v.Parts()[i], b.Parts()[i]) <==> v.Parts()[i] == b.Parts()[i]
        {
          PlainEqualIsIdentity(defs, Part(u, Head(u, v), i), v.Parts()[i], b.Parts()[i]);
        }
      }
    }
  }

  /** == and equality of encodings agree for `v` and every other value. */
  ghost predicate Agrees(defs: seq<Type>, t: Type, v: Value) {
    forall b :: Sound(defs, t, b) ==> (Equal(defs, t, v, b) <==> Encode(defs, t, v) == Encode(defs, t, b))
  }

  lemma {:induction false} PlainAgrees(defs: seq<Type>, t: Type, v: Value)
    requires WellFormed(defs) && Closed(t, |defs|) && Sound(defs, t, v) && Plain(defs, t, v)
    ensures Agrees(defs, t, v)
  {
    forall b | Sound(defs, t, b) ensures Equal(defs, t, v, b) <==> Encode(defs, t, v) == Encode(defs, t, b) {
      PlainEqualIsIdentity(defs, t, v, b);
      if Encode(defs, t, v) == Encode(defs, t, b) {
        EncodeIsInjective(defs, t, v, [], b, []);
      }
    }
  }

  /** Otherwise `v` itself, or `v` with its zeros flipped, tells == and encodings apart. */
  lemma NotPlainDiffers(defs: seq<Type>, t: Type, v: Value) returns (b: Value)
    requires WellFormed(defs) && Closed(t, |defs|) && Sound(defs, t, v) && !Plain(defs, t, v)
    ensures Sound(defs, t, b) && (Equal(defs, t, v, b) <==> Encode(defs, t, v) != Encode(defs, t, b))
  {
    EqualToItself(defs, t, v);
    b := v;
    if Ordered(defs, false, t, v) {
      FlipIsEqual(defs, t, v);
      FlipDiffers(defs, t, v);
      b := Flip(defs, t, v);
      if Encode(defs, t, v) == Encode(defs, t, b) {
        EncodeIsInjective(defs, t, v, [], b, []);
      }
    }
  }

  /** A value is == to exactly the values with its encoding if and only if it holds no NaN
      and no floating-point zero. */
  lemma {:induction false} EqualAsEncodedExactlyWhen(defs: seq<Type>, t: Type, v: Value)
    requires WellFormed(defs) && Closed(t, |defs|) && Sound(defs, t, v)
    ensures Agrees(defs, t, v) <==> Plain(defs, t, v)
  {
    if Plain(defs, t, v) {
      PlainAgrees(defs, t, v);
    } else {
      var b := NotPlainDiffers(defs, t, v);
    }
  }

  lemma ShortNaN(w: Word)
    ensures IsNaN32(w) <==> w % 0x8000_0000 > 0x7f80_0000
  {
    var e, f := w / 0x80_0000 % 0x100, w % 0x80_0000;
    assert w % 0x8000_0000 == e * 0x80_0000 + f;
  }

  lemma LongNaN(hi: Word, lo: Word)
    ensures IsNaN64(hi, lo) <==> hi % 0x8000_0000 * 0x1_0000_0000 + lo > 0x7ff0_0000_0000_0000
  {
    var e, f := hi / 0x10_0000 % 0x800, hi % 0x10_0000;
    assert hi % 0x8000_0000 == e * 0x10_0000 + f;
  }

  lemma WithoutSign(hi: Word, lo: Word)
    ensures (hi * 0x1_0000_0000 + lo) % 0x8000_0000_0000_0000 == hi % 0x8000_0000 * 0x1_0000_0000 + lo
  {
    var s, h := hi / 0x8000_0000, hi % 0x8000_0000;
    assert hi * 0x1_0000_0000 + lo == s * 0x8000_0000_0000_0000 + (h * 0x1_0000_0000 + lo);
    assert 0 <= h * 0x1_0000_0000 + lo < 0x8000_0000_0000_0000;
  }

  /** A NaN is a number whose exponent has all bits set and whose fraction is not zero: of
      the numbers without their sign, those above infinity.  A zero is 0 without its sign. */
  lemma NaNsAreAboveInfinity(hi: Word, lo: Word)
    ensures IsNaN32(lo) <==> lo % 0x8000_0000 > 0x7f80_0000
    ensures IsNaN64(hi, lo) <==> (hi * 0x1_0000_0000 + lo) % 0x8000_0000_0000_0000 > 0x7ff0_0000_0000_0000
    ensures IsZero(hi, lo) <==> (hi * 0x1_0000_0000 + lo) % 0x8000_0000_0000_0000 == 0
  {
    ShortNaN(lo);
    LongNaN(hi, lo);
    WithoutSign(hi, lo);
  }
}

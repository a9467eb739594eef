/** The size computations of xdrpp/types.h and xdrc against the encoder. */
module Sizes {
  import opened Options
  import opened Bytes
  import opened Xdr
  import opened Codec
  import opened RoundTrip

  /** has_fixed_size. */
  predicate HasFixed(defs: seq<Type>, t: Type)
    requires WellFormed(defs) && Closed(t, |defs|)
    decreases Rank(t), t, 1, 0
  {
    match Resolve(defs, t)
    case Int(_) => true
    case Hyper(_) => true
    case Bool => true
    case Opaque(_) => true
    case Array(elem, _) => HasFixed(defs, elem)
    case Struct(fields) => FixedFrom(defs, Resolve(defs, t), 0)
    case _ => false
  }

  /** Fields `i` and on of a struct have a fixed size. */
  predicate FixedFrom(defs: seq<Type>, u: Type, i: nat)
    requires WellFormed(defs) && Closed(u, |defs|) && u.Struct? && i <= |u.fields|
    decreases Rank(u), u, 0, |u.fields| - i
  {
    if i == |u.fields| then true
    else PartRefers(u, 0, i, |defs|); HasFixed(defs, u.fields[i]) && FixedFrom(defs, u, i + 1)
  }

  /** fixed_size. */
  function FixedSize(defs: seq<Type>, t: Type): nat
    requires WellFormed(defs) && Closed(t, |defs|)
    decreases Rank(t), t, 1, 0
  {
    match Resolve(defs, t)
    case Int(_) => 4
    case Hyper(_) => 8
    case Bool => 4
    case Opaque(n) => Padded(n)
    case Array(elem, size) => size * FixedSize(defs, elem)
    case Struct(fields) => FixedSizeFrom(defs, Resolve(defs, t), 0)
    case _ => 0
  }

  function FixedSizeFrom(defs: seq<Type>, u: Type, i: nat): nat
    requires WellFormed(defs) && Closed(u, |defs|) && u.Struct? && i <= |u.fields|
    decreases Rank(u), u, 0, |u.fields| - i
  {
    if i == |u.fields| then 0
    else PartRefers(u, 0, i, |defs|); FixedSize(defs, u.fields[i]) + FixedSizeFrom(defs, u, i + 1)
  }

  /** What a fixed size says about a value. */
  predicate SizedBy(defs: seq<Type>, t: Type, v: Value, n: nat) {
    |Encode(defs, t, v)| == n && Live(defs, t, v)
  }

  /** Every value of a type with a fixed size is encoded in that many bytes. */
  lemma {:induction false} FixedIsExact(defs: seq<Type>, t: Type, v: Value)
    requires WellFormed(defs) && Closed(t, |defs|) && HasFixed(defs, t) && Shaped(defs, t, v)
    ensures SizedBy(defs, t, v, FixedSize(defs, t))
    decreases v, 1, 0
  {
    var u := Resolve(defs, t);
    if u.Struct? {
      StructIsExact(defs, u, v, 0);
    } else if u.Array? {
      EqualElements(defs, u, v, 0);
    }
  }

  predicate LiveFrom(defs: seq<Type>, u: Type, v: Value, i: nat) {
    forall j :: i <= j < |v.Parts()| ==> Live(defs, Part(u, Head(u, v), j), v.Parts()[j])
  }

  predicate PartsShaped(defs: seq<Type>, u: Type, v: Value) {
    NodeShaped(u, v) && forall j :: 0 <= j < |v.Parts()| ==> Shaped(defs, Part(u, Head(u, v), j), v.Parts()[j])
  }

  lemma NextField(defs: seq<Type>, u: Type, v: Value, i: nat)
    requires Closed(u, |defs|) && u.Struct? && PartsShaped(defs, u, v) && i < |v.Parts()|
    ensures i < |u.fields| && Closed(u.fields[i], |defs|) && Shaped(defs, u.fields[i], v.Parts()[i])
    ensures |EncodeFrom(defs, u, v, i)| == |Encode(defs, u.fields[i], v.Parts()[i])| + |EncodeFrom(defs, u, v, i + 1)|
    ensures LiveFrom(defs, u, v, i) <==> Live(defs, u.fields[i], v.Parts()[i]) && LiveFrom(defs, u, v, i + 1)
  {
    assert Part(u, Head(u, v), i) == u.fields[i];
  }

  lemma {:induction false} StructIsExact(defs: seq<Type>, u: Type, v: Value, i: nat)
    requires WellFormed(defs) && Closed(u, |defs|) && u.Struct? && PartsShaped(defs, u, v) && i <= |v.Parts()|
    requires FixedFrom(defs, u, i)
    ensures |EncodeFrom(defs, u, v, i)| == FixedSizeFrom(defs, u, i) && LiveFrom(defs, u, v, i)
    decreases v, 0, |v.Parts()| - i
  {
    if i < |v.Parts()| {
      NextField(defs, u, v, i);
      FixedIsExact(defs, u.fields[i], v.Parts()[i]);
      StructIsExact(defs, u, v, i + 1);
    }
  }

  /** One element of a container and those after it. */
  lemma {:induction false} NextElement(defs: seq<Type>, u: Type, v: Value, i: nat)
    requires Closed(u, |defs|) && (u.Array? || u.Vector? || u.Pointer?) && PartsShaped(defs, u, v) && i < |v.Parts()|
    ensures Closed(u.elem, |defs|) && Shaped(defs, u.elem, v.Parts()[i])
  {
    assert Part(u, Head(u, v), i) == u.elem;
  }

  lemma NextLength(defs: seq<Type>, u: Type, v: Value, i: nat)
    requires (u.Array? || u.Vector? || u.Pointer?) && i < |v.Parts()|
    ensures |EncodeFrom(defs, u, v, i)| == |Encode(defs, u.elem, v.Parts()[i])| + |EncodeFrom(defs, u, v, i + 1)|
  {
    assert Part(u, Head(u, v), i) == u.elem;
  }

  lemma {:induction false} NextLive(defs: seq<Type>, u: Type, v: Value, i: nat)
    requires (u.Array? || u.Vector? || u.Pointer?) && i < |v.Parts()|
    ensures LiveFrom(defs, u, v, i) <==> Live(defs, u.elem, v.Parts()[i]) && LiveFrom(defs, u, v, i + 1)
  {
    assert Part(u, Head(u, v), i) == u.elem;
  }

  lemma OneMore(n: nat, i: nat, size: nat)
    requires i < n
    ensures size + (n - (i + 1)) * size == (n - i) * size
  {
  }

  /** Elements of the same fixed size take the number of them times that size. */
  lemma {:induction false} EqualElements(defs: seq<Type>, u: Type, v: Value, i: nat)
    requires WellFormed(defs) && Closed(u, |defs|) && (u.Array? || u.Vector?) && PartsShaped(defs, u, v)
    requires i <= |v.Parts()| && HasFixed(defs, u.elem)
    ensures |EncodeFrom(defs, u, v, i)| == (|v.Parts()| - i) * FixedSize(defs, u.elem) && LiveFrom(defs, u, v, i)
    decreases v, 0, |v.Parts()| - i
  {
    if i < |v.Parts()| {
      NextElement(defs, u, v, i);
      NextLength(defs, u, v, i);
      NextLive(defs, u, v, i);
      FixedIsExact(defs, u.elem, v.Parts()[i]);
      EqualElements(defs, u, v, i + 1);
      OneMore(|v.Parts()|, i, FixedSize(defs, u.elem));
    }
  }

  lemma WholeWords(a: seq<Byte>, b: seq<Byte>)
    requires |a| % 4 == 0 && |b| % 4 == 0
    ensures |a + b| % 4 == 0
  {
  }

  /** Every encoding is a whole number of words. */
  lemma {:induction false} EncodedInWords(defs: seq<Type>, t: Type, v: Value)
    ensures |Encode(defs, t, v)| % 4 == 0
    decreases v, 1, 0
  {
    var u := Resolve(defs, t);
    if u.Composite() {
      EncodedPartsInWords(defs, u, v, 0);
      WholeWords(EncodeHead(u, Head(u, v)), EncodeFrom(defs, u, v, 0));
    } else {
      LeafInWords(u, v);
    }
  }

  lemma LeafInWords(u: Type, v: Value)
    ensures |EncodeLeaf(u, v)| % 4 == 0
  {
    if v.VBytes? {
      WholeWords(Be32(0), EncodeBytes(v.bytes));
    }
  }

  lemma {:induction false} EncodedPartsInWords(defs: seq<Type>, u: Type, v: Value, i: nat)
    requires i <= |v.Parts()|
    ensures |EncodeFrom(defs, u, v, i)| % 4 == 0
    decreases v, 0, |v.Parts()| - i
  {
    if i < |v.Parts()| {
      EncodedInWords(defs, Part(u, Head(u, v), i), v.Parts()[i]);
      EncodedPartsInWords(defs, u, v, i + 1);
      WholeWords(Encode(defs, Part(u, Head(u, v), i), v.Parts()[i]), EncodeFrom(defs, u, v, i + 1));
    }
  }

  // ----- serial_size ------------------------------------------------------------

  /** The outcome of serial_size: the exact size, or an exception for a dead union. */
  predicate Measured(r: Option<nat>, live: bool, size: nat) {
    r == if live then Some(size) else None
  }

  lemma CountedPadding(n: nat)
    ensures 4 + Padded(n) == (n + 7) / 4 * 4
  {
  }

  lemma {:induction false} CountedSize(defs: seq<Type>, t: Type, v: Value)
    requires Resolve(defs, t).Bytes? && Shaped(defs, t, v)
    ensures v.VBytes? && SizedBy(defs, t, v, 4 + Padded(|v.bytes|))
  {
  }

  lemma {:induction false} VectorSize(defs: seq<Type>, t: Type, v: Value)
    requires WellFormed(defs) && Closed(t, |defs|) && Shaped(defs, t, v)
    requires Resolve(defs, t).Vector? && HasFixed(defs, Resolve(defs, t).elem)
    ensures SizedBy(defs, t, v, 4 + |v.Parts()| * FixedSize(defs, Resolve(defs, t).elem))
  {
    EqualElements(defs, Resolve(defs, t), v, 0);
  }

  /** serial_size: a constant for fixed sizes, the closed form for a vector of elements
      with a fixed size, otherwise a sum over the parts. */
  method SerialSize(defs: seq<Type>, t: Type, v: Value) returns (r: Option<nat>)
    requires WellFormed(defs) && Closed(t, |defs|) && Shaped(defs, t, v)
    ensures Measured(r, Live(defs, t, v), |Encode(defs, t, v)|)
    decreases v, 2, 0
  {
    var u := Resolve(defs, t);
    if HasFixed(defs, t) {
      FixedIsExact(defs, t, v);
      r := Some(FixedSize(defs, t));
    } else if u.Bytes? {
      CountedSize(defs, t, v);
      CountedPadding(|v.bytes|);
      r := Some((|v.bytes| + 7) / 4 * 4);
    } else if u.Vector? && HasFixed(defs, u.elem) {
      VectorSize(defs, t, v);
      r := Some(4 + |v.Parts()| * FixedSize(defs, u.elem));
    } else {
      r := CompositeSize(defs, t, v);
    }
  }

  /** The sums over the parts. */
  method CompositeSize(defs: seq<Type>, t: Type, v: Value) returns (r: Option<nat>)
    requires WellFormed(defs) && Closed(t, |defs|) && Shaped(defs, t, v) && Resolve(defs, t).Composite()
    ensures Measured(r, Live(defs, t, v), |Encode(defs, t, v)|)
    decreases v, 1, |v.Parts()| + 1
  {
    var u := Resolve(defs, t);
    if u.Struct? {
      r := StructSize(defs, u, v, 0);
    } else if u.Union? {
      r := UnionSize(defs, u, v);
    } else {
      r := ContainerSize(defs, u, v);
    }
  }

  /** The recursion over the fields of a struct, cut short where the rest is fixed. */
  method StructSize(defs: seq<Type>, u: Type, v: Value, i: nat) returns (r: Option<nat>)
    requires WellFormed(defs) && Closed(u, |defs|) && u.Struct? && PartsShaped(defs, u, v) && i <= |v.Parts()|
    ensures Measured(r, LiveFrom(defs, u, v, i), |EncodeFrom(defs, u, v, i)|)
    decreases v, 1, |v.Parts()| - i
  {
    if FixedFrom(defs, u, i) {
      StructIsExact(defs, u, v, i);
      return Some(FixedSizeFrom(defs, u, i));
    }
    NextField(defs, u, v, i);
    r := SerialSize(defs, u.fields[i], v.Parts()[i]);
    if r.None? {
      return None;
    }
    var rest := StructSize(defs, u, v, i + 1);
    r := if rest.None? then None else Some(r.value + rest.value);
  }

  /** The emitted serial_size of a union. */
  method UnionSize(defs: seq<Type>, u: Type, v: Value) returns (r: Option<nat>)
    requires WellFormed(defs) && Closed(u, |defs|) && u.Union? && PartsShaped(defs, u, v)
    ensures Measured(r, Pick(u.arms, v.tag) != -1 && LiveFrom(defs, u, v, 0), 4 + |EncodeFrom(defs, u, v, 0)|)
    decreases v, 1, 0
  {
    if Pick(u.arms, v.tag) == -1 {
      return None;
    }
    var size := 0;
    if Field(u.arms, v.tag).Some? {
      PartRefers(u, v.tag, 0, |defs|);
      assert EncodeFrom(defs, u, v, 1) == [];
      r := SerialSize(defs, Field(u.arms, v.tag).value, v.parts[0]);
      if r.None? {
        return None;
      }
      size := r.value;
    }
    r := Some(size + 4);
  }

  /** The summing loop of the containers. */
  method ContainerSize(defs: seq<Type>, u: Type, v: Value) returns (r: Option<nat>)
    requires WellFormed(defs) && Closed(u, |defs|) && (u.Array? || u.Vector? || u.Pointer?) && PartsShaped(defs, u, v)
    ensures Measured(r, LiveFrom(defs, u, v, 0), (if u.Headed() then 4 else 0) + |EncodeFrom(defs, u, v, 0)|)
    decreases v, 1, 0
  {
    var s := if u.Headed() then 4 else 0;
    ghost var total := s + |EncodeFrom(defs, u, v, 0)|;
    for i := 0 to |v.parts|
      invariant s + |EncodeFrom(defs, u, v, i)| == total
      invariant LiveFrom(defs, u, v, 0) <==> LiveFrom(defs, u, v, i)
    {
      NextElement(defs, u, v, i);
      NextLength(defs, u, v, i);
      NextLive(defs, u, v, i);
      var size := SerialSize(defs, u.elem, v.parts[i]);
      if size.None? {
        return None;
      }
      s := s + size.value;
    }
    r := Some(s);
  }
}

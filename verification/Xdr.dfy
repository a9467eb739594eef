/**
 The types and values of XDR (section 4 of RFC 4506) as the library has them:
 xdrpp/types.h and the classes that xdrc emits.
 */
module Xdr {
  import opened Options
  import opened Bytes

  /** A union arm: its case labels, whether `default:` is among them, and its type
      (none for a void arm). */
  datatype Arm = Arm(labels: seq<Word>, isDefault: bool, body: Option<Type>)

  /** Named types refer to the declarations of the interface, so that types can be
      recursive.  Enums, float and double are bit patterns of their size. */
  datatype Type =
    | Int(float: bool)
    | Hyper(float: bool)
    | Bool
    | Opaque(size: nat)               // opaque_array<size>
    | Bytes(max: Word)                // opaque_vec<max>, xstring<max>
    | Array(elem: Type, size: nat)    // xarray<elem, size>
    | Vector(elem: Type, max: Word)   // xvector<elem, max>
    | Pointer(elem: Type)
    | Struct(fields: seq<Type>)
    | Union(boolTag: bool, arms: seq<Arm>)
    | Named(name: nat)
  {
    /** The classes and containers: the types whose values have parts. */
    predicate Composite() { Array? || Vector? || Pointer? || Struct? || Union? }

    /** Whether a length or a tag goes over the wire before the parts. */
    predicate Headed() { Vector? || Pointer? || Union? }
  }

  /** The parts of a union are the one field that is live, or nothing. */
  datatype Value =
    | VInt(w: Word)
    | VHyper(hi: Word, lo: Word)
    | VBool(b: bool)
    | VBytes(bytes: seq<Byte>)
    | VSeq(parts: seq<Value>)
    | VUnion(tag: Word, parts: seq<Value>)
  {
    function Parts(): seq<Value> { if VSeq? || VUnion? then parts else [] }
  }

  // ----- the arms of a union ---------------------------------------------------

  /** The arm that a tag selects: the first with the label, else the default one,
      else none. */
  function Pick(arms: seq<Arm>, tag: Word): (i: int)
    ensures -1 <= i < |arms|
  {
    var i := PickLabel(arms, tag, 0);
    if i != -1 then i else PickDefault(arms, 0)
  }

  function PickLabel(arms: seq<Arm>, tag: Word, from: nat): (i: int)
    requires from <= |arms|
    ensures i == -1 || from <= i < |arms|
    decreases |arms| - from
  {
    if from == |arms| then -1 else if tag in arms[from].labels then from else PickLabel(arms, tag, from + 1)
  }

  function PickDefault(arms: seq<Arm>, from: nat): (i: int)
    requires from <= |arms|
    ensures i == -1 || from <= i < |arms|
    decreases |arms| - from
  {
    if from == |arms| then -1 else if arms[from].isDefault then from else PickDefault(arms, from + 1)
  }

  lemma {:induction false} PickLabelIs(arms: seq<Arm>, tag: Word, from: nat)
    requires from <= |arms|
    ensures var i := PickLabel(arms, tag, from);
      if i == -1 then forall j :: from <= j < |arms| ==> tag !in arms[j].labels
      else tag in arms[i].labels && forall j :: from <= j < i ==> tag !in arms[j].labels
    decreases |arms| - from
  {
    if from < |arms| && tag !in arms[from].labels {
      PickLabelIs(arms, tag, from + 1);
    }
  }

  lemma {:induction false} PickDefaultIs(arms: seq<Arm>, from: nat)
    requires from <= |arms|
    ensures var i := PickDefault(arms, from);
      if i == -1 then forall j :: from <= j < |arms| ==> !arms[j].isDefault
      else arms[i].isDefault && forall j :: from <= j < i ==> !arms[j].isDefault
    decreases |arms| - from
  {
    if from < |arms| && !arms[from].isDefault {
      PickDefaultIs(arms, from + 1);
    }
  }

  /** A tag selects the arm with its label; without one the default arm; without that none. */
  lemma {:induction false} PickIs(arms: seq<Arm>, tag: Word)
    ensures var i := Pick(arms, tag);
      if exists j :: 0 <= j < |arms| && tag in arms[j].labels then i != -1 && tag in arms[i].labels
      else if exists j :: 0 <= j < |arms| && arms[j].isDefault then i != -1 && arms[i].isDefault
      else i == -1
  {
    PickLabelIs(arms, tag, 0);
    PickDefaultIs(arms, 0);
  }

  /** The type of the field that `tag` makes live. */
  function Field(arms: seq<Arm>, tag: Word): Option<Type> {
    var i := Pick(arms, tag);
    if i == -1 then None else arms[i].body
  }

  // ----- parts -----------------------------------------------------------------

  /** The word that goes before the parts: the tag, or the number of parts where that
      varies.  Arrays and structs have none, and use 0. */
  function Head(u: Type, v: Value): Word {
    if v.VUnion? then v.tag
    else if u.Headed() && |v.Parts()| < 0x1_0000_0000 then |v.Parts()|
    else 0
  }

  /** How many parts go with a head. */
  function Count(t: Type, head: Word): nat {
    match t
    case Array(_, size) => size
    case Vector(_, _) => head
    case Pointer(_) => head
    case Struct(fields) => |fields|
    case Union(_, arms) => if Field(arms, head).Some? then 1 else 0
    case _ => 0
  }

  /** The type of part `i` under a head (any type, where there is no such part). */
  function Part(t: Type, head: Word, i: nat): (p: Type)
    ensures i < Count(t, head) ==> p < t
  {
    match t
    case Array(elem, _) => elem
    case Vector(elem, _) => elem
    case Pointer(elem) => elem
    case Struct(fields) => if i < |fields| then fields[i] else Bool
    case Union(_, arms) => if Field(arms, head).Some? then Field(arms, head).value else Bool
    case _ => Bool
  }

  // ----- declarations ----------------------------------------------------------

  /** Every name in `t` is one of `n` declarations. */
  predicate Closed(t: Type, n: nat) {
    match t
    case Named(i) => i < n
    case Array(e, _) => Closed(e, n)
    case Vector(e, _) => Closed(e, n)
    case Pointer(e) => Closed(e, n)
    case Struct(fields) => forall i :: 0 <= i < |fields| ==> Closed(fields[i], n)
    case Union(_, arms) => forall i :: 0 <= i < |arms| && arms[i].body.Some? ==> Closed(arms[i].body.value, n)
    case _ => true
  }

  datatype Kind = Bools | Floats

  /** No bool (not even as the tag of a union), or no float or double, in the type. */
  predicate Free(kind: Kind, t: Type) {
    match t
    case Bool => kind != Bools
    case Int(float) => !float || kind != Floats
    case Hyper(float) => !float || kind != Floats
    case Array(e, _) => Free(kind, e)
    case Vector(e, _) => Free(kind, e)
    case Pointer(e) => Free(kind, e)
    case Struct(fields) => forall i :: 0 <= i < |fields| ==> Free(kind, fields[i])
    case Union(boolTag, arms) =>
      && !(boolTag && kind == Bools)
      && forall i :: 0 <= i < |arms| && arms[i].body.Some? ==> Free(kind, arms[i].body.value)
    case _ => true
  }

  predicate DefsFree(kind: Kind, defs: seq<Type>) {
    forall i :: 0 <= i < |defs| ==> Free(kind, defs[i])
  }

  /** One more than the greatest name that `t` contains directly, that is, not behind
      a vector or a pointer, which are allocated separately. */
  function Rank(t: Type): nat
    decreases t, 1, 0
  {
    match t
    case Named(i) => i + 1
    case Array(e, _) => Rank(e)
    case Struct(fields) => RankFrom(t, 0)
    case Union(_, arms) => RankFrom(t, 0)
    case _ => 0
  }

  function RankFrom(t: Type, i: nat): nat
    decreases t, 0, (if t.Struct? then |t.fields| else if t.Union? then |t.arms| else 0) - i
  {
    if t.Struct? && i < |t.fields| then
      var r, s := Rank(t.fields[i]), RankFrom(t, i + 1);
      if r < s then s else r
    else if t.Union? && i < |t.arms| then
      var r, s := if t.arms[i].body.Some? then Rank(t.arms[i].body.value) else 0, RankFrom(t, i + 1);
      if r < s then s else r
    else 0
  }

  /** The declarations of an interface file: structs and unions, each complete before
      it is used other than behind a vector or a pointer. */
  predicate WellFormed(defs: seq<Type>) {
    forall i :: 0 <= i < |defs| ==>
      (defs[i].Struct? || defs[i].Union?) && Closed(defs[i], |defs|) && Rank(defs[i]) <= i
  }

  /** The type that a name stands for. */
  function Resolve(defs: seq<Type>, t: Type): Type {
    if t.Named? && t.name < |defs| then defs[t.name] else t
  }

  lemma {:induction false} RankFromCovers(t: Type, i: nat, j: nat)
    requires i <= j
    ensures t.Struct? && j < |t.fields| ==> Rank(t.fields[j]) <= RankFrom(t, i)
    ensures t.Union? && j < |t.arms| && t.arms[j].body.Some? ==> Rank(t.arms[j].body.value) <= RankFrom(t, i)
    decreases j - i
  {
    if i < j {
      RankFromCovers(t, i + 1, j);
    }
  }

  /** A part is closed, and unless it is allocated separately it refers to no later
      declaration than the whole. */
  lemma {:induction false} PartRefers(t: Type, head: Word, i: nat, n: nat)
    requires Closed(t, n) && i < Count(t, head)
    ensures Closed(Part(t, head, i), n)
    ensures !t.Vector? && !t.Pointer? ==> Rank(Part(t, head, i)) <= Rank(t)
  {
    if t.Struct? {
      RankFromCovers(t, 0, i);
    } else if t.Union? {
      RankFromCovers(t, 0, Pick(t.arms, head));
    }
  }

  // ----- values in memory ------------------------------------------------------

  predicate LeafShaped(t: Type, v: Value) {
    match t
    case Int(_) => v.VInt?
    case Hyper(_) => v.VHyper?
    case Bool => v.VBool?
    case Opaque(n) => v.VBytes? && |v.bytes| == n
    case Bytes(_) => v.VBytes? && |v.bytes| < 0x1_0000_0000
    case _ => false
  }

  predicate NodeShaped(u: Type, v: Value) {
    && (if u.Union? then v.VUnion? && (u.boolTag ==> v.tag <= 1) else v.VSeq?)
    && |v.Parts()| == Count(u, Head(u, v))
    && (u.Pointer? ==> |v.Parts()| <= 1)
  }

  /** `v` is laid out as an object of type `t`: a union holds the field that its tag
      selects, but lengths may exceed the declared maximum and a tag may have no arm. */
  predicate Shaped(defs: seq<Type>, t: Type, v: Value)
    decreases v
  {
    var u := Resolve(defs, t);
    if u.Composite() then
      NodeShaped(u, v) && forall i :: 0 <= i < |v.Parts()| ==> Shaped(defs, Part(u, Head(u, v), i), v.Parts()[i])
    else LeafShaped(u, v)
  }

  /** Every union in `v` has an arm for its tag. */
  predicate Live(defs: seq<Type>, t: Type, v: Value)
    decreases v
  {
    var u := Resolve(defs, t);
    && (u.Union? ==> Pick(u.arms, Head(u, v)) != -1)
    && forall i :: 0 <= i < |v.Parts()| ==> Live(defs, Part(u, Head(u, v), i), v.Parts()[i])
  }

  /** No length in `v` exceeds its declared maximum. */
  predicate InBounds(defs: seq<Type>, t: Type, v: Value)
    decreases v
  {
    var u := Resolve(defs, t);
    && (u.Vector? ==> |v.Parts()| <= u.max)
    && (u.Bytes? && v.VBytes? ==> |v.bytes| <= u.max)
    && forall i :: 0 <= i < |v.Parts()| ==> InBounds(defs, Part(u, Head(u, v), i), v.Parts()[i])
  }

  /** The nesting depth of classes and containers in `v`. */
  function Depth(defs: seq<Type>, t: Type, v: Value): nat
    decreases v, 1, 0
  {
    var u := Resolve(defs, t);
    if u.Composite() then 1 + DepthFrom(defs, u, v, 0) else 0
  }

  /** The greatest depth of a part from `i` on. */
  function DepthFrom(defs: seq<Type>, u: Type, v: Value, i: nat): nat
    requires i <= |v.Parts()|
    decreases v, 0, |v.Parts()| - i
  {
    if i == |v.Parts()| then 0
    else
      var d, e := Depth(defs, Part(u, Head(u, v), i), v.Parts()[i]), DepthFrom(defs, u, v, i + 1);
      if d < e then e else d
  }
}

/**
 The encoding of XDR values and its inverse: xdrpp/marshal.h, xdrpp/marshal.cc and
 the traits of xdrpp/types.h that drive them.
 */
module Codec {
  import opened Bytes
  import opened Xdr

  // ----- encoding --------------------------------------------------------------

  /** The length with its padding. */
  function Padded(n: nat): (m: nat)
    ensures n <= m < n + 4 && m % 4 == 0
  {
    (n + 3) / 4 * 4
  }

  function Zeros(n: nat): (s: seq<Byte>)
    ensures |s| == n && forall i :: 0 <= i < n ==> s[i] == 0
  {
    seq(n, _ => 0)
  }

  function EncodeBytes(b: seq<Byte>): (s: seq<Byte>)
    ensures |s| == Padded(|b|)
  {
    b + Zeros(Padded(|b|) - |b|)
  }

  function EncodeLeaf(t: Type, v: Value): seq<Byte> {
    match v
    case VInt(w) => Be32(w)
    case VHyper(hi, lo) => Be32(hi) + Be32(lo)
    case VBool(b) => Be32(if b then 1 else 0)
    case VBytes(b) =>
      if t.Bytes? && |b| < 0x1_0000_0000 then Be32(|b|) + EncodeBytes(b) else EncodeBytes(b)
    case _ => []
  }

  function EncodeHead(u: Type, head: Word): seq<Byte> {
    if u.Headed() then Be32(head) else []
  }

  function Encode(defs: seq<Type>, t: Type, v: Value): seq<Byte>
    decreases v, 1, 0
  {
    var u := Resolve(defs, t);
    if u.Composite() then EncodeHead(u, Head(u, v)) + EncodeFrom(defs, u, v, 0) else EncodeLeaf(u, v)
  }

  /** The parts from `i` on. */
  function EncodeFrom(defs: seq<Type>, u: Type, v: Value, i: nat): seq<Byte>
    requires i <= |v.Parts()|
    decreases v, 0, |v.Parts()| - i
  {
    if i == |v.Parts()| then []
    else Encode(defs, Part(u, Head(u, v), i), v.Parts()[i]) + EncodeFrom(defs, u, v, i + 1)
  }

  // ----- decoding --------------------------------------------------------------

  datatype Error = Overflow | StackOverflow | BadDiscriminant | ShouldBeZero

  datatype Outcome<+T> = Done(value: T, rest: seq<Byte>) | Fail(error: Error)

  /** The library enforces declared maxima and takes any nonzero word for true, which
      is `Rules(true, false)`; the other decoders serve to state properties of it. */
  datatype Rules = Rules(maxima: bool, strictBool: bool)

  const LIBRARY := Rules(true, false)

  /** Opaque data and its padding.  The library checks for `n` bytes only; its buffer
      is a whole number of words, so that the padding is there too (Get.Source). */
  function DecodeBytes(n: nat, s: seq<Byte>): (r: Outcome<Value>)
    ensures r.Done? ==> |r.rest| <= |s|
  {
    if |s| < Padded(n) then Fail(Overflow)
    else if s[n..Padded(n)] != Zeros(Padded(n) - n) then Fail(ShouldBeZero)
    else Done(VBytes(s[..n]), s[Padded(n)..])
  }

  function DecodeLeaf(rules: Rules, t: Type, s: seq<Byte>): (r: Outcome<Value>)
    ensures r.Done? ==> |r.rest| <= |s|
  {
    if t.Opaque? then DecodeBytes(t.size, s)
    else if |s| < 4 then Fail(Overflow)
    else
      var w, rest := FromBe32(s[..4]), s[4..];
      match t
      case Int(_) => Done(VInt(w), rest)
      case Hyper(_) => if |rest| < 4 then Fail(Overflow) else Done(VHyper(w, FromBe32(rest[..4])), rest[4..])
      case Bool => if rules.strictBool && w > 1 then Fail(BadDiscriminant) else Done(VBool(w != 0), rest)
      case Bytes(max) =>
        if rules.maxima && w > max then Fail(Overflow) else DecodeBytes(w, rest)
      case _ => Fail(Overflow)
  }

  /** The length of a vector or pointer, the tag of a union. */
  function DecodeHead(rules: Rules, u: Type, s: seq<Byte>): (r: Outcome<Word>)
    ensures r.Done? ==> |r.rest| <= |s| && (u.Headed() ==> |r.rest| < |s|)
  {
    if !u.Headed() then Done(0, s)
    else if |s| < 4 then Fail(Overflow)
    else
      var w, rest := FromBe32(s[..4]), s[4..];
      if u.Vector? then if rules.maxima && w > u.max then Fail(Overflow) else Done(w, rest)
      else if u.Pointer? then if w > 1 then Fail(Overflow) else Done(w, rest)
      else if u.Union? && u.boolTag && rules.strictBool && w > 1 then Fail(BadDiscriminant)
      else
        var tag := if u.Union? && u.boolTag && w != 0 then 1 else w;
        if u.Union? && Pick(u.arms, tag) == -1 then Fail(BadDiscriminant) else Done(tag, rest)
  }

  function Node(u: Type, head: Word, parts: seq<Value>): Value {
    if u.Union? then VUnion(head, parts) else VSeq(parts)
  }

  /** Decode with `limit` levels of stack left. */
  function Decode(defs: seq<Type>, rules: Rules, limit: nat, t: Type, s: seq<Byte>): (r: Outcome<Value>)
    requires WellFormed(defs) && Closed(t, |defs|)
    ensures r.Done? ==> |r.rest| <= |s|
    decreases |s|, Rank(t), t, 1, 0
  {
    var u := Resolve(defs, t);
    if !u.Composite() then DecodeLeaf(rules, u, s)
    else if limit == 0 then Fail(StackOverflow)
    else
      var h := DecodeHead(rules, u, s);
      if h.Fail? then Fail(h.error)
      else
        var ps := DecodeParts(defs, rules, limit - 1, u, h.value, 0, h.rest);
        if ps.Fail? then Fail(ps.error)
        else Done(Node(u, h.value, ps.value), ps.rest)
  }

  /** The parts from `i` on. */
  function DecodeParts(defs: seq<Type>, rules: Rules, limit: nat, u: Type, head: Word, i: nat, s: seq<Byte>)
    : (r: Outcome<seq<Value>>)
    requires WellFormed(defs) && Closed(u, |defs|) && i <= Count(u, head)
    ensures r.Done? ==> |r.rest| <= |s| && |r.value| == Count(u, head) - i
    decreases |s|, if u.Vector? || u.Pointer? then Rank(u.elem) else Rank(u), u, 0, Count(u, head) - i
  {
    if i == Count(u, head) then Done([], s)
    else
      PartRefers(u, head, i, |defs|);
      var p := Decode(defs, rules, limit, Part(u, head, i), s);
      if p.Fail? then Fail(p.error)
      else
        var q := DecodeParts(defs, rules, limit, u, head, i + 1, p.rest);
        if q.Fail? then Fail(q.error)
        else Done([p.value] + q.value, q.rest)
  }
}

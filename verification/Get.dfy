/** The decoder of xdrpp/marshal.h: a cursor over a message, overwriting an object. */
module Get {
  import opened Options
  import opened Bytes
  import opened Sequences
  import opened Xdr
  import opened Codec
  import opened RoundTrip
  import opened Canonical
  import opened Sizes
  import Put

  // ----- objects to decode into ---------------------------------------------------

  /** A default-constructed object: zeros, empty containers, and for a union the field
      that tag 0 makes live. */
  function Default(defs: seq<Type>, t: Type): (v: Value)
    requires WellFormed(defs) && Closed(t, |defs|)
    ensures Shaped(defs, t, v)
    decreases Rank(t), t, 1, 0
  {
    var u := Resolve(defs, t);
    if u.Composite() then Node(u, 0, DefaultParts(defs, u, 0, 0))
    else if u.Int? then VInt(0)
    else if u.Hyper? then VHyper(0, 0)
    else if u.Bool? then VBool(false)
    else VBytes(if u.Opaque? then Zeros(u.size) else [])
  }

  /** Default objects for the parts from `i` on, except behind a vector or pointer. */
  function DefaultParts(defs: seq<Type>, u: Type, head: Word, i: nat): (parts: seq<Value>)
    requires WellFormed(defs) && Closed(u, |defs|) && i <= Count(u, head)
    ensures u.Vector? || u.Pointer? ==> parts == []
    ensures !u.Vector? && !u.Pointer? ==> |parts| == Count(u, head) - i
    ensures forall j :: 0 <= j < |parts| ==> Shaped(defs, Part(u, head, i + j), parts[j])
    decreases Rank(u), u, 0, Count(u, head) - i
  {
    if u.Vector? || u.Pointer? || i == Count(u, head) then []
    else
      PartRefers(u, head, i, |defs|);
      [Default(defs, Part(u, head, i))] + DefaultParts(defs, u, head, i + 1)
  }

  predicate AllZero(s: seq<Byte>) {
    forall i :: 0 <= i < |s| ==> s[i] == 0
  }

  lemma ZeroWord()
    ensures AllZero(Be32(0))
  {
  }

  lemma AllZeroAppend(a: seq<Byte>, b: seq<Byte>)
    requires AllZero(a) && AllZero(b)
    ensures AllZero(a + b)
  {
  }

  /** A default object is the one that is written as zeros throughout. */
  lemma {:induction false} DefaultIsZero(defs: seq<Type>, t: Type)
    requires WellFormed(defs) && Closed(t, |defs|)
    ensures AllZero(Encode(defs, t, Default(defs, t)))
    decreases Rank(t), t, 1, 0
  {
    var u := Resolve(defs, t);
    ZeroWord();
    if u.Composite() {
      DefaultNode(defs, u);
      var v := Node(u, 0, DefaultParts(defs, u, 0, 0));
      DefaultPartsAreZero(defs, u, v, 0, 0);
      AllZeroAppend(EncodeHead(u, 0), EncodeFrom(defs, u, v, 0));
    } else {
      AllZeroAppend(Be32(0), Be32(0));
      AllZeroAppend(Be32(0), EncodeBytes([]));
      if u.Opaque? {
        AllZeroAppend(Zeros(u.size), Zeros(Padded(u.size) - u.size));
      }
    }
  }

  lemma {:induction false} DefaultNode(defs: seq<Type>, u: Type)
    requires WellFormed(defs) && Closed(u, |defs|) && u.Composite()
    ensures var v := Node(u, 0, DefaultParts(defs, u, 0, 0)); Head(u, v) == 0 && v.Parts() == DefaultParts(defs, u, 0, 0)
  {
  }

  lemma {:induction false} DefaultPartsAreZero(defs: seq<Type>, u: Type, v: Value, head: Word, i: nat)
    requires WellFormed(defs) && Closed(u, |defs|) && u.Composite() && Head(u, v) == head && i <= |v.Parts()|
    requires i <= Count(u, head) && From(v.Parts(), i) == DefaultParts(defs, u, head, i)
    ensures AllZero(EncodeFrom(defs, u, v, i))
    decreases Rank(u), u, 0, Count(u, head) - i
  {
    if i < |v.Parts()| {
      PartRefers(u, head, i, |defs|);
      assert From(v.Parts(), i)[0] == v.Parts()[i] == Default(defs, Part(u, head, i));
      var more := DefaultParts(defs, u, head, i + 1);
      forall k | 0 <= k < |From(v.Parts(), i + 1)| ensures From(v.Parts(), i + 1)[k] == more[k] {
        assert From(v.Parts(), i)[k + 1] == ([Default(defs, Part(u, head, i))] + more)[k + 1];
      }
      DefaultIsZero(defs, Part(u, head, i));
      DefaultPartsAreZero(defs, u, v, head, i + 1);
      AllZeroAppend(Encode(defs, Part(u, head, i), v.Parts()[i]), EncodeFrom(defs, u, v, i + 1));
    }
  }

  // ----- the cursor -----------------------------------------------------------------

  /** The outcome of decoding part by part: `parts` and then what `more` gives. */
  function After(parts: seq<Value>, more: Outcome<seq<Value>>): Outcome<seq<Value>> {
    if more.Done? then Done(parts + more.value, more.rest) else more
  }

  predicate EachShaped(defs: seq<Type>, u: Type, head: Word, parts: seq<Value>) {
    forall j :: 0 <= j < |parts| ==> Shaped(defs, Part(u, head, j), parts[j])
  }

  lemma {:induction false} ReplacedIsShaped(defs: seq<Type>, u: Type, head: Word, parts: seq<Value>, i: nat, part: Value)
    requires EachShaped(defs, u, head, parts) && i < |parts| && Shaped(defs, Part(u, head, i), part)
    ensures EachShaped(defs, u, head, parts[i := part])
  {
  }

  lemma {:induction false} ExtendedIsShaped(defs: seq<Type>, u: Type, head: Word, parts: seq<Value>, part: Value)
    requires EachShaped(defs, u, head, parts) && Shaped(defs, Part(u, head, |parts|), part)
    ensures EachShaped(defs, u, head, parts + [part])
  {
  }

  /** The number of parts that an object has while they are decoded: a vector or a
      pointer grows as it goes, anything else has them all. */
  predicate Sized(u: Type, head: Word, parts: seq<Value>) {
    |parts| <= Count(u, head) && (u.Vector? || u.Pointer? || |parts| == Count(u, head))
  }

  /** A partly decoded object is well-formed. */
  lemma PartialIsShaped(defs: seq<Type>, u: Type, head: Word, parts: seq<Value>)
    requires u.Composite() && EachShaped(defs, u, head, parts) && Sized(u, head, parts)
    requires (u.Pointer? || (u.Union? && u.boolTag)) ==> head <= 1
    ensures PartsShaped(defs, u, Node(u, head, parts))
  {
    var v := Node(u, head, parts);
    forall j | 0 <= j < |v.Parts()| ensures Shaped(defs, Part(u, Head(u, v), j), v.Parts()[j]) {
      assert Part(u, Head(u, v), j) == Part(u, head, j);
    }
  }

  /** The parts of `dest` as they are prepared for decoding under a head: a container
      that is too long is cut, a union whose live field changes gets a new one. */
  function Prepared(defs: seq<Type>, u: Type, head: Word, dest: Value): (parts: seq<Value>)
    requires WellFormed(defs) && Closed(u, |defs|) && u.Composite() && PartsShaped(defs, u, dest)
    ensures Sized(u, head, parts)
  {
    if u.Vector? || u.Pointer? then if |dest.parts| > head then dest.parts[..head] else dest.parts
    else if u.Union? then
      if Field(u.arms, head).None? then []
      else if Pick(u.arms, head) == Pick(u.arms, dest.tag) then dest.parts
      else PartRefers(u, head, 0, |defs|); [Default(defs, Part(u, head, 0))]
    else dest.parts
  }

  lemma {:induction false} PreparedIsShaped(defs: seq<Type>, u: Type, head: Word, dest: Value)
    requires WellFormed(defs) && Closed(u, |defs|) && u.Composite() && PartsShaped(defs, u, dest)
    ensures EachShaped(defs, u, head, Prepared(defs, u, head, dest))
  {
    var parts := Prepared(defs, u, head, dest);
    forall j | 0 <= j < |parts| ensures Shaped(defs, Part(u, head, j), parts[j]) {
      if u.Union? && Pick(u.arms, head) != Pick(u.arms, dest.tag) {
        PartRefers(u, head, 0, |defs|);
      } else {
        assert parts[j] == dest.Parts()[j] && Part(u, head, j) == Part(u, Head(u, dest), j);
      }
    }
  }

  lemma AfterNothing(more: Outcome<seq<Value>>)
    ensures After([], more) == more
  {
    if more.Done? {
      assert [] + more.value == more.value;
    }
  }

  lemma AfterAll(whole: Outcome<seq<Value>>, parts: seq<Value>, rest: seq<Byte>)
    requires whole == After(parts[..|parts|], Done([], rest))
    ensures whole == Done(parts, rest)
  {
    assert parts[..|parts|] + [] == parts;
  }

  lemma AfterStep(
    defs: seq<Type>, limit: nat, u: Type, head: Word, i: nat, s: seq<Byte>, done: seq<Value>, whole: Outcome<seq<Value>>)
    requires WellFormed(defs) && Closed(u, |defs|) && i < Count(u, head) && Closed(Part(u, head, i), |defs|)
    requires whole == After(done, DecodeParts(defs, LIBRARY, limit, u, head, i, s))
    ensures var p := Decode(defs, LIBRARY, limit, Part(u, head, i), s);
      if p.Fail? then whole == Fail(p.error)
      else whole == After(done + [p.value], DecodeParts(defs, LIBRARY, limit, u, head, i + 1, p.rest))
  {
    var p := Decode(defs, LIBRARY, limit, Part(u, head, i), s);
    if p.Done? {
      var q := DecodeParts(defs, LIBRARY, limit, u, head, i + 1, p.rest);
      if q.Done? {
        assert done + ([p.value] + q.value) == done + [p.value] + q.value;
      }
    }
  }

  /** xdr_generic_get. */
  class Source {
    const data: seq<Byte>
    var p: nat
    var stackLimit: Word

    ghost predicate Valid()
      reads this
    {
      p <= |data| && p % 4 == 0 && |data| % 4 == 0
    }

    ghost function Rest(): seq<Byte>
      requires p <= |data|
      reads this
    {
      data[p..]
    }

    constructor (data: seq<Byte>, limit: Word)
      requires |data| % 4 == 0
      ensures Valid() && this.data == data && p == 0 && stackLimit == limit
    {
      this.data, p, stackLimit := data, 0, limit;
    }

    /** get32. */
    method Get32() returns (w: Word)
      requires Valid() && p + 4 <= |data|
      modifies this`p
      ensures Valid() && p == old(p) + 4
      ensures w == FromBe32(old(Rest())[..4]) && Rest() == old(Rest())[4..]
    {
      w := FromBe32(data[p..p + 4]);
      assert Rest()[..4] == data[p..p + 4];
      p := p + 4;
    }

    /** get_bytes: the bytes, and the padding up to a whole number of words, which must
        be zeros. */
    method GetBytes(n: nat) returns (r: Option<Error>, v: Value)
      requires Valid() && p + n <= |data|
      modifies this`p
      ensures Valid() && p >= old(p) && v.VBytes? && |v.bytes| == n
      ensures var o := DecodeBytes(n, old(Rest()));
        if r.None? then o == Done(v, Rest()) else o == Fail(r.value)
    {
      ghost var s := Rest();
      Put.PaddingFits(p, n, |data|);
      v := VBytes(data[p..p + n]);
      assert data[p..p + n] == s[..n];
      var len := n;
      while len % 4 != 0
        invariant p == old(p) && n <= len && Padded(len) == Padded(n)
        invariant forall k :: n <= k < len ==> s[k] == 0
        decreases Padded(n) - len
      {
        Put.PaddedNext(len);
        if data[p + len] != 0 {
          assert s[n..Padded(n)][len - n] != 0;
          return Some(ShouldBeZero), v;
        }
        len := len + 1;
      }
      Put.PaddedNext(len);
      assert s[n..Padded(n)] == Zeros(Padded(n) - n);
      p := p + len;
      assert Rest() == s[len..];
      r := None;
    }

    /** operator() for numbers and bytes; the old contents do not matter. */
    method GetLeaf(t: Type, dest: Value) returns (r: Option<Error>, v: Value)
      requires Valid() && LeafShaped(t, dest)
      modifies this`p
      ensures Valid() && p >= old(p) && LeafShaped(t, v)
      ensures var o := DecodeLeaf(LIBRARY, t, old(Rest()));
        if r.None? then o == Done(v, Rest()) else o == Fail(r.value)
    {
      if t.Opaque? {
        if |dest.bytes| > |data| - p {
          return Some(Overflow), dest;
        }
        r, v := GetBytes(|dest.bytes|);
      } else if 4 > |data| - p {
        r, v := Some(Overflow), dest;
      } else if t.Bytes? {
        r, v := GetCounted(t, dest);
      } else if t.Hyper? {
        if 8 > |data| - p {
          return Some(Overflow), dest;
        }
        var hi := Get32();
        var lo := Get32();
        r, v := None, VHyper(hi, lo);
      } else {
        var w := Get32();
        r, v := None, if t.Int? then VInt(w) else VBool(w != 0);
      }
    }

    /** A counted byte string; `resize` checks the maximum. */
    method GetCounted(t: Type, dest: Value) returns (r: Option<Error>, v: Value)
      requires Valid() && t.Bytes? && LeafShaped(t, dest) && p + 4 <= |data|
      modifies this`p
      ensures Valid() && p >= old(p) && LeafShaped(t, v)
      ensures var o := DecodeLeaf(LIBRARY, t, old(Rest()));
        if r.None? then o == Done(v, Rest()) else o == Fail(r.value)
    {
      var size := Get32();
      if size > |data| - p {
        return Some(Overflow), dest;
      }
      if size > t.max {
        return Some(Overflow), dest;
      }
      r, v := GetBytes(size);
    }

    /** The length or the tag, with check_size and the check of the discriminant. */
    method GetHead(u: Type) returns (r: Option<Error>, head: Word)
      requires Valid() && u.Composite()
      modifies this`p
      ensures Valid() && p >= old(p)
      ensures r.None? && u.Headed() ==> p > old(p)
      ensures r.None? && (u.Pointer? || (u.Union? && u.boolTag)) ==> head <= 1
      ensures var o := DecodeHead(LIBRARY, u, old(Rest()));
        if r.None? then o == Done(head, Rest()) else o == Fail(r.value)
    {
      if !u.Headed() {
        return None, 0;
      }
      if 4 > |data| - p {
        return Some(Overflow), 0;
      }
      head := Get32();
      if u.Union? {
        if u.boolTag && head != 0 {
          head := 1;
        }
        r := if Pick(u.arms, head) == -1 then Some(BadDiscriminant) else None;
      } else {
        r := if head > (if u.Vector? then u.max else 1) then Some(Overflow) else None;
      }
    }

    /** operator(): the outcome is that of Decode on what remains, whatever the object
        held before; the cursor never leaves the message, and on success the stack limit
        is restored.  The object stays well-formed also when decoding fails half way. */
    method Get(defs: seq<Type>, t: Type, dest: Value) returns (r: Option<Error>, v: Value)
      requires Valid() && WellFormed(defs) && Closed(t, |defs|) && Shaped(defs, t, dest)
      modifies this
      ensures Valid() && p >= old(p) && Shaped(defs, t, v)
      ensures var o := Decode(defs, LIBRARY, old(stackLimit), t, old(Rest()));
        if r.None? then o == Done(v, Rest()) && stackLimit == old(stackLimit) else o == Fail(r.value)
      decreases |data| - p, Rank(t), t, 3
    {
      var u := Resolve(defs, t);
      if !u.Composite() {
        r, v := GetLeaf(u, dest);
        return;
      }
      if stackLimit == 0 {
        stackLimit := 0xffff_ffff;
        return Some(StackOverflow), dest;
      }
      stackLimit := stackLimit - 1;
      DecodeNode(defs, LIBRARY, old(stackLimit), t, Rest());
      r, v := Load(defs, u, dest);
      if r.Some? {
        return;
      }
      stackLimit := stackLimit + 1;
    }

    /** xdr_traits::load. */
    method Load(defs: seq<Type>, u: Type, dest: Value) returns (r: Option<Error>, v: Value)
      requires Valid() && WellFormed(defs) && Closed(u, |defs|) && u.Composite() && PartsShaped(defs, u, dest)
      modifies this
      ensures Valid() && p >= old(p) && PartsShaped(defs, u, v)
      ensures var h := DecodeHead(LIBRARY, u, old(Rest()));
        if h.Fail? then r == Some(h.error)
        else
          var o := DecodeParts(defs, LIBRARY, old(stackLimit), u, h.value, 0, h.rest);
          if r.None? then o.Done? && v == Node(u, h.value, o.value) && o.rest == Rest() && stackLimit == old(stackLimit)
          else o == Fail(r.value)
      decreases |data| - p, Rank(u), u, 2
    {
      var head;
      r, head := GetHead(u);
      if r.Some? {
        return r, dest;
      }
      var parts;
      PreparedIsShaped(defs, u, head, dest);
      r, parts := GetParts(defs, u, head, Prepared(defs, u, head, dest));
      v := Node(u, head, parts);
      PartialIsShaped(defs, u, head, parts);
    }

    /** Decodes part `i`; extend_at makes room for it if the object did not have it. */
    method GetNext(defs: seq<Type>, u: Type, head: Word, i: nat, dest: seq<Value>, ghost whole: Outcome<seq<Value>>)
      returns (r: Option<Error>, parts: seq<Value>)
      requires Valid() && WellFormed(defs) && Closed(u, |defs|) && i < Count(u, head) && i <= |dest|
      requires Sized(u, head, dest) && EachShaped(defs, u, head, dest)
      requires whole == After(dest[..i], DecodeParts(defs, LIBRARY, stackLimit, u, head, i, Rest()))
      modifies this
      ensures Valid() && p >= old(p)
      ensures i < |parts| && Sized(u, head, parts) && EachShaped(defs, u, head, parts)
      ensures r.None? ==> whole == After(parts[..i + 1], DecodeParts(defs, LIBRARY, stackLimit, u, head, i + 1, Rest()))
      ensures if r.None? then stackLimit == old(stackLimit) else whole == Fail(r.value)
      decreases |data| - p, if u.Vector? || u.Pointer? then Rank(u.elem) else Rank(u), u, 0
    {
      PartRefers(u, head, i, |defs|);
      parts := ExtendAt(defs, u, head, i, dest);
      AfterStep(defs, stackLimit, u, head, i, Rest(), dest[..i], whole);
      var part;
      r, part := Get(defs, Part(u, head, i), parts[i]);
      ReplacedIsShaped(defs, u, head, parts, i, part);
      parts := parts[i := part];
      assert parts[..i + 1] == dest[..i] + [part];
    }

    /** extend_at. */
    method ExtendAt(defs: seq<Type>, u: Type, head: Word, i: nat, dest: seq<Value>) returns (parts: seq<Value>)
      requires WellFormed(defs) && Closed(u, |defs|) && i < Count(u, head) && i <= |dest|
      requires Sized(u, head, dest) && EachShaped(defs, u, head, dest)
      ensures i < |parts| && Sized(u, head, parts) && EachShaped(defs, u, head, parts)
      ensures dest <= parts
    {
      parts := dest;
      if i == |dest| {
        PartRefers(u, head, i, |defs|);
        ExtendedIsShaped(defs, u, head, dest, Default(defs, Part(u, head, i)));
        parts := dest + [Default(defs, Part(u, head, i))];
      }
    }

    /** The elements of a container, the fields of a struct, the live field of a union. */
    method GetParts(defs: seq<Type>, u: Type, head: Word, dest: seq<Value>) returns (r: Option<Error>, parts: seq<Value>)
      requires Valid() && WellFormed(defs) && Closed(u, |defs|) && u.Composite()
      requires Sized(u, head, dest) && EachShaped(defs, u, head, dest)
      modifies this
      ensures Valid() && p >= old(p)
      ensures Sized(u, head, parts) && EachShaped(defs, u, head, parts)
      ensures var o := DecodeParts(defs, LIBRARY, old(stackLimit), u, head, 0, old(Rest()));
        if r.None? then o == Done(parts, Rest()) && stackLimit == old(stackLimit) else o == Fail(r.value)
      decreases |data| - p, if u.Vector? || u.Pointer? then Rank(u.elem) else Rank(u), u, 1
    {
      ghost var whole := DecodeParts(defs, LIBRARY, stackLimit, u, head, 0, Rest());
      parts := dest;
      AfterNothing(whole);
      for i := 0 to Count(u, head)
        invariant Valid() && p >= old(p) && stackLimit == old(stackLimit)
        invariant i <= |parts| && Sized(u, head, parts) && EachShaped(defs, u, head, parts)
        invariant whole == After(parts[..i], DecodeParts(defs, LIBRARY, stackLimit, u, head, i, Rest()))
      {
        r, parts := GetNext(defs, u, head, i, parts, whole);
        if r.Some? {
          return;
        }
      }
      r := None;
      AfterAll(whole, parts, Rest());
    }
  }
}

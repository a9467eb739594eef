/** The encoder of xdrpp/marshal.h: a cursor moving over a buffer. */
module Put {
  import opened Options
  import opened Bytes
  import opened Xdr
  import opened Codec
  import opened RoundTrip
  import opened Sizes

  /** `buffer` with `code` written at `p`. */
  function Written(buffer: seq<Byte>, p: nat, code: seq<Byte>): (r: seq<Byte>)
    requires p + |code| <= |buffer|
    ensures |r| == |buffer|
  {
    buffer[..p] + code + buffer[p + |code|..]
  }

  lemma WrittenTwice(buffer: seq<Byte>, p: nat, a: seq<Byte>, b: seq<Byte>)
    requires p + |a| + |b| <= |buffer|
    ensures Written(Written(buffer, p, a), p + |a|, b) == Written(buffer, p, a + b)
  {
  }

  lemma WrittenNothing(buffer: seq<Byte>, p: nat)
    requires p <= |buffer|
    ensures Written(buffer, p, []) == buffer
  {
  }

  /** Nothing before `p` and nothing from `e` on has changed. */
  predicate Kept(before: seq<Byte>, after: seq<Byte>, p: nat, e: nat)
    requires p <= e <= |before|
  {
    |after| == |before| && after[..p] == before[..p] && after[e..] == before[e..]
  }

  lemma WrittenKeeps(before: seq<Byte>, p: nat, code: seq<Byte>, after: seq<Byte>, e: nat)
    requires p + |code| <= e <= |before| && Kept(Written(before, p, code), after, p + |code|, e)
    ensures Kept(before, after, p, e)
  {
    var mid := Written(before, p, code);
    assert after[..p] == after[..p + |code|][..p];
    assert mid[..p] == before[..p] && mid[..p] == mid[..p + |code|][..p];
    assert mid[e..] == before[e..];
  }

  /** The outcome of encoding: success, or an error with its cause. */
  predicate Settled(r: Option<Error>, live: bool, room: bool, shallow: bool) {
    match r
    case None => live && room && shallow
    case Some(BadDiscriminant) => !live
    case Some(Overflow) => !room
    case Some(StackOverflow) => !shallow
    case Some(ShouldBeZero) => false
  }

  /** Encoding `v` in `space` bytes with `limit` levels of stack ends as `r`. */
  predicate Ends(r: Option<Error>, defs: seq<Type>, t: Type, v: Value, space: int, limit: nat) {
    Settled(r, Live(defs, t, v), |Encode(defs, t, v)| <= space, Depth(defs, t, v) <= limit)
  }

  predicate EndsFrom(r: Option<Error>, defs: seq<Type>, u: Type, v: Value, i: nat, space: int, limit: nat)
    requires i <= |v.Parts()|
  {
    Settled(r, LiveFrom(defs, u, v, i), |EncodeFrom(defs, u, v, i)| <= space, DepthFrom(defs, u, v, i) <= limit)
  }

  /** A failure at part `i` is one from there on. */
  lemma PartFails(r: Option<Error>, defs: seq<Type>, u: Type, v: Value, i: nat, space: int, limit: nat)
    requires i < |v.Parts()| && r.Some? && Ends(r, defs, Part(u, Head(u, v), i), v.Parts()[i], space, limit)
    ensures EndsFrom(r, defs, u, v, i, space, limit)
  {
  }

  /** The parts before `i`, which take `k` bytes, are not what encoding fails on. */
  predicate Passed(defs: seq<Type>, u: Type, v: Value, i: nat, k: nat, limit: nat)
    requires i <= |v.Parts()|
  {
    && (LiveFrom(defs, u, v, 0) <==> LiveFrom(defs, u, v, i))
    && (DepthFrom(defs, u, v, 0) <= limit <==> DepthFrom(defs, u, v, i) <= limit)
    && |EncodeFrom(defs, u, v, 0)| == k + |EncodeFrom(defs, u, v, i)|
  }

  lemma {:induction false} PartPassed(defs: seq<Type>, u: Type, v: Value, i: nat, k: nat, space: int, limit: nat)
    requires i < |v.Parts()| && Passed(defs, u, v, i, k, limit)
    requires Ends(None, defs, Part(u, Head(u, v), i), v.Parts()[i], space, limit)
    ensures Passed(defs, u, v, i + 1, k + |Encode(defs, Part(u, Head(u, v), i), v.Parts()[i])|, limit)
  {
    assert LiveFrom(defs, u, v, i) <==> LiveFrom(defs, u, v, i + 1);
  }

  /** What happens at part `i` happens to the whole. */
  lemma PassedEnds(r: Option<Error>, defs: seq<Type>, u: Type, v: Value, i: nat, k: nat, space: int, limit: nat)
    requires i <= |v.Parts()| && Passed(defs, u, v, i, k, limit) && EndsFrom(r, defs, u, v, i, space - k, limit)
    ensures EndsFrom(r, defs, u, v, 0, space, limit)
  {
  }

  /** The check for `n` bytes covers the padding, because everything is a whole number
      of words. */
  lemma PaddingFits(p: nat, n: nat, e: nat)
    requires p % 4 == 0 && e % 4 == 0 && p + n <= e
    ensures p + Padded(n) <= e && (p + Padded(n)) % 4 == 0
  {
  }

  lemma PaddedNext(n: nat)
    ensures if n % 4 == 0 then Padded(n) == n else Padded(n + 1) == Padded(n) > n
  {
  }

  lemma OneMoreZero(b: seq<Byte>, k: nat)
    ensures b + Zeros(k) + [0] == b + Zeros(k + 1)
  {
  }

  /** xdr_generic_put. */
  class Sink {
    const data: array<Byte>
    const e: nat
    var p: nat
    var stackLimit: Word

    ghost predicate Valid()
      reads this
    {
      p <= e <= data.Length && p % 4 == 0 && e % 4 == 0
    }

    /** `code` has been written since the cursor was at `p0`. */
    ghost predicate Wrote(before: seq<Byte>, p0: nat, code: seq<Byte>)
      reads this, data
    {
      p == p0 + |code| <= |before| && data[..] == Written(before, p0, code)
    }

    constructor (data: array<Byte>, start: nat, end: nat, limit: Word)
      requires start <= end <= data.Length && start % 4 == 0 && end % 4 == 0
      ensures Valid() && this.data == data && p == start && e == end && stackLimit == limit
    {
      this.data, p, e, stackLimit := data, start, end, limit;
    }

    /** put32. */
    method Put32(w: Word)
      requires Valid() && p + 4 <= e
      modifies this`p, data
      ensures Valid() && Wrote(old(data[..]), old(p), Be32(w))
    {
      var b := Be32(w);
      data[p], data[p + 1], data[p + 2], data[p + 3] := b[0], b[1], b[2], b[3];
      p := p + 4;
    }

    /** Writes one byte past `code`. */
    method Store(x: Byte, ghost before: seq<Byte>, ghost code: seq<Byte>, at: nat)
      requires p + |code| == at < data.Length == |before| && data[..] == Written(before, p, code)
      modifies data
      ensures data[..] == Written(before, p, code + [x])
    {
      data[at] := x;
      WrittenTwice(before, p, code, [x]);
    }

    /** put_bytes: the bytes, then zeros up to a whole number of words. */
    method PutBytes(b: seq<Byte>)
      requires Valid() && p + |b| <= e
      modifies this`p, data
      ensures Valid() && Wrote(old(data[..]), old(p), EncodeBytes(b))
    {
      ghost var before := data[..];
      WrittenNothing(before, p);
      for i := 0 to |b|
        invariant p == old(p) && data[..] == Written(before, p, b[..i])
      {
        Store(b[i], before, b[..i], p + i);
        assert b[..i] + [b[i]] == b[..i + 1];
      }
      assert b[..|b|] == b;
      Pad(before, b, |b|);
    }

    method Pad(ghost before: seq<Byte>, ghost code: seq<Byte>, length: nat)
      requires Valid() && p + |code| <= e && |before| == data.Length && length == |code|
      requires data[..] == Written(before, p, code)
      modifies this`p, data
      ensures Valid() && Wrote(before, old(p), EncodeBytes(code))
    {
      PaddingFits(p, length, e);
      assert code + Zeros(0) == code;
      var len := length;
      while len % 4 != 0
        invariant p == old(p) && length <= len && Padded(len) == Padded(length)
        invariant data[..] == Written(before, p, code + Zeros(len - length))
        decreases Padded(length) - len
      {
        PaddedNext(len);
        Store(0, before, code + Zeros(len - length), p + len);
        OneMoreZero(code, len - length);
        len := len + 1;
      }
      PaddedNext(len);
      p := p + len;
    }

    /** operator() for numbers and bytes. */
    method PutLeaf(t: Type, v: Value) returns (r: Option<Error>)
      requires Valid() && LeafShaped(t, v)
      modifies this`p, data
      ensures Valid()
      ensures r == if |EncodeLeaf(t, v)| <= e - old(p) then None else Some(Overflow)
      ensures r.None? ==> Wrote(old(data[..]), old(p), EncodeLeaf(t, v))
      ensures r.Some? ==> data[..] == old(data[..])
    {
      if t.Opaque? {
        r := PutOpaque(t, v);
      } else if t.Bytes? {
        r := PutCounted(t, v);
      } else if t.Hyper? {
        r := PutHyper(t, v);
      } else {
        if 4 > e - p {
          return Some(Overflow);
        }
        Put32(if v.VInt? then v.w else if v.b then 1 else 0);
        r := None;
      }
    }

    method PutHyper(t: Type, v: Value) returns (r: Option<Error>)
      requires Valid() && t.Hyper? && LeafShaped(t, v)
      modifies this`p, data
      ensures Valid()
      ensures r == if |EncodeLeaf(t, v)| <= e - old(p) then None else Some(Overflow)
      ensures r.None? ==> Wrote(old(data[..]), old(p), EncodeLeaf(t, v))
      ensures r.Some? ==> data[..] == old(data[..])
    {
      if 8 > e - p {
        return Some(Overflow);
      }
      Put32(v.hi);
      Put32(v.lo);
      WrittenTwice(old(data[..]), old(p), Be32(v.hi), Be32(v.lo));
      r := None;
    }

    method PutOpaque(t: Type, v: Value) returns (r: Option<Error>)
      requires Valid() && t.Opaque? && LeafShaped(t, v)
      modifies this`p, data
      ensures Valid()
      ensures r == if |EncodeLeaf(t, v)| <= e - old(p) then None else Some(Overflow)
      ensures r.None? ==> Wrote(old(data[..]), old(p), EncodeLeaf(t, v))
      ensures r.Some? ==> data[..] == old(data[..])
    {
      if |v.bytes| > e - p {
        return Some(Overflow);
      }
      PaddingFits(p, |v.bytes|, e);
      PutBytes(v.bytes);
      r := None;
    }

    method PutCounted(t: Type, v: Value) returns (r: Option<Error>)
      requires Valid() && t.Bytes? && LeafShaped(t, v)
      modifies this`p, data
      ensures Valid()
      ensures r == if |EncodeLeaf(t, v)| <= e - old(p) then None else Some(Overflow)
      ensures r.None? ==> Wrote(old(data[..]), old(p), EncodeLeaf(t, v))
      ensures r.Some? ==> data[..] == old(data[..])
    {
      if 4 + |v.bytes| > e - p {
        return Some(Overflow);
      }
      PaddingFits(p + 4, |v.bytes|, e);
      WriteCounted(v.bytes);
      r := None;
    }

    method WriteCounted(b: seq<Byte>)
      requires Valid() && |b| < 0x1_0000_0000 && p + 4 + |b| <= e
      modifies this`p, data
      ensures Valid() && Wrote(old(data[..]), old(p), Be32(|b|) + EncodeBytes(b))
    {
      Put32(|b|);
      PutBytes(b);
      WrittenTwice(old(data[..]), old(p), Be32(|b|), EncodeBytes(b));
    }

    /** operator(): succeeds exactly when every union has an arm, the encoding fits into
        the buffer and the nesting is within the stack limit; then the encoding is in the
        buffer and the limit is restored.  Nothing outside is touched in any case. */
    method Put(defs: seq<Type>, t: Type, v: Value) returns (r: Option<Error>)
      requires Valid() && WellFormed(defs) && Closed(t, |defs|) && Shaped(defs, t, v)
      modifies this, data
      ensures Valid() && Ends(r, defs, t, v, e - old(p), old(stackLimit))
      ensures r.None? ==> Wrote(old(data[..]), old(p), Encode(defs, t, v)) && stackLimit == old(stackLimit)
      ensures r.Some? ==> Kept(old(data[..]), data[..], old(p), e)
      decreases v, 1
    {
      var u := Resolve(defs, t);
      if !u.Composite() {
        r := PutLeaf(u, v);
        return;
      }
      if stackLimit == 0 {
        stackLimit := 0xffff_ffff;
        return Some(StackOverflow);
      }
      stackLimit := stackLimit - 1;
      r := Save(defs, u, v);
      if r.Some? {
        return;
      }
      stackLimit := stackLimit + 1;
    }

    /** xdr_traits::save. */
    method Save(defs: seq<Type>, u: Type, v: Value) returns (r: Option<Error>)
      requires Valid() && WellFormed(defs) && Closed(u, |defs|) && u.Composite() && PartsShaped(defs, u, v)
      modifies this, data
      ensures Valid()
      ensures Settled(r, (u.Union? ==> Pick(u.arms, Head(u, v)) != -1) && LiveFrom(defs, u, v, 0),
                |EncodeHead(u, Head(u, v)) + EncodeFrom(defs, u, v, 0)| <= e - old(p),
                DepthFrom(defs, u, v, 0) <= old(stackLimit))
      ensures r.None? ==> Wrote(old(data[..]), old(p), EncodeHead(u, Head(u, v)) + EncodeFrom(defs, u, v, 0))
      ensures r.None? ==> stackLimit == old(stackLimit)
      ensures r.Some? ==> Kept(old(data[..]), data[..], old(p), e)
      decreases v, 0, 2
    {
      ghost var head, before, p0 := EncodeHead(u, Head(u, v)), data[..], p;
      r := PutHead(u, v);
      if r.Some? {
        return;
      }
      r := PutParts(defs, u, v);
      if r.None? {
        WrittenTwice(before, p0, head, EncodeFrom(defs, u, v, 0));
      } else {
        WrittenKeeps(before, p0, head, data[..], e);
      }
    }

    /** The length or the tag. */
    method PutHead(u: Type, v: Value) returns (r: Option<Error>)
      requires Valid() && u.Composite() && NodeShaped(u, v)
      modifies `p, data
      ensures Valid()
      ensures Settled(r, u.Union? ==> Pick(u.arms, Head(u, v)) != -1, |EncodeHead(u, Head(u, v))| <= e - old(p), true)
      ensures r.None? ==> Wrote(old(data[..]), old(p), EncodeHead(u, Head(u, v)))
      ensures r.Some? ==> Kept(old(data[..]), data[..], old(p), e)
    {
      ghost var before := data[..];
      WrittenNothing(before, p);
      if u.Headed() {
        if 4 > e - p {
          return Some(Overflow);
        }
        Put32(Head(u, v));
        WrittenKeeps(before, old(p), Be32(Head(u, v)), data[..], e);
        if u.Union? && Pick(u.arms, v.tag) == -1 {
          return Some(BadDiscriminant);
        }
      }
      r := None;
    }

    /** One part, after `done`. */
    method PutPart(defs: seq<Type>, t: Type, v: Value, ghost before: seq<Byte>, ghost p0: nat, ghost done: seq<Byte>)
      returns (r: Option<Error>)
      requires Valid() && WellFormed(defs) && Closed(t, |defs|) && Shaped(defs, t, v)
      requires |before| == data.Length && Wrote(before, p0, done)
      modifies this, data
      ensures Valid() && Ends(r, defs, t, v, e - old(p), old(stackLimit))
      ensures r.None? ==> Wrote(before, p0, done + Encode(defs, t, v)) && stackLimit == old(stackLimit)
      ensures r.Some? ==> Kept(before, data[..], p0, e)
      decreases v, 2
    {
      r := Put(defs, t, v);
      if r.Some? {
        WrittenKeeps(before, p0, done, data[..], e);
      } else {
        WrittenTwice(before, p0, done, Encode(defs, t, v));
      }
    }

    /** Parts up to `i` of `v` have been written since the cursor was at `p0`. */
    ghost predicate Progress(defs: seq<Type>, u: Type, v: Value, i: nat, before: seq<Byte>, p0: nat, done: seq<Byte>)
      requires i <= |v.Parts()|
      reads this, data
    {
      && Valid() && |before| == data.Length && Wrote(before, p0, done)
      && done + EncodeFrom(defs, u, v, i) == EncodeFrom(defs, u, v, 0)
      && Passed(defs, u, v, i, |done|, stackLimit)
    }

    method PutNext(
      defs: seq<Type>, u: Type, v: Value, i: nat, ghost before: seq<Byte>, ghost p0: nat, ghost done: seq<Byte>)
      returns (r: Option<Error>, ghost more: seq<Byte>)
      requires WellFormed(defs) && Closed(u, |defs|) && i < |v.Parts()| == Count(u, Head(u, v))
      requires Shaped(defs, Part(u, Head(u, v), i), v.Parts()[i]) && Progress(defs, u, v, i, before, p0, done)
      modifies this, data
      ensures r.None? ==> Progress(defs, u, v, i + 1, before, p0, more) && stackLimit == old(stackLimit)
      ensures r.Some? ==> Valid() && EndsFrom(r, defs, u, v, 0, e - p0, old(stackLimit)) && Kept(before, data[..], p0, e)
      decreases v, 0, 0
    {
      ghost var t, part := Part(u, Head(u, v), i), v.Parts()[i];
      PartRefers(u, Head(u, v), i, |defs|);
      r := PutPart(defs, Part(u, Head(u, v), i), v.Parts()[i], before, p0, done);
      more := done + Encode(defs, t, part);
      if r.Some? {
        PartFails(r, defs, u, v, i, e - old(p), old(stackLimit));
        PassedEnds(r, defs, u, v, i, |done|, e - p0, old(stackLimit));
      } else {
        PartPassed(defs, u, v, i, |done|, e - old(p), stackLimit);
        Associate(done, Encode(defs, t, part), EncodeFrom(defs, u, v, i + 1));
      }
    }

    /** The elements of a container, the fields of a struct, the live field of a union. */
    method PutParts(defs: seq<Type>, u: Type, v: Value) returns (r: Option<Error>)
      requires Valid() && WellFormed(defs) && Closed(u, |defs|) && u.Composite() && PartsShaped(defs, u, v)
      modifies this, data
      ensures Valid() && EndsFrom(r, defs, u, v, 0, e - old(p), old(stackLimit))
      ensures r.None? ==> Wrote(old(data[..]), old(p), EncodeFrom(defs, u, v, 0)) && stackLimit == old(stackLimit)
      ensures r.Some? ==> Kept(old(data[..]), data[..], old(p), e)
      decreases v, 0, 1
    {
      ghost var before, p0, done := data[..], p, [];
      WrittenNothing(before, p);
      for i := 0 to |v.Parts()|
        invariant Progress(defs, u, v, i, before, p0, done) && stackLimit == old(stackLimit)
      {
        r, done := PutNext(defs, u, v, i, before, p0, done);
        if r.Some? {
          return;
        }
      }
      r := None;
      PassedEnds(r, defs, u, v, |v.Parts()|, |done|, e - p0, stackLimit);
      assert done + [] == done;
    }
  }
}

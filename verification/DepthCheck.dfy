/** xdrpp/depth_checker.h: the nesting depth of a value, found without encoding it. */
module DepthCheck {
  import opened Options
  import opened Bytes
  import opened Xdr
  import opened Codec
  import opened RoundTrip
  import opened Sizes

  const MAX: Word := 0xffff_ffff

  /** A 32-bit counter at `current` can go `depth` levels down under a limit; under the
      greatest one it wraps around before it can exceed it. */
  predicate Within(current: Word, depth: nat, limit: Word) {
    limit == MAX || current + depth <= limit
  }

  class DepthChecker {
    const depthLimit: Word
    var currentDepth: Word
    var withinLimit: bool

    constructor (limit: Word)
      ensures depthLimit == limit && currentDepth == 0 && withinLimit
    {
      depthLimit, currentDepth, withinLimit := limit, 0, true;
    }

    /** operator(): the limit is found exceeded exactly when it is, and otherwise the
        counter is back where it was.  `live` is false if save threw, which takes a union
        without an arm for its tag. */
    method Visit(defs: seq<Type>, t: Type, v: Value) returns (live: bool)
      requires WellFormed(defs) && Closed(t, |defs|) && Shaped(defs, t, v)
      requires withinLimit ==> currentDepth <= depthLimit
      modifies this
      ensures Live(defs, t, v) ==> live
      ensures !old(withinLimit) ==> live && !withinLimit
      ensures old(withinLimit) && live ==> Judged(old(currentDepth), Live(defs, t, v), Depth(defs, t, v))
      decreases v, 1
    {
      live := true;
      var u := Resolve(defs, t);
      if !u.Composite() || !withinLimit {
        return;
      }
      currentDepth := if currentDepth == MAX then 0 else currentDepth + 1;
      if currentDepth > depthLimit {
        withinLimit := false;
        return;
      }
      live := VisitParts(defs, u, v);
      if !live {
        return;
      }
      currentDepth := if currentDepth == 0 then MAX else currentDepth - 1;
    }

    ghost predicate Judged(current: Word, live: bool, depth: nat)
      reads this
    {
      && (withinLimit <==> Within(current, depth, depthLimit))
      && (withinLimit ==> live && currentDepth == current)
    }

    /** save: the live field of a union, the fields of a struct, the elements of a
        container. */
    method VisitParts(defs: seq<Type>, u: Type, v: Value) returns (live: bool)
      requires WellFormed(defs) && Closed(u, |defs|) && u.Composite() && PartsShaped(defs, u, v)
      requires withinLimit && currentDepth <= depthLimit
      modifies this
      ensures (u.Union? ==> Pick(u.arms, Head(u, v)) != -1) && LiveFrom(defs, u, v, 0) ==> live
      ensures live ==> (u.Union? ==> Pick(u.arms, Head(u, v)) != -1)
      ensures live ==> Judged(old(currentDepth), LiveFrom(defs, u, v, 0), DepthFrom(defs, u, v, 0))
      decreases v, 0
    {
      if u.Union? && Pick(u.arms, v.tag) == -1 {
        return false;
      }
      for i := 0 to |v.Parts()|
        invariant withinLimit ==> currentDepth == old(currentDepth)
        invariant withinLimit ==> Passed(defs, u, v, i, currentDepth, depthLimit)
        invariant !withinLimit ==> !Within(old(currentDepth), DepthFrom(defs, u, v, 0), depthLimit)
      {
        if withinLimit {
          NextPart(defs, u, v, i, currentDepth, depthLimit);
        }
        PartFits(defs, u, v, i);
        live := Visit(defs, Part(u, Head(u, v), i), v.Parts()[i]);
        if !live {
          return;
        }
      }
      live := true;
    }
  }

  /** Whether the parts of `v` are live and within the limit depends on those from `i` on. */
  predicate Passed(defs: seq<Type>, u: Type, v: Value, i: nat, current: Word, limit: Word)
    requires i <= |v.Parts()|
  {
    && (LiveFrom(defs, u, v, 0) <==> LiveFrom(defs, u, v, i))
    && (Within(current, DepthFrom(defs, u, v, 0), limit) <==> Within(current, DepthFrom(defs, u, v, i), limit))
  }

  lemma {:induction false} PartFits(defs: seq<Type>, u: Type, v: Value, i: nat)
    requires Closed(u, |defs|) && PartsShaped(defs, u, v) && i < |v.Parts()|
    ensures Closed(Part(u, Head(u, v), i), |defs|) && Shaped(defs, Part(u, Head(u, v), i), v.Parts()[i])
  {
    PartRefers(u, Head(u, v), i, |defs|);
  }

  lemma {:induction false} NextPart(defs: seq<Type>, u: Type, v: Value, i: nat, current: Word, limit: Word)
    requires i < |v.Parts()| && Passed(defs, u, v, i, current, limit)
    ensures var p, a := Part(u, Head(u, v), i), v.Parts()[i];
      && (Live(defs, p, a) && Within(current, Depth(defs, p, a), limit) ==> Passed(defs, u, v, i + 1, current, limit))
      && (!Live(defs, p, a) ==> !LiveFrom(defs, u, v, 0))
      && (!Within(current, Depth(defs, p, a), limit) ==> !Within(current, DepthFrom(defs, u, v, 0), limit))
  {
    assert LiveFrom(defs, u, v, i) <==> Live(defs, Part(u, Head(u, v), i), v.Parts()[i]) && LiveFrom(defs, u, v, i + 1);
  }

  /** check_xdr_depth: it holds exactly when the stack limit would not stop the encoder
      (Sink.Put) or the decoder (DecodeOfEncode), except that the counter cannot exceed the
      greatest limit there is.  None is the exception of save, which takes a dead union. */
  method CheckXdrDepth(defs: seq<Type>, t: Type, v: Value, limit: Word) returns (within: Option<bool>)
    requires WellFormed(defs) && Closed(t, |defs|) && Shaped(defs, t, v)
    ensures Live(defs, t, v) ==> within.Some?
    ensures within.Some? ==> (within.value <==> limit == MAX || Depth(defs, t, v) <= limit)
    ensures within == Some(true) ==> Live(defs, t, v)
  {
    var checker := new DepthChecker(limit);
    var live := checker.Visit(defs, t, v);
    within := if live then Some(checker.withinLimit) else None;
  }

  /** With the greatest limit, the check passes a value nested more than 2^32 - 1 deep,
      which neither the encoder nor the decoder does; with any other limit they agree. */
  lemma {:induction false} DepthAgreement(defs: seq<Type>, t: Type, v: Value, limit: Word)
    requires WellFormed(defs) && Closed(t, |defs|) && Sound(defs, t, v) && InBounds(defs, t, v)
    ensures (Within(0, Depth(defs, t, v), limit) <==> Decode(defs, LIBRARY, limit, t, Encode(defs, t, v)).Done?)
      <==> (limit < MAX || Depth(defs, t, v) <= MAX)
  {
    DecodeOfEncode(defs, LIBRARY, limit, t, v, []);
    assert Encode(defs, t, v) + [] == Encode(defs, t, v);
  }

  // ----- values as deep as one likes -----------------------------------------------

  /** A list: a struct whose only field is a pointer to the next one. */
  const LIST: seq<Type> := [Struct([Pointer(Named(0))])]

  function Chain(n: nat): Value {
    VSeq([VSeq(if n == 0 then [] else [Chain(n - 1)])])
  }

  lemma {:induction false} ChainIsDeep(n: nat)
    ensures Sound(LIST, Named(0), Chain(n)) && InBounds(LIST, Named(0), Chain(n))
    ensures Depth(LIST, Named(0), Chain(n)) == 2 * (n + 1)
  {
    var u, v := LIST[0], Chain(n);
    var p, w := Pointer(Named(0)), v.parts[0];
    if n > 0 {
      ChainIsDeep(n - 1);
      assert w.parts == [Chain(n - 1)];
      assert DepthFrom(LIST, p, w, 1) == 0;
    } else {
      assert w.parts == [];
    }
    assert DepthFrom(LIST, p, w, 0) == if n == 0 then 0 else 2 * n;
    assert Shaped(LIST, p, w) && Live(LIST, p, w) && InBounds(LIST, p, w) && Depth(LIST, p, w) == 2 * n + 1;
    assert DepthFrom(LIST, u, v, 1) == 0;
  }

  lemma ListIsWellFormed()
    ensures WellFormed(LIST) && Closed(Named(0), |LIST|)
  {
    assert RankFrom(LIST[0], 1) == 0;
    assert Rank(LIST[0].fields[0]) == 0;
    assert RankFrom(LIST[0], 0) == 0;
  }

  /** So there is a value that the check passes with the greatest limit although neither
      encoding nor decoding it succeeds with that limit. */
  lemma DepthsDisagree() returns (v: Value)
    ensures WellFormed(LIST) && Closed(Named(0), |LIST|) && Sound(LIST, Named(0), v) && InBounds(LIST, Named(0), v)
    ensures Within(0, Depth(LIST, Named(0), v), MAX)
    ensures Decode(LIST, LIBRARY, MAX, Named(0), Encode(LIST, Named(0), v)) == Fail(StackOverflow)
  {
    var n: nat := 0x8000_0000;
    v := Chain(n);
    ListIsWellFormed();
    ChainIsDeep(n);
    DecodeOfEncode(LIST, LIBRARY, MAX, Named(0), v, []);
    assert Encode(LIST, Named(0), v) + [] == Encode(LIST, Named(0), v);
  }
}

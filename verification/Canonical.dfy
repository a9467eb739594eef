/** What the decoder accepts: sound values, and for bool-free types only their encodings. */
module Canonical {
  import opened Bytes
  import opened Sequences
  import opened Xdr
  import opened Codec
  import opened RoundTrip

  /** Decoding can take no word for a bool that is not its encoding. */
  predicate Exact(defs: seq<Type>, rules: Rules, t: Type) {
    rules.strictBool || (DefsFree(Bools, defs) && Free(Bools, t))
  }

  lemma PartExact(defs: seq<Type>, rules: Rules, u: Type, head: Word, i: nat)
    requires Exact(defs, rules, u) && i < Count(u, head)
    ensures Exact(defs, rules, Part(u, head, i))
  {
  }

  /** `s` is `rest` after as many bytes as `code` has; if `exact`, after `code` itself. */
  predicate Splits(exact: bool, s: seq<Byte>, code: seq<Byte>, rest: seq<Byte>) {
    && |s| == |code| + |rest| && s[|code|..] == rest
    && (exact ==> s[..|code|] == code)
  }

  lemma SplitsTwice(exact: bool, s: seq<Byte>, a: seq<Byte>, r: seq<Byte>, b: seq<Byte>, q: seq<Byte>)
    requires Splits(exact, s, a, r) && Splits(exact, r, b, q)
    ensures Splits(exact, s, a + b, q)
  {
    assert s[|a| + |b|..] == s[|a|..][|b|..];
    if exact {
      assert s[..|a| + |b|] == s[..|a|] + s[|a|..][..|b|];
    }
  }

  lemma WordSplits(s: seq<Byte>)
    requires |s| >= 4
    ensures Splits(true, s, Be32(FromBe32(s[..4])), s[4..])
  {
    Be32OfFromBe32(s[..4]);
  }

  lemma BytesSplit(n: nat, s: seq<Byte>)
    requires DecodeBytes(n, s).Done?
    ensures var r := DecodeBytes(n, s);
      r.value.VBytes? && |r.value.bytes| == n && Splits(true, s, EncodeBytes(r.value.bytes), r.rest)
  {
    assert s[..Padded(n)] == s[..n] + s[n..Padded(n)];
  }

  lemma LeafSplits(rules: Rules, exact: bool, u: Type, s: seq<Byte>)
    requires DecodeLeaf(rules, u, s).Done? && (exact ==> rules.strictBool || !u.Bool?)
    ensures var r := DecodeLeaf(rules, u, s);
      && LeafShaped(u, r.value) && Splits(exact, s, EncodeLeaf(u, r.value), r.rest)
      && (rules.maxima && u.Bytes? ==> |r.value.bytes| <= u.max)
  {
    var r := DecodeLeaf(rules, u, s);
    if u.Opaque? {
      BytesSplit(u.size, s);
    } else {
      WordSplits(s);
      var w, rest := FromBe32(s[..4]), s[4..];
      if u.Hyper? {
        WordSplits(rest);
        SplitsTwice(true, s, Be32(w), rest, Be32(r.value.lo), r.rest);
      } else if u.Bytes? {
        BytesSplit(w, rest);
        SplitsTwice(true, s, Be32(w), rest, EncodeBytes(r.value.bytes), r.rest);
      } else if u.Bool? {
      } else {
      }
    }
  }

  lemma HeadSplits(rules: Rules, exact: bool, u: Type, s: seq<Byte>)
    requires DecodeHead(rules, u, s).Done? && (exact && u.Union? ==> rules.strictBool || !u.boolTag)
    ensures var r := DecodeHead(rules, u, s); Splits(exact, s, EncodeHead(u, r.value), r.rest)
  {
    if u.Headed() {
      WordSplits(s);
    }
  }

  /** The value that a decoded head and decoded parts make. */
  lemma NodeOfHead(rules: Rules, u: Type, s: seq<Byte>, parts: seq<Value>)
    requires u.Composite() && DecodeHead(rules, u, s).Done? && |parts| == Count(u, DecodeHead(rules, u, s).value)
    ensures var h := DecodeHead(rules, u, s).value; var v := Node(u, h, parts);
      && NodeShaped(u, v) && v.Parts() == parts && Head(u, v) == h && HeadFits(rules, u, v)
      && (u.Union? ==> Pick(u.arms, h) != -1)
  {
  }

  /** What decoding `s` to `v` and `rest` says about them. */
  predicate Accepted(defs: seq<Type>, rules: Rules, limit: nat, exact: bool, t: Type, s: seq<Byte>, v: Value, rest: seq<Byte>) {
    && Sound(defs, t, v) && Fits(defs, rules, t, v) && Depth(defs, t, v) <= limit
    && Splits(exact, s, Encode(defs, t, v), rest)
  }

  /** The same for the parts of `v` from `i` on. */
  predicate AcceptedFrom(
    defs: seq<Type>, rules: Rules, limit: nat, exact: bool, u: Type, v: Value, i: nat, s: seq<Byte>, rest: seq<Byte>)
    requires i <= |v.Parts()|
  {
    && SoundFrom(defs, u, v, i) && FitsFrom(defs, rules, u, v, i) && DepthFrom(defs, u, v, i) <= limit
    && Splits(exact, s, EncodeFrom(defs, u, v, i), rest)
  }

  predicate SoundFrom(defs: seq<Type>, u: Type, v: Value, i: nat) {
    forall j :: i <= j < |v.Parts()| ==> Sound(defs, Part(u, Head(u, v), j), v.Parts()[j])
  }

  /** Whatever the decoder accepts is a well-formed value within its bounds, as deeply
      nested as the stack limit allows; it consumes as many bytes as the encoding of the
      value has, and exactly that encoding where it cannot misread a bool. */
  lemma {:induction false} AcceptedBy(
    defs: seq<Type>, rules: Rules, limit: nat, exact: bool, t: Type, s: seq<Byte>)
    requires WellFormed(defs) && Closed(t, |defs|) && (exact ==> Exact(defs, rules, t))
    requires Decode(defs, rules, limit, t, s).Done?
    ensures var r := Decode(defs, rules, limit, t, s);
      Accepted(defs, rules, limit, exact, t, s, r.value, r.rest)
    decreases |s|, Rank(t), t, 1, 0
  {
    var u := Resolve(defs, t);
    if u.Composite() {
      var h := DecodeHead(rules, u, s);
      var r := DecodeParts(defs, rules, limit - 1, u, h.value, 0, h.rest);
      var v := Node(u, h.value, r.value);
      NodeOfHead(rules, u, s, r.value);
      assert From(v.Parts(), 0) == r.value;
      PartsAccepted(defs, rules, limit - 1, exact, u, v, 0, h.rest, r.rest);
      WholeAccepted(defs, rules, limit, exact, t, v, s, r.rest);
    } else {
      LeafSplits(rules, exact, u, s);
    }
  }

  /** From the parts to the whole. */
  lemma WholeAccepted(
    defs: seq<Type>, rules: Rules, limit: nat, exact: bool, t: Type, v: Value, s: seq<Byte>, rest: seq<Byte>)
    requires Resolve(defs, t).Composite() && limit > 0 && (exact ==> Exact(defs, rules, t))
    requires var u := Resolve(defs, t); var h := DecodeHead(rules, u, s);
      && h.Done? && |v.Parts()| == Count(u, h.value) && v == Node(u, h.value, v.Parts())
      && AcceptedFrom(defs, rules, limit - 1, exact, u, v, 0, h.rest, rest)
    ensures Accepted(defs, rules, limit, exact, t, s, v, rest)
  {
    var u := Resolve(defs, t);
    var h := DecodeHead(rules, u, s);
    NodeOfHead(rules, u, s, v.Parts());
    HeadSplits(rules, exact, u, s);
    NodeAccepted(defs, rules, limit, exact, t, v, s, h.rest, rest);
  }

  lemma NodeAccepted(
    defs: seq<Type>, rules: Rules, limit: nat, exact: bool, t: Type, v: Value, s: seq<Byte>, r: seq<Byte>, rest: seq<Byte>)
    requires Resolve(defs, t).Composite() && limit > 0
    requires var u := Resolve(defs, t);
      && NodeShaped(u, v) && HeadFits(rules, u, v) && (u.Union? ==> Pick(u.arms, Head(u, v)) != -1)
      && Splits(exact, s, EncodeHead(u, Head(u, v)), r)
      && AcceptedFrom(defs, rules, limit - 1, exact, u, v, 0, r, rest)
    ensures Accepted(defs, rules, limit, exact, t, s, v, rest)
  {
    var u := Resolve(defs, t);
    SplitsTwice(exact, s, EncodeHead(u, Head(u, v)), r, EncodeFrom(defs, u, v, 0), rest);
    FitsParts(defs, rules, t, v);
    forall j | 0 <= j < |v.Parts()|
      ensures Shaped(defs, Part(u, Head(u, v), j), v.Parts()[j]) && Live(defs, Part(u, Head(u, v), j), v.Parts()[j])
    {
      assert Sound(defs, Part(u, Head(u, v), j), v.Parts()[j]);
    }
  }

  lemma {:induction false} PartsAccepted(
    defs: seq<Type>, rules: Rules, limit: nat, exact: bool, u: Type, v: Value, i: nat, s: seq<Byte>, rest: seq<Byte>)
    requires WellFormed(defs) && Closed(u, |defs|) && (exact ==> Exact(defs, rules, u))
    requires NodeShaped(u, v) && i <= |v.Parts()|
    requires DecodeParts(defs, rules, limit, u, Head(u, v), i, s) == Done(From(v.Parts(), i), rest)
    ensures AcceptedFrom(defs, rules, limit, exact, u, v, i, s, rest)
    decreases |s|, if u.Vector? || u.Pointer? then Rank(u.elem) else Rank(u), u, 0, |v.Parts()| - i
  {
    if i < |v.Parts()| {
      PartRefers(u, Head(u, v), i, |defs|);
      if exact {
        PartExact(defs, rules, u, Head(u, v), i);
      }
      var p := Part(u, Head(u, v), i);
      var r := Decode(defs, rules, limit, p, s);
      var q := DecodeParts(defs, rules, limit, u, Head(u, v), i + 1, r.rest);
      Behead(v.Parts(), i, r.value, q.value);
      AcceptedBy(defs, rules, limit, exact, p, s);
      PartsAccepted(defs, rules, limit, exact, u, v, i + 1, r.rest, rest);
      AcceptedStep(defs, rules, limit, exact, u, v, i, s, r.rest, rest);
    }
  }

  lemma AcceptedStep(
    defs: seq<Type>, rules: Rules, limit: nat, exact: bool, u: Type, v: Value, i: nat, s: seq<Byte>, r: seq<Byte>, rest: seq<Byte>)
    requires i < |v.Parts()|
    requires Accepted(defs, rules, limit, exact, Part(u, Head(u, v), i), s, v.Parts()[i], r)
    requires AcceptedFrom(defs, rules, limit, exact, u, v, i + 1, r, rest)
    ensures AcceptedFrom(defs, rules, limit, exact, u, v, i, s, rest)
  {
    var code := Encode(defs, Part(u, Head(u, v), i), v.Parts()[i]);
    SplitsTwice(exact, s, code, r, EncodeFrom(defs, u, v, i + 1), rest);
    FitsStep(defs, rules, u, v, i);
  }

  // ----- canonical form ----------------------------------------------------------

  lemma {:induction false} StrictIsCanonical(defs: seq<Type>, limit: nat, t: Type, s: seq<Byte>)
    requires WellFormed(defs) && Closed(t, |defs|) && Decode(defs, Rules(true, true), limit, t, s).Done?
    ensures var r := Decode(defs, LIBRARY, limit, t, s); r.Done? && Encode(defs, t, r.value) + r.rest == s
  {
    var r := Decode(defs, Rules(true, true), limit, t, s);
    AcceptedBy(defs, Rules(true, true), limit, true, t, s);
    assert s == Encode(defs, t, r.value) + r.rest;
    DecodeOfEncode(defs, LIBRARY, limit, t, r.value, r.rest);
  }

  /** The library re-encodes what it accepts to the same bytes exactly when the decoder
      that insists on 0 or 1 for a bool accepts them too. */
  lemma {:induction false} CanonicalExactly(defs: seq<Type>, limit: nat, t: Type, s: seq<Byte>)
    requires WellFormed(defs) && Closed(t, |defs|)
    ensures var r := Decode(defs, LIBRARY, limit, t, s);
      r.Done? && Encode(defs, t, r.value) + r.rest == s <==> Decode(defs, Rules(true, true), limit, t, s).Done?
  {
    var r := Decode(defs, LIBRARY, limit, t, s);
    if r.Done? && Encode(defs, t, r.value) + r.rest == s {
      AcceptedBy(defs, LIBRARY, limit, false, t, s);
      DecodeOfEncode(defs, Rules(true, true), limit, t, r.value, r.rest);
    }
    if Decode(defs, Rules(true, true), limit, t, s).Done? {
      StrictIsCanonical(defs, limit, t, s);
    }
  }

  /** Without bools, every accepted byte string is the encoding of the value it gives. */
  lemma {:induction false} CanonicalWithoutBools(defs: seq<Type>, limit: nat, t: Type, s: seq<Byte>)
    requires WellFormed(defs) && Closed(t, |defs|) && DefsFree(Bools, defs) && Free(Bools, t)
    requires Decode(defs, LIBRARY, limit, t, s).Done?
    ensures var r := Decode(defs, LIBRARY, limit, t, s); Encode(defs, t, r.value) + r.rest == s
  {
    AcceptedBy(defs, LIBRARY, limit, true, t, s);
  }

  /** A bool is read from any nonzero word and written as 1. */
  lemma BoolIsNotCanonical()
    ensures Decode([], LIBRARY, 0, Bool, [0, 0, 0, 2]) == Done(VBool(true), [])
    ensures Encode([], Bool, VBool(true)) != [0, 0, 0, 2]
  {
    var s: seq<Byte> := [0, 0, 0, 2];
    assert s[..4] == s && s[4..] == [];
    assert FromBe32(s) == 2;
    assert Be32(1)[3] == 1;
  }

  /** Encodings are prefix-free: they determine the value and where it ends. */
  lemma {:induction false} EncodeIsInjective(defs: seq<Type>, t: Type, a: Value, x: seq<Byte>, b: Value, y: seq<Byte>)
    requires WellFormed(defs) && Closed(t, |defs|) && Sound(defs, t, a) && Sound(defs, t, b)
    requires Encode(defs, t, a) + x == Encode(defs, t, b) + y
    ensures a == b && x == y
  {
    var anything, limit := Rules(false, false), Depth(defs, t, a) + Depth(defs, t, b);
    DecodeOfEncode(defs, anything, limit, t, a, x);
    DecodeOfEncode(defs, anything, limit, t, b, y);
  }
}

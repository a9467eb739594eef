/**
 What the parser of record streams makes of any bytes whatever, told over the bytes
 (section 11 of RFC 5531, xdrpp/msgsock.cc, xdrpp/marshal.cc).
 */
module Stream {
  import opened Bytes
  import opened Sequences
  import opened Framing

  /** The high bit of a header: this is the last fragment of its record. */
  predicate IsLast(s: seq<Byte>)
    requires 4 <= |s|
  {
    s[0] >= 0x80
  }

  /** The other 31 bits: the length of the fragment. */
  function Length(s: seq<Byte>): int
    requires 4 <= |s|
  {
    s[0] % 0x80 * 0x100_0000 + s[1] as int * 0x1_0000 + s[2] as int * 0x100 + s[3]
  }

  lemma HeaderBits(s: seq<Byte>)
    requires 4 <= |s|
    ensures FromBe32(s[..4]) == (if IsLast(s) then LAST_FRAGMENT else 0) + Length(s) && 0 <= Length(s) < LAST_FRAGMENT
  {
    assert s[..4] == [s[0], s[1], s[2], s[3]];
  }

  /** The header that goes before a message: the high bit, and its length. */
  lemma RawBytes(m: Message)
    requires |m| < LAST_FRAGMENT
    ensures IsLast(Raw(m)) && Length(Raw(m)) == |m| && Raw(m)[4..] == m
  {
    HeaderBits(Raw(m));
    assert Raw(m)[..4] == Be32(|m| + LAST_FRAGMENT);
    FromBe32OfBe32(|m| + LAST_FRAGMENT);
  }

  /** The leftover is refused: a fragment that is not the last, or one that is too long. */
  predicate Bad(rest: seq<Byte>, max: nat) {
    4 <= |rest| && (!IsLast(rest) || Length(rest) > max)
  }

  /** The leftover is the beginning of a message. */
  predicate Unfinished(rest: seq<Byte>) {
    |rest| < 4 || (IsLast(rest) && |rest| < 4 + Length(rest))
  }

  ghost predicate Small(ms: seq<Message>, max: nat) {
    forall i :: 0 <= i < |ms| ==> |ms[i]| <= max && |ms[i]| < LAST_FRAGMENT
  }

  /** `s` is made of the messages and the leftover of `p`, and the leftover holds no more
      message. */
  ghost predicate Cuts(s: seq<Byte>, max: nat, p: Parsed) {
    && Small(p.msgs, max) && s == Concat(Raws(p.msgs)) + p.rest
    && (p.broken <==> Bad(p.rest, max)) && (p.broken || Unfinished(p.rest))
  }

  lemma HasMessageBits(s: seq<Byte>, max: nat)
    ensures HasMessage(s, max) <==> !Bad(s, max) && !Unfinished(s)
    ensures 4 <= |s| ==> (Refused(s[..4], max) <==> Bad(s, max))
    ensures HasMessage(s, max) ==> BodyLength(s[..4], max) == Length(s)
  {
    if 4 <= |s| {
      HeaderBits(s);
    }
  }

  /** The first message of a stream, as raw bytes. */
  lemma FirstRaw(s: seq<Byte>, n: nat, max: nat)
    requires HasMessage(s, max) && n == BodyLength(s[..4], max)
    ensures n <= max && n < LAST_FRAGMENT && s == Raw(Body(s, n)) + From(s, 4 + n)
  {
    HeaderBits(s);
    Be32OfFromBe32(s[..4]);
    FromIsSlice(s, 4 + n);
    assert Be32(n + LAST_FRAGMENT) == s[..4];
    assert Body(s, n) == s[4..4 + n];
  }

  lemma {:induction false} RawsFirst(m: Message, ms: seq<Message>)
    requires |m| < LAST_FRAGMENT && forall i :: 0 <= i < |ms| ==> |ms[i]| < LAST_FRAGMENT
    ensures Concat(Raws([m] + ms)) == Raw(m) + Concat(Raws(ms))
  {
    ConcatRawsCons([m] + ms);
    assert ([m] + ms)[1..] == ms;
  }

  lemma {:induction false} CutsOneMore(m: Message, t: seq<Byte>, max: nat, p: Parsed)
    requires |m| <= max && |m| < LAST_FRAGMENT && Cuts(t, max, p)
    ensures Cuts(Raw(m) + t, max, Framing.Behind(m, p))
  {
    RawsFirst(m, p.msgs);
    assert Raw(m) + (Concat(Raws(p.msgs)) + p.rest) == (Raw(m) + Concat(Raws(p.msgs))) + p.rest;
  }

  /** Whatever the bytes are, the messages that the parser delivers are, with their
      headers, the front of the stream, none is longer than allowed, and the stream is
      broken exactly when the leftover starts with a header that is not that of a last
      fragment or announces too much. */
  lemma {:induction false} ParseCuts(s: seq<Byte>, max: nat)
    ensures Cuts(s, max, Parse(s, max))
    decreases |s|
  {
    HasMessageBits(s, max);
    if HasMessage(s, max) {
      var n := BodyLength(s[..4], max);
      ParseCuts(From(s, 4 + n), max);
      FirstRaw(s, n, max);
      CutsOneMore(Body(s, n), From(s, 4 + n), max, Parse(From(s, 4 + n), max));
      ParseOne(s, n, max);
    } else {
      ParseNothing(s, max);
      assert Concat([]) + s == s;
    }
  }

  /** There is one such cut, and the parser finds it. */
  lemma {:induction false} OnlyCut(s: seq<Byte>, max: nat, p: Parsed)
    requires Cuts(s, max, p)
    ensures p == Parse(s, max)
    decreases |p.msgs|
  {
    HasMessageBits(s, max);
    if p.msgs == [] {
      assert s == p.rest;
      ParseNothing(s, max);
      BrokenAtOnce(s, max);
    } else {
      var m, ms := p.msgs[0], p.msgs[1..];
      assert p.msgs == [m] + ms;
      RawsFirst(m, ms);
      var t := Concat(Raws(ms)) + p.rest;
      assert s == Raw(m) + t;
      assert Cuts(t, max, Parsed(ms, p.rest, p.broken));
      OnlyCut(t, max, Parsed(ms, p.rest, p.broken));
      ParseRaw(m, t, max);
    }
  }

  lemma {:induction false} BrokenAtOnce(s: seq<Byte>, max: nat)
    requires !HasMessage(s, max)
    ensures Parse(s, max).broken <==> Bad(s, max)
  {
    HasMessageBits(s, max);
  }
}

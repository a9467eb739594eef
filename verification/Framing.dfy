/**
 The record format of section 11 of RFC 5531, single-fragment records only, and
 the one-shot parser that the non-blocking receiver of xdrpp/msgsock.cc is
 measured against.
 */
module Framing {
  import opened Bytes
  import opened Sequences

  type Message = seq<Byte>

  const LAST_FRAGMENT: int := 0x8000_0000

  /** A message as it goes over the wire: message_t::alloc writes the header. */
  function Raw(m: Message): (r: seq<Byte>)
    requires |m| < LAST_FRAGMENT
    ensures |r| == 4 + |m| && r[4..] == m
  {
    Be32(|m| + LAST_FRAGMENT) + m
  }

  function Raws(ms: seq<Message>): (rs: seq<seq<Byte>>)
    requires forall i :: 0 <= i < |ms| ==> |ms[i]| < LAST_FRAGMENT
    ensures |rs| == |ms|
    ensures forall i :: 0 <= i < |ms| ==> rs[i] == Raw(ms[i])
  {
    seq(|ms|, i requires 0 <= i < |ms| => Raw(ms[i]))
  }

  function Concat(rs: seq<seq<Byte>>): seq<Byte> {
    if rs == [] then [] else rs[0] + Concat(rs[1..])
  }

  /** A header the receiver refuses: another fragment follows, or too long. */
  predicate Refused(header: seq<Byte>, max: nat)
    requires |header| == 4
  {
    FromBe32(header) < LAST_FRAGMENT || FromBe32(header) - LAST_FRAGMENT > max
  }

  function BodyLength(header: seq<Byte>, max: nat): nat
    requires |header| == 4 && !Refused(header, max)
  {
    FromBe32(header) - LAST_FRAGMENT
  }

  /** The `n` bytes behind a header. */
  function Body(s: seq<Byte>, n: nat): (m: Message)
    requires 4 + n <= |s|
    ensures |m| == n
  {
    seq(n, i requires 0 <= i < n => s[4 + i])
  }

  /** The complete messages at the front of a byte stream, what is left over, and
      whether the leftover starts with a refused header. */
  datatype Parsed = Parsed(msgs: seq<Message>, rest: seq<Byte>, broken: bool)

  function Parse(s: seq<Byte>, max: nat): (p: Parsed)
    ensures |p.rest| <= |s|
    ensures p.broken ==> 4 <= |p.rest|
    decreases |s|
  {
    if |s| < 4 then Parsed([], s, false)
    else if Refused(s[..4], max) then Parsed([], s, true)
    else
      var n := BodyLength(s[..4], max);
      if |s| < 4 + n then Parsed([], s, false)
      else
        var p := Parse(From(s, 4 + n), max);
        p.(msgs := [Body(s, n)] + p.msgs)
  }

  /** The bytes that parse to `whole` are those of `first` followed by some that,
      behind its leftover, parse to `second`. */
  predicate Continues(first: Parsed, second: Parsed, whole: Parsed) {
    whole == second.(msgs := first.msgs + second.msgs)
  }

  /** `p` behind one more message. */
  function Behind(m: Message, p: Parsed): (r: Parsed)
    ensures r.rest == p.rest && r.broken == p.broken
  {
    p.(msgs := [m] + p.msgs)
  }

  lemma ContinuesBehind(m: Message, first: Parsed, second: Parsed, whole: Parsed)
    requires Continues(first, second, whole)
    ensures Continues(Behind(m, first), second, Behind(m, whole))
  {
    assert [m] + (first.msgs + second.msgs) == ([m] + first.msgs) + second.msgs;
  }

  predicate HasMessage(s: seq<Byte>, max: nat) {
    4 <= |s| && !Refused(s[..4], max) && 4 + BodyLength(s[..4], max) <= |s|
  }

  lemma {:induction false} ParseNothing(s: seq<Byte>, max: nat)
    requires !HasMessage(s, max)
    ensures Parse(s, max).msgs == [] && Parse(s, max).rest == s
  {
  }

  lemma {:induction false} ParseOne(s: seq<Byte>, n: nat, max: nat)
    requires HasMessage(s, max) && n == BodyLength(s[..4], max)
    ensures Parse(s, max) == Behind(Body(s, n), Parse(From(s, 4 + n), max))
  {
  }

  /** Parsing may stop anywhere and go on later from the leftover. */
  lemma {:induction false} ParseResumes(s: seq<Byte>, t: seq<Byte>, max: nat)
    ensures Continues(Parse(s, max), Parse(Parse(s, max).rest + t, max), Parse(s + t, max))
    decreases |s|
  {
    if HasMessage(s, max) {
      var n := BodyLength(s[..4], max);
      var s' := From(s, 4 + n);
      ParseResumes(s', t, max);
      ParseOne(s, n, max);
      FirstMessage(s, t, n, max);
      ContinuesBehind(Body(s, n), Parse(s', max), Parse(Parse(s', max).rest + t, max), Parse(s' + t, max));
    } else {
      ParseNothing(s, max);
    }
  }

  lemma FirstMessage(s: seq<Byte>, t: seq<Byte>, n: nat, max: nat)
    requires HasMessage(s, max) && n == BodyLength(s[..4], max)
    ensures Parse(s + t, max) == Behind(Body(s, n), Parse(From(s, 4 + n) + t, max))
  {
    assert (s + t)[..4] == s[..4];
    FromAppend(s, 4 + n, t);
    assert Body(s + t, n) == Body(s, n);
  }

  lemma HeaderBodyRest(header: seq<Byte>, body: Message, t: seq<Byte>)
    requires |header| == 4
    ensures var s := header + (body + t);
      s[..4] == header && Body(s, |body|) == body && From(s, 4 + |body|) == t
  {
    var s := header + (body + t);
    assert s == (header + body) + t;
    FromBehind(header + body, t);
  }

  /** A header followed by the body it announces. */
  lemma {:induction false} ParseBody(header: seq<Byte>, body: Message, t: seq<Byte>, max: nat)
    requires |header| == 4 && !Refused(header, max) && |body| == BodyLength(header, max)
    ensures Parse(header + (body + t), max) == Parse(t, max).(msgs := [body] + Parse(t, max).msgs)
  {
    HeaderBodyRest(header, body, t);
  }

  lemma {:induction false} ParseIncomplete(header: seq<Byte>, have: seq<Byte>, max: nat)
    requires |header| == 4 && !Refused(header, max) && |have| < BodyLength(header, max)
    ensures Parse(header + have, max) == Parsed([], header + have, false)
  {
    assert (header + have)[..4] == header;
  }

  /** What a header alone parses to. */
  lemma {:induction false} ParseHeader(header: seq<Byte>, max: nat)
    requires |header| == 4
    ensures Refused(header, max) ==> Parse(header, max) == Parsed([], header, true)
    ensures !Refused(header, max) && BodyLength(header, max) > 0 ==> Parse(header, max) == Parsed([], header, false)
    ensures !Refused(header, max) && BodyLength(header, max) == 0 ==> Parse(header, max) == Parsed([[]], [], false)
  {
    assert header[..4] == header;
    if !Refused(header, max) && BodyLength(header, max) == 0 {
      ParseBody(header, [], [], max);
      assert header + ([] + []) == header;
    }
  }

  /** After a refused header no bytes whatever produce another message. */
  lemma {:induction false} RefusedForGood(s: seq<Byte>, t: seq<Byte>, max: nat)
    requires Parse(s, max).broken
    ensures Parse(s + t, max).msgs == Parse(s, max).msgs && Parse(s + t, max).broken
  {
    ParseResumes(s, t, max);
    RestIsUnparsed(s, max);
    var r := Parse(s, max).rest;
    assert (r + t)[..4] == r[..4];
  }

  lemma {:induction false} RestIsUnparsed(s: seq<Byte>, max: nat)
    ensures Parse(Parse(s, max).rest, max) == Parse(s, max).(msgs := [])
    decreases |s|
  {
    if 4 <= |s| && !Refused(s[..4], max) && 4 + BodyLength(s[..4], max) <= |s| {
      RestIsUnparsed(From(s, 4 + BodyLength(s[..4], max)), max);
    }
  }

  lemma RawHeader(m: Message, t: seq<Byte>, max: nat)
    requires |m| < LAST_FRAGMENT && |m| <= max
    ensures !Refused((Raw(m) + t)[..4], max) && BodyLength((Raw(m) + t)[..4], max) == |m|
  {
    FromBe32OfBe32(|m| + LAST_FRAGMENT);
    assert (Raw(m) + t)[..4] == Be32(|m| + LAST_FRAGMENT);
  }

  lemma {:induction false} ParseRaw(m: Message, t: seq<Byte>, max: nat)
    requires |m| < LAST_FRAGMENT && |m| <= max
    ensures Parse(Raw(m) + t, max) == Parse(t, max).(msgs := [m] + Parse(t, max).msgs)
  {
    RawHeader(m, t, max);
    var header := Be32(|m| + LAST_FRAGMENT);
    assert Raw(m) + t == header + (m + t);
    assert (Raw(m) + t)[..4] == header;
    ParseBody(header, m, t, max);
  }

  /** A proper prefix of one raw message holds no complete message. */
  lemma {:induction false} ParsePartial(m: Message, k: nat, max: nat)
    requires |m| < LAST_FRAGMENT && |m| <= max && k < 4 + |m|
    ensures Parse(Raw(m)[..k], max) == Parsed([], Raw(m)[..k], false)
  {
    var s := Raw(m)[..k];
    if 4 <= k {
      RawHeader(m, [], max);
      assert s[..4] == (Raw(m) + [])[..4];
    }
  }

  ghost predicate Acceptable(ms: seq<Message>, max: nat) {
    forall i :: 0 <= i < |ms| ==> |ms[i]| < LAST_FRAGMENT && |ms[i]| <= max
  }

  /** The stream `s` parses to a prefix of `ms`, and to all of it if `whole`. */
  ghost predicate ParsesTo(s: seq<Byte>, whole: bool, ms: seq<Message>, max: nat) {
    var p := Parse(s, max);
    p.msgs <= ms && !p.broken && (whole ==> p.msgs == ms)
  }

  lemma ParsesOneMore(m: Message, t: seq<Byte>, whole: bool, tail: seq<Message>, max: nat)
    requires |m| < LAST_FRAGMENT && |m| <= max && ParsesTo(t, whole, tail, max)
    ensures ParsesTo(Raw(m) + t, whole, [m] + tail, max)
  {
    ParseRaw(m, t, max);
  }

  /** Any prefix of the stream of some messages parses to a prefix of the messages,
      and the whole stream parses to all of them. */
  lemma {:induction false} ParsePrefix(ms: seq<Message>, k: nat, max: nat)
    requires Acceptable(ms, max) && k <= |Concat(Raws(ms))|
    ensures ParsesTo(Concat(Raws(ms))[..k], k == |Concat(Raws(ms))|, ms, max)
    decreases |ms|
  {
    if ms != [] {
      var m, tail := ms[0], ms[1..];
      ConcatRawsCons(ms);
      var later := Concat(Raws(tail));
      if k < 4 + |m| {
        assert (Raw(m) + later)[..k] == Raw(m)[..k];
        ParsePartial(m, k, max);
      } else {
        var j := k - (4 + |m|);
        ParsePrefix(tail, j, max);
        assert (Raw(m) + later)[..k] == Raw(m) + later[..j];
        ParsesOneMore(m, later[..j], j == |later|, tail, max);
        assert ms == [m] + tail;
      }
    }
  }

  lemma {:induction false} ConcatRawsCons(ms: seq<Message>)
    requires ms != [] && forall i :: 0 <= i < |ms| ==> |ms[i]| < LAST_FRAGMENT
    ensures Concat(Raws(ms)) == Raw(ms[0]) + Concat(Raws(ms[1..]))
  {
    RawsCons(ms);
  }

  lemma {:induction false} RawsCons(ms: seq<Message>)
    requires ms != [] && forall i :: 0 <= i < |ms| ==> |ms[i]| < LAST_FRAGMENT
    ensures Raws(ms) == [Raw(ms[0])] + Raws(ms[1..])
  {
  }

  lemma {:induction false} ConcatAppend(rs: seq<seq<Byte>>, ts: seq<seq<Byte>>)
    ensures Concat(rs + ts) == Concat(rs) + Concat(ts)
  {
    if rs == [] {
      assert rs + ts == ts;
    } else {
      ConcatAppend(rs[1..], ts);
      assert (rs + ts)[0] == rs[0] && (rs + ts)[1..] == rs[1..] + ts;
      Associative(rs[0], Concat(rs[1..]), Concat(ts));
    }
  }

  lemma Associative(a: seq<Byte>, b: seq<Byte>, c: seq<Byte>)
    ensures a + (b + c) == (a + b) + c
  {
  }
}

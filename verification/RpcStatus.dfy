/**
 What is on the wire in answer to a call, word by word, and what a client makes of it
 (sections 8.1 and 9 of RFC 5531; xdrpp/server.cc, xdrpp/srpc.h, xdrpp/arpc.h).  The
 outcomes are told from the words of the message, the table and the handlers.
 */
module RpcStatus {
  import opened Options
  import opened Bytes
  import opened Sequences
  import opened Xdr
  import opened Codec
  import opened RoundTrip
  import opened Canonical
  import opened Sizes
  import opened Messages
  import opened RpcMsg
  import opened RpcServer
  import opened RpcDispatch
  import opened RpcClient
  import opened WireForm

  // ----- the words of a call ---------------------------------------------------------------

  /** Word `i` of a message, or 0 past its end. */
  function WordAt(m: Message, i: nat): Word {
    if 4 * i + 4 <= |m| then NumberWord(m[4 * i..4 * i + 4]); Number(m[4 * i..4 * i + 4]) else 0
  }

  /** The parts from `i` on decode to those of `v`. */
  predicate Gets(defs: seq<Type>, limit: nat, u: Type, i: nat, s: seq<Byte>, v: seq<Value>)
    requires WellFormed(defs) && Closed(u, |defs|)
  {
    && i <= Count(u, 0) && i <= |v|
    && DecodeParts(defs, LIBRARY, limit, u, 0, i, s).Done? && DecodeParts(defs, LIBRARY, limit, u, 0, i, s).value == From(v, i)
  }

  /** A field that is a word. */
  lemma {:induction false} WordField(defs: seq<Type>, limit: nat, u: Type, i: nat, s: seq<Byte>, v: seq<Value>)
    requires WellFormed(defs) && Closed(u, |defs|) && i < Count(u, 0) && Part(u, 0, i) == U32 && Gets(defs, limit, u, i, s, v)
    ensures 4 <= |s| && i < |v| && v[i] == VInt(FromBe32(s[..4])) && Gets(defs, limit, u, i + 1, s[4..], v)
  {
    var first := Decode(defs, LIBRARY, limit, U32, s);
    assert first.Done? && first == Done(VInt(FromBe32(s[..4])), s[4..]);
    var q := DecodeParts(defs, LIBRARY, limit, u, 0, i + 1, s[4..]);
    assert q.Done?;
    var all := [VInt(FromBe32(s[..4]))] + q.value;
    assert all == From(v, i) && all[0] == v[i];
    forall k | 0 <= k < |q.value| ensures q.value[k] == From(v, i + 1)[k] {
      assert all[k + 1] == From(v, i)[k + 1];
    }
  }

  /** The first four fields of a call, from what follows its type. */
  lemma {:induction false} FourWords(defs: seq<Type>, limit: nat, s: seq<Byte>, v: seq<Value>)
    requires WellFormed(defs) && Closed(CALL_BODY, |defs|) && Gets(defs, limit, CALL_BODY, 0, s, v)
    ensures 16 <= |s| && 4 <= |v| && v[0] == VInt(FromBe32(s[..4])) && v[1] == VInt(FromBe32(s[4..][..4]))
    ensures v[2] == VInt(FromBe32(s[4..][4..][..4])) && v[3] == VInt(FromBe32(s[4..][4..][4..][..4]))
  {
    WordField(defs, limit, CALL_BODY, 0, s, v);
    WordField(defs, limit, CALL_BODY, 1, s[4..], v);
    WordField(defs, limit, CALL_BODY, 2, s[4..][4..], v);
    WordField(defs, limit, CALL_BODY, 3, s[4..][4..][4..], v);
  }

  /** The header of a message: its xid, and its type with what goes with it. */
  lemma {:induction false} HeaderParts(defs: seq<Type>, limit: nat, m: Message)
    requires WellFormed(defs) && Closed(RPC_MSG, |defs|) && Decode(defs, LIBRARY, limit, RPC_MSG, m).Done?
    ensures var r := Decode(defs, LIBRARY, limit, RPC_MSG, m);
      && limit > 0 && 4 <= |m| && XidOf(r.value) == WordAt(m, 0)
      && Closed(BODY, |defs|) && Decode(defs, LIBRARY, limit - 1, BODY, m[4..]) == Done(At(r.value, 1), r.rest)
  {
    var v := DecodeParts(defs, LIBRARY, limit - 1, RPC_MSG, 0, 0, m).value;
    assert v == From(v, 0);
    WordField(defs, limit - 1, RPC_MSG, 0, m, v);
    NumberWord(m[..4]);
    PartRefers(RPC_MSG, 0, 1, |defs|);
    LastPart(defs, limit - 1, RPC_MSG, 1, m[4..], v);
  }

  /** The last field. */
  lemma {:induction false} LastPart(defs: seq<Type>, limit: nat, u: Type, i: nat, s: seq<Byte>, v: seq<Value>)
    requires WellFormed(defs) && Closed(u, |defs|) && i + 1 == Count(u, 0) && |v| == i + 1 && Gets(defs, limit, u, i, s, v)
    ensures Closed(Part(u, 0, i), |defs|)
    ensures Decode(defs, LIBRARY, limit, Part(u, 0, i), s) == Done(v[i], DecodeParts(defs, LIBRARY, limit, u, 0, i, s).rest)
  {
    PartRefers(u, 0, i, |defs|);
    var r := Decode(defs, LIBRARY, limit, Part(u, 0, i), s);
    assert ([r.value] + [])[0] == From(v, i)[0];
  }

  /** The type of a message is a word; what goes with it is decoded from what follows. */
  lemma {:induction false} BodyParts(defs: seq<Type>, limit: nat, s: seq<Byte>)
    requires WellFormed(defs) && Closed(BODY, |defs|) && Decode(defs, LIBRARY, limit, BODY, s).Done?
    ensures var b := Decode(defs, LIBRARY, limit, BODY, s).value;
      4 <= |s| && b.VUnion? && b.tag == FromBe32(s[..4])
    ensures var b := Decode(defs, LIBRARY, limit, BODY, s).value;
      b.tag == 0 ==>
        && limit > 0 && b.parts != [] && Closed(CALL_BODY, |defs|)
        && Decode(defs, LIBRARY, limit - 1, CALL_BODY, s[4..]).Done?
        && Decode(defs, LIBRARY, limit - 1, CALL_BODY, s[4..]).value == b.parts[0]
  {
    var tag := FromBe32(s[..4]);
    PickBinary(CALL_BODY, REPLY_BODY, tag);
    if tag == 0 {
      PartRefers(BODY, tag, 0, |defs|);
      assert Part(BODY, tag, 0) == CALL_BODY && Count(BODY, tag) == 1;
      var r := Decode(defs, LIBRARY, limit - 1, CALL_BODY, s[4..]);
      assert DecodeParts(defs, LIBRARY, limit - 1, BODY, tag, 0, s[4..]).Done?;
      assert r.Done? && DecodeParts(defs, LIBRARY, limit - 1, BODY, tag, 1, r.rest) == Done([], r.rest);
    }
  }

  lemma {:induction false} CallBodyParts(defs: seq<Type>, limit: nat, s: seq<Byte>)
    requires WellFormed(defs) && Closed(CALL_BODY, |defs|) && Decode(defs, LIBRARY, limit, CALL_BODY, s).Done?
    ensures var v := Decode(defs, LIBRARY, limit, CALL_BODY, s).value;
      limit > 0 && v.VSeq? && Gets(defs, limit - 1, CALL_BODY, 0, s, v.parts)
  {
    var v := DecodeParts(defs, LIBRARY, limit - 1, CALL_BODY, 0, 0, s).value;
    assert v == From(v, 0);
  }

  /** Behind the type of a call, its fields. */
  lemma {:induction false} BodyWords(defs: seq<Type>, limit: nat, s: seq<Byte>)
    requires WellFormed(defs) && Closed(BODY, |defs|) && Decode(defs, LIBRARY, limit, BODY, s).Done?
    requires 4 <= |s| && FromBe32(s[..4]) == 0
    ensures var b, r := Decode(defs, LIBRARY, limit, BODY, s).value, s[4..];
      && 16 <= |r| && WordOf(At(At(b, 0), 0)) == FromBe32(r[..4]) && WordOf(At(At(b, 0), 1)) == FromBe32(r[4..][..4])
      && WordOf(At(At(b, 0), 2)) == FromBe32(r[4..][4..][..4]) && WordOf(At(At(b, 0), 3)) == FromBe32(r[4..][4..][4..][..4])
  {
    BodyParts(defs, limit, s);
    var body := Decode(defs, LIBRARY, limit - 1, CALL_BODY, s[4..]).value;
    CallBodyParts(defs, limit - 1, s[4..]);
    FourWords(defs, limit - 2, s[4..], body.parts);
  }

  /** The second word is the type of a message. */
  lemma {:induction false} TypeWord(defs: seq<Type>, limit: nat, m: Message)
    requires WellFormed(defs) && Closed(RPC_MSG, |defs|) && Decode(defs, LIBRARY, limit, RPC_MSG, m).Done?
    ensures var hdr := Decode(defs, LIBRARY, limit, RPC_MSG, m).value;
      && XidOf(hdr) == WordAt(m, 0) && 8 <= |m| && WordAt(m, 1) == FromBe32(m[4..][..4])
      && (IsCall(hdr) <==> WordAt(m, 1) == 0)
  {
    HeaderParts(defs, limit, m);
    TypeOfBody(defs, limit - 1, m[4..]);
    SecondWord(m);
  }

  lemma {:induction false} TypeOfBody(defs: seq<Type>, limit: nat, s: seq<Byte>)
    requires WellFormed(defs) && Closed(BODY, |defs|) && Decode(defs, LIBRARY, limit, BODY, s).Done?
    ensures 4 <= |s| && TagOf(Decode(defs, LIBRARY, limit, BODY, s).value) == FromBe32(s[..4])
  {
    BodyParts(defs, limit, s);
  }

  lemma SecondWord(m: Message)
    requires 8 <= |m|
    ensures WordAt(m, 1) == FromBe32(m[4..][..4])
  {
    assert m[4..][..4] == m[4..8];
    NumberWord(m[4..8]);
  }

  /** The fields of a call are the words of the message. */
  lemma {:induction false} CallWords(defs: seq<Type>, limit: nat, m: Message)
    requires WellFormed(defs) && Closed(RPC_MSG, |defs|) && Decode(defs, LIBRARY, limit, RPC_MSG, m).Done?
    ensures var hdr := Decode(defs, LIBRARY, limit, RPC_MSG, m).value;
      && XidOf(hdr) == WordAt(m, 0) && (IsCall(hdr) <==> WordAt(m, 1) == 0)
      && (IsCall(hdr) ==>
            && CallField(hdr, 0) == WordAt(m, 2) && CallField(hdr, 1) == WordAt(m, 3)
            && CallField(hdr, 2) == WordAt(m, 4) && CallField(hdr, 3) == WordAt(m, 5))
  {
    TypeWord(defs, limit, m);
    if WordAt(m, 1) == 0 {
      HeaderParts(defs, limit, m);
      BodyWords(defs, limit - 1, m[4..]);
      FieldWords(m);
    }
  }

  lemma FieldWords(m: Message)
    requires 24 <= |m|
    ensures var s := m[4..][4..];
      && WordAt(m, 2) == FromBe32(s[..4]) && WordAt(m, 3) == FromBe32(s[4..][..4])
      && WordAt(m, 4) == FromBe32(s[4..][4..][..4]) && WordAt(m, 5) == FromBe32(s[4..][4..][4..][..4])
  {
    var s := m[4..][4..];
    assert s[..4] == m[8..12] && s[4..][..4] == m[12..16];
    assert s[4..][4..][..4] == m[16..20] && s[4..][4..][4..][..4] == m[20..24];
    NumberWord(m[8..12]);
    NumberWord(m[12..16]);
    NumberWord(m[16..20]);
    NumberWord(m[20..24]);
  }

  // ----- the words of a reply ----------------------------------------------------------------

  lemma {:induction false} AcceptedOnTheWire(defs: seq<Type>, xid: Word, stat: Word)
    ensures Encode(defs, RPC_MSG, Reply(xid, Success)) == Words([xid, 1, 0, 0, 0, 0])
    ensures stat != 0 && stat != 2 ==> Encode(defs, RPC_MSG, Reply(xid, Error(stat))) == Words([xid, 1, 0, 0, 0, stat])
  {
    KnownReply(defs, xid, Success);
    assert ReplyWords(xid, Success) == [xid, 1, 0, 0, 0, 0];
    if stat != 0 && stat != 2 {
      KnownReply(defs, xid, Error(stat));
      assert ReplyWords(xid, Error(stat)) == [xid, 1, 0, 0, 0, stat];
    }
  }

  lemma {:induction false} MismatchOnTheWire(defs: seq<Type>, xid: Word, low: Word, high: Word)
    ensures Encode(defs, RPC_MSG, Reply(xid, ProgMismatch(low, high))) == Words([xid, 1, 0, 0, 0, 2, low, high])
    ensures Encode(defs, RPC_MSG, Reply(xid, RpcMismatch(low, high))) == Words([xid, 1, 1, 0, low, high])
  {
    KnownReply(defs, xid, ProgMismatch(low, high));
    assert ReplyWords(xid, ProgMismatch(low, high)) == [xid, 1, 0, 0, 0, 2, low, high];
    KnownReply(defs, xid, RpcMismatch(low, high));
    assert ReplyWords(xid, RpcMismatch(low, high)) == [xid, 1, 1, 0, low, high];
  }

  lemma {:induction false} AuthOnTheWire(defs: seq<Type>, xid: Word, why: Word)
    ensures Encode(defs, RPC_MSG, Reply(xid, AuthError(why))) == Words([xid, 1, 1, 1, why])
  {
    KnownReply(defs, xid, AuthError(why));
    assert ReplyWords(xid, AuthError(why)) == [xid, 1, 1, 1, why];
  }

  /** The numbers that stand for the verdicts on the wire. */
  lemma {:induction false} RepliesOnTheWire(defs: seq<Type>, xid: Word, a: Word, b: Word)
    ensures Encode(defs, RPC_MSG, Reply(xid, Success)) == Words([xid, 1, 0, 0, 0, 0])
    ensures a != 0 && a != 2 ==> Encode(defs, RPC_MSG, Reply(xid, Error(a))) == Words([xid, 1, 0, 0, 0, a])
    ensures Encode(defs, RPC_MSG, Reply(xid, ProgMismatch(a, b))) == Words([xid, 1, 0, 0, 0, 2, a, b])
    ensures Encode(defs, RPC_MSG, Reply(xid, RpcMismatch(a, b))) == Words([xid, 1, 1, 0, a, b])
    ensures Encode(defs, RPC_MSG, Reply(xid, AuthError(a))) == Words([xid, 1, 1, 1, a])
  {
    AcceptedOnTheWire(defs, xid, a);
    MismatchOnTheWire(defs, xid, a, b);
    AuthOnTheWire(defs, xid, a);
  }

  lemma NothingBehind(s: seq<Byte>)
    ensures s + [] == s
  {
  }

  lemma {:induction false} CodesOnTheWire(defs: seq<Type>, xid: Word, a: Word, b: Word)
    ensures a != 0 && a != 2 ==> ReplyCode(defs, xid, Error(a), []) == Words([xid, 1, 0, 0, 0, a])
    ensures ReplyCode(defs, xid, ProgMismatch(a, b), []) == Words([xid, 1, 0, 0, 0, 2, a, b])
    ensures ReplyCode(defs, xid, RpcMismatch(a, b), []) == Words([xid, 1, 1, 0, a, b])
    ensures ReplyCode(defs, xid, AuthError(a), []) == Words([xid, 1, 1, 1, a])
  {
    RepliesOnTheWire(defs, xid, a, b);
    NothingBehind(Encode(defs, RPC_MSG, Reply(xid, Error(a))));
    NothingBehind(Encode(defs, RPC_MSG, Reply(xid, ProgMismatch(a, b))));
    NothingBehind(Encode(defs, RPC_MSG, Reply(xid, RpcMismatch(a, b))));
    NothingBehind(Encode(defs, RPC_MSG, Reply(xid, AuthError(a))));
  }

  // ----- what is sent for a message ------------------------------------------------------------

  /** What is sent for the answer of a handler: its result behind a header, or, if that
      cannot be encoded, what becomes of the exception; a rejection; PROC_UNAVAIL for a
      reply_cb that is dropped. */
  ghost predicate AnswerSent(defs: seq<Type>, async: bool, res: Type, xid: Word, limit: nat, a: Answer, sent: seq<Message>) {
    match a.act
    case Result(v) =>
      if Live(defs, res, v) && Depth(defs, res, v) <= limit && 1 <= limit then
        sent == [Words([xid, 1, 0, 0, 0, 0]) + Encode(defs, res, v)]
      else if !async then sent == [Words([xid, 1, 0, 0, 0, 4])]
      else if a.deferred then sent == [Words([xid, 1, 0, 0, 0, 3])]
      else sent == [Words([xid, 1, 0, 0, 0, 3]), Words([xid, 1, 0, 0, 0, 4])]
    case Reject(w) =>
      && (w.Error? ==> sent == [Words([xid, 1, 0, 0, 0, w.stat])])
      && (w.AuthError? ==> sent == [Words([xid, 1, 1, 1, w.why])])
    case Dropped => sent == [Words([xid, 1, 0, 0, 0, 3])]
  }

  /** What is sent for a call of a procedure of `s`: 3 if there is none, 4 if the arguments
      do not decode or do not fill the message, otherwise what the handler answers. */
  ghost predicate ProcSent(defs: seq<Type>, s: Service, xid: Word, proc: Word, limit: nat, args: seq<Byte>, sent: seq<Message>)
    requires WellFormed(defs) && (proc in s.procs ==> Closed(ArgTuple(s.procs[proc].args), |defs|))
  {
    if proc !in s.procs then sent == [Words([xid, 1, 0, 0, 0, 3])]
    else
      var p := s.procs[proc];
      var d := Decode(defs, LIBRARY, limit, ArgTuple(p.args), args);
      if d.Fail? || d.rest != [] then sent == [Words([xid, 1, 0, 0, 0, 4])]
      else AnswerSent(defs, s.async, p.res, xid, limit, p.handler(Unwrapped(d.value)), sent)
  }

  lemma {:induction false} ProcClosed(defs: seq<Type>, servers: Servers, prog: Word, vers: Word, proc: Word)
    requires TableFits(defs, servers) && prog in servers && vers in servers[prog]
    ensures var s := servers[prog][vers]; proc in s.procs ==> Closed(ArgTuple(s.procs[proc].args), |defs|)
  {
    ProcsFit(defs, servers, prog, vers, proc);
    if proc in servers[prog][vers].procs {
      ArgTupleClosed(defs, servers[prog][vers].procs[proc].args);
    }
  }

  ghost predicate MismatchSent(versions: map<Word, Service>, xid: Word, sent: seq<Message>) {
    exists low, high :: IsLeast(low, versions) && IsGreatest(high, versions) && sent == [Words([xid, 1, 0, 0, 0, 2, low, high])]
  }

  lemma {:induction false} MismatchIsSent(defs: seq<Type>, versions: map<Word, Service>, xid: Word)
    requires versions != map[]
    ensures MismatchSent(versions, xid, [ReplyCode(defs, xid, ProgMismatch(Least(versions), Greatest(versions)), [])])
  {
    CodesOnTheWire(defs, xid, Least(versions), Greatest(versions));
  }

  /** What is sent for a call with these fields: a denial for another version of RPC, 1 for
      an unknown program, 2 with the least and the greatest version for an unknown one. */
  ghost predicate CallSent(
    defs: seq<Type>, servers: Servers, xid: Word, rpcvers: Word, prog: Word, vers: Word, proc: Word, limit: nat,
    args: seq<Byte>, sent: seq<Message>)
    requires TableFits(defs, servers)
  {
    if rpcvers != 2 then sent == [Words([xid, 1, 1, 0, 2, 2])]
    else if prog !in servers then sent == [Words([xid, 1, 0, 0, 0, 1])]
    else if vers !in servers[prog] then
      MismatchSent(servers[prog], xid, sent)
    else
      ProcClosed(defs, servers, prog, vers, proc);
      ProcSent(defs, servers[prog][vers], xid, proc, limit, args, sent)
  }

  /** What is sent for a message: nothing unless it is a call, in whole words, with a header
      that decodes. */
  ghost predicate MessageSent(defs: seq<Type>, servers: Servers, limit: nat, m: Message, sent: seq<Message>)
    requires TableFits(defs, servers) && Closed(RPC_MSG, |defs|)
  {
    var h := Decode(defs, LIBRARY, limit, RPC_MSG, m);
    if |m| % 4 != 0 || h.Fail? || WordAt(m, 1) != 0 then sent == []
    else CallSent(defs, servers, WordAt(m, 0), WordAt(m, 2), WordAt(m, 3), WordAt(m, 4), WordAt(m, 5), limit, h.rest, sent)
  }

  lemma {:induction false} ResultOnTheWire(defs: seq<Type>, async: bool, res: Type, xid: Word, limit: nat, a: Answer)
    requires a.act.Result? && Encodable(defs, res, a.act.value, limit)
    ensures AnswerSent(defs, async, res, xid, limit, a, Sent(defs, JudgeAnswer(defs, async, xid, res, limit, a)))
  {
    AcceptedOnTheWire(defs, xid, 0);
  }

  lemma {:induction false} ThrowOnTheWire(defs: seq<Type>, async: bool, res: Type, xid: Word, limit: nat, a: Answer)
    requires a.act.Result? && !Encodable(defs, res, a.act.value, limit)
    ensures AnswerSent(defs, async, res, xid, limit, a, Sent(defs, JudgeAnswer(defs, async, xid, res, limit, a)))
  {
    ErrorOnTheWire(defs, xid, 3);
    ErrorOnTheWire(defs, xid, 4);
  }

  lemma {:induction false} ErrorOnTheWire(defs: seq<Type>, xid: Word, stat: Word)
    requires stat != 0 && stat != 2
    ensures ReplyCode(defs, xid, Error(stat), []) == Words([xid, 1, 0, 0, 0, stat])
  {
    CodesOnTheWire(defs, xid, stat, 0);
  }

  lemma {:induction false} AnswerOnTheWire(defs: seq<Type>, async: bool, res: Type, xid: Word, limit: nat, a: Answer)
    requires AnswerFits(defs, async, res, a)
    ensures AnswerSent(defs, async, res, xid, limit, a, Sent(defs, JudgeAnswer(defs, async, xid, res, limit, a)))
  {
    if a.act.Result? && Encodable(defs, res, a.act.value, limit) {
      ResultOnTheWire(defs, async, res, xid, limit, a);
    } else if a.act.Result? {
      ThrowOnTheWire(defs, async, res, xid, limit, a);
    } else if a.act.Reject? {
      CodesOnTheWire(defs, xid, if a.act.verdict.Error? then a.act.verdict.stat else a.act.verdict.why, 0);
    } else {
      CodesOnTheWire(defs, xid, 3, 0);
    }
  }

  lemma {:induction false} ProcOnTheWire(defs: seq<Type>, s: Service, xid: Word, proc: Word, limit: nat, args: seq<Byte>)
    requires WellFormed(defs) && ServiceFits(defs, s) && (proc in s.procs ==> Closed(ArgTuple(s.procs[proc].args), |defs|))
    ensures proc in s.procs ==> ClosedArgs(defs, s.procs[proc].args)
    ensures ProcSent(defs, s, xid, proc, limit, args, Sent(defs, JudgeCall(defs, s, xid, proc, limit, args)))
  {
    CodesOnTheWire(defs, xid, 3, 0);
    CodesOnTheWire(defs, xid, 4, 0);
    if proc in s.procs {
      var p := s.procs[proc];
      assert ProcFits(defs, s.async, p);
      var d := Decode(defs, LIBRARY, limit, ArgTuple(p.args), args);
      if d.Done? && d.rest == [] {
        assert AnswerFits(defs, s.async, p.res, p.handler(Unwrapped(d.value)));
        AnswerOnTheWire(defs, s.async, p.res, xid, limit, p.handler(Unwrapped(d.value)));
      }
    }
  }

  lemma {:induction false} CallOnTheWire(defs: seq<Type>, servers: Servers, limit: nat, hdr: Value, args: seq<Byte>)
    requires TableFits(defs, servers)
    ensures CallSent(defs, servers, XidOf(hdr), CallField(hdr, 0), CallField(hdr, 1), CallField(hdr, 2), CallField(hdr, 3),
              limit, args, Sent(defs, JudgeHeader(defs, servers, limit, hdr, args)))
  {
    var xid, prog, vers, proc := XidOf(hdr), CallField(hdr, 1), CallField(hdr, 2), CallField(hdr, 3);
    if CallField(hdr, 0) != 2 {
      CodesOnTheWire(defs, xid, 2, 2);
    } else if prog !in servers {
      CodesOnTheWire(defs, xid, 1, 0);
    } else if vers !in servers[prog] {
      MismatchIsSent(defs, servers[prog], xid);
    } else {
      ProcClosed(defs, servers, prog, vers, proc);
      ProcsFit(defs, servers, prog, vers, proc);
      ProcOnTheWire(defs, servers[prog][vers], xid, proc, limit, args);
    }
  }

  /** For every table, handler and message, what the server sends, word by word. */
  lemma {:induction false} SentOnTheWire(defs: seq<Type>, servers: Servers, limit: nat, m: Message)
    requires TableFits(defs, servers) && Closed(RPC_MSG, |defs|)
    ensures MessageSent(defs, servers, limit, m, Sent(defs, Judge(defs, servers, limit, RPC_MSG, m)))
  {
    var h := Decode(defs, LIBRARY, limit, RPC_MSG, m);
    if |m| % 4 == 0 && h.Done? {
      CallWords(defs, limit, m);
      if IsCall(h.value) {
        CallOnTheWire(defs, servers, limit, h.value, h.rest);
      }
    }
  }

  /** A server and a message, until every reply_cb is gone. */
  method Answer(server: Server, m: Message, limit: Word) returns (sent: seq<Message>)
    requires server.Valid()
    ensures Closed(RPC_MSG, |server.defs|) && MessageSent(server.defs, server.servers, limit, m, sent)
  {
    sent := server.Serve(m, limit);
    SentOnTheWire(server.defs, server.servers, limit, m);
  }

  // ----- what the client makes of it -----------------------------------------------------------

  /** What a client of a procedure with result type `res` makes of the words of a reply. */
  lemma {:induction false} WordsSeen(defs: seq<Type>, res: Type, climit: nat, xid: Word, a: Word, b: Word)
    requires WellFormed(defs) && Closed(RPC_MSG, |defs|) && Closed(res, |defs|) && climit >= 6
    ensures a != 0 && a != 2 ==>
      ClientSees(defs, RPC_MSG, res, climit, Words([xid, 1, 0, 0, 0, a])) == Seen(AcceptStat(a), None)
    ensures ClientSees(defs, RPC_MSG, res, climit, Words([xid, 1, 0, 0, 0, 2, a, b])) == Seen(AcceptStat(2), None)
    ensures ClientSees(defs, RPC_MSG, res, climit, Words([xid, 1, 1, 0, a, b])) == Seen(RpcversMismatch, None)
    ensures ClientSees(defs, RPC_MSG, res, climit, Words([xid, 1, 1, 1, a])) == Seen(AuthStat(a), None)
  {
    CodesOnTheWire(defs, xid, a, b);
    if a != 0 && a != 2 {
      VerdictSeen(defs, res, climit, xid, Error(a));
    }
    VerdictSeen(defs, res, climit, xid, ProgMismatch(a, b));
    VerdictSeen(defs, res, climit, xid, RpcMismatch(a, b));
    VerdictSeen(defs, res, climit, xid, AuthError(a));
  }

  /** A PROG_MISMATCH brings both versions to the client. */
  lemma {:induction false} VersionsArrive(defs: seq<Type>, climit: nat, xid: Word, low: Word, high: Word)
    requires WellFormed(defs) && Closed(RPC_MSG, |defs|) && climit >= 6
    ensures var h := Decode(defs, LIBRARY, climit, RPC_MSG, Words([xid, 1, 0, 0, 0, 2, low, high]));
      h.Done? && h.rest == [] && VersionsIn(h.value) == (low, high)
  {
    CodesOnTheWire(defs, xid, low, high);
    HeaderDecodes(defs, climit, xid, ProgMismatch(low, high), []);
    StatOfReply(xid, ProgMismatch(low, high));
  }

  /** The status that is due for a call that does not reach a handler: RPCVERS_MISMATCH for
      another version of RPC, 1 for an unknown program, 2 for an unknown version, 3 for an
      unknown procedure, 4 for arguments that do not decode. */
  ghost predicate StatusDue(
    defs: seq<Type>, servers: Servers, rpcvers: Word, prog: Word, vers: Word, proc: Word, limit: nat, args: seq<Byte>, stat: CallStat)
    requires TableFits(defs, servers)
  {
    if rpcvers != 2 then stat == RpcversMismatch
    else if prog !in servers then stat == AcceptStat(1)
    else if vers !in servers[prog] then stat == AcceptStat(2)
    else if proc !in servers[prog][vers].procs then stat == AcceptStat(3)
    else
      ProcClosed(defs, servers, prog, vers, proc);
      var d := Decode(defs, LIBRARY, limit, ArgTuple(servers[prog][vers].procs[proc].args), args);
      (d.Fail? || d.rest != []) && stat == AcceptStat(4)
  }

  /** Every such call gets one reply, which its client sees as that status. */
  lemma {:induction false} StatusSeen(
    defs: seq<Type>, servers: Servers, limit: nat, m: Message, sent: seq<Message>, stat: CallStat, res: Type, climit: nat)
    requires TableFits(defs, servers) && Closed(RPC_MSG, |defs|) && Closed(res, |defs|) && climit >= 6
    requires |m| % 4 == 0 && Decode(defs, LIBRARY, limit, RPC_MSG, m).Done? && WordAt(m, 1) == 0
    requires MessageSent(defs, servers, limit, m, sent)
    requires StatusDue(defs, servers, WordAt(m, 2), WordAt(m, 3), WordAt(m, 4), WordAt(m, 5), limit,
               Decode(defs, LIBRARY, limit, RPC_MSG, m).rest, stat)
    ensures |sent| == 1 && ClientSees(defs, RPC_MSG, res, climit, sent[0]) == Seen(stat, None)
  {
    var xid, prog, vers := WordAt(m, 0), WordAt(m, 3), WordAt(m, 4);
    if WordAt(m, 2) != 2 {
      WordsSeen(defs, res, climit, xid, 2, 2);
    } else if prog !in servers {
      WordsSeen(defs, res, climit, xid, 1, 0);
    } else if vers !in servers[prog] {
      MismatchSeen(defs, servers[prog], xid, sent, res, climit);
    } else {
      WordsSeen(defs, res, climit, xid, if WordAt(m, 5) in servers[prog][vers].procs then 4 else 3, 0);
    }
  }

  lemma {:induction false} MismatchSeen(
    defs: seq<Type>, versions: map<Word, Service>, xid: Word, sent: seq<Message>, res: Type, climit: nat)
    requires WellFormed(defs) && Closed(RPC_MSG, |defs|) && Closed(res, |defs|) && climit >= 6
    requires MismatchSent(versions, xid, sent)
    ensures |sent| == 1 && ClientSees(defs, RPC_MSG, res, climit, sent[0]) == Seen(AcceptStat(2), None)
  {
    var low, high :| IsLeast(low, versions) && IsGreatest(high, versions) && sent == [Words([xid, 1, 0, 0, 0, 2, low, high])];
    WordsSeen(defs, res, climit, xid, low, high);
  }

  /** A result behind its header is seen as that result, if it is within its bounds and not
      nested too deeply for the client. */
  lemma {:induction false} ResultWordsSeen(defs: seq<Type>, res: Type, climit: nat, xid: Word, v: Value)
    requires WellFormed(defs) && Closed(RPC_MSG, |defs|) && Closed(res, |defs|) && climit >= 6 && Sound(defs, res, v)
    requires InBounds(defs, res, v) && Depth(defs, res, v) <= climit
    ensures ClientSees(defs, RPC_MSG, res, climit, Words([xid, 1, 0, 0, 0, 0]) + Encode(defs, res, v)) == Seen(AcceptStat(0), Some(v))
  {
    RepliesOnTheWire(defs, xid, 0, 0);
    ResultSeen(defs, res, climit, xid, v);
  }

  /** The client takes whole replies only: behind a successful header exactly one result,
      behind any other nothing. */
  lemma {:induction false} SeenIsWhole(defs: seq<Type>, res: Type, climit: nat, m: Message)
    requires WellFormed(defs) && Closed(RPC_MSG, |defs|) && Closed(res, |defs|)
    ensures var seen, h := ClientSees(defs, RPC_MSG, res, climit, m), Decode(defs, LIBRARY, climit, RPC_MSG, m);
      && (seen.stat != GarbageRes ==> h.Done? && |m| % 4 == 0 && seen.stat == CallStatOf(h.value))
      && (seen.stat == AcceptStat(0) <==> seen.value.Some?)
      && (seen.value.Some? ==>
            && Sound(defs, res, seen.value.value) && InBounds(defs, res, seen.value.value)
            && Depth(defs, res, seen.value.value) <= climit && |h.rest| == |Encode(defs, res, seen.value.value)|)
      && (seen.stat != GarbageRes && seen.value.None? ==> h.rest == [])
  {
    var h := Decode(defs, LIBRARY, climit, RPC_MSG, m);
    if h.Done? && Decode(defs, LIBRARY, climit, res, h.rest).Done? {
      AcceptedBy(defs, LIBRARY, climit, false, res, h.rest);
    }
  }
}

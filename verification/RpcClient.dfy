/** The client side of RPC (xdrpp/arpc.h, xdrpp/rpc_msg.cc) and whole calls. */
module RpcClient {
  import opened Options
  import opened Bytes
  import opened Xdr
  import opened Codec
  import opened RoundTrip
  import opened Sizes
  import opened Get
  import opened Messages
  import opened RpcMsg
  import opened RpcServer
  import opened RpcDispatch

  // ----- replies -----------------------------------------------------------------------

  /** What the caller is told: a status, and the result of a successful call. */
  datatype Seen = Seen(stat: CallStat, value: Option<Value>)

  const GARBAGE := Seen(GarbageRes, None)

  /** What the client makes of a reply with a header of type `t` and a result of type `res`. */
  function ClientSees(defs: seq<Type>, t: Type, res: Type, limit: nat, m: Message): Seen
    requires WellFormed(defs) && Closed(t, |defs|) && Closed(res, |defs|)
  {
    var h := Decode(defs, LIBRARY, limit, t, m);
    if |m| % 4 != 0 || h.Fail? then GARBAGE else AfterHeader(defs, res, limit, CallStatOf(h.value), h.rest)
  }

  /** What follows the header: a result if the call was successful, otherwise nothing. */
  function AfterHeader(defs: seq<Type>, res: Type, limit: nat, stat: CallStat, rest: seq<Byte>): Seen
    requires WellFormed(defs) && Closed(res, |defs|)
  {
    if stat != AcceptStat(SUCCESS) then if rest == [] then Seen(stat, None) else GARBAGE
    else
      var r := Decode(defs, LIBRARY, limit, res, rest);
      if r.Done? && r.rest == [] then Seen(stat, Some(r.value)) else GARBAGE
  }

  method ReadResult(defs: seq<Type>, res: Type, stat: CallStat, source: Source) returns (seen: Seen)
    requires WellFormed(defs) && Closed(res, |defs|) && source.Valid()
    modifies source
    ensures seen == AfterHeader(defs, res, old(source.stackLimit), stat, old(source.Rest()))
  {
    seen := Seen(stat, None);
    if stat == AcceptStat(SUCCESS) {
      var error, v := source.Get(defs, res, Default(defs, res));
      if error.Some? {
        return GARBAGE;
      }
      seen := Seen(stat, Some(v));
    }
    if source.p != |source.data| {
      seen := GARBAGE;
    }
  }

  /** The callback of invoke; a null message is a network error. */
  method ReplyArrives(defs: seq<Type>, t: Type, res: Type, limit: Word, m: Option<Message>) returns (seen: Seen)
    requires WellFormed(defs) && Closed(t, |defs|) && Closed(res, |defs|)
    ensures seen == if m.None? then Seen(NetworkError, None) else ClientSees(defs, t, res, limit, m.value)
  {
    if m.None? {
      return Seen(NetworkError, None);
    }
    if |m.value| % 4 != 0 {
      return GARBAGE;
    }
    var source := new Source(m.value, limit);
    assert source.Rest() == m.value;
    var error, hdr := source.Get(defs, t, Default(defs, t));
    if error.Some? {
      return GARBAGE;
    }
    seen := ReadResult(defs, res, CallStatOf(hdr), source);
  }

  lemma {:induction false} HeaderDecodes(defs: seq<Type>, limit: nat, xid: Word, w: Verdict, rest: seq<Byte>)
    requires WellFormed(defs) && Closed(RPC_MSG, |defs|) && w.Valid() && limit >= 6
    ensures Decode(defs, LIBRARY, limit, RPC_MSG, ReplyCode(defs, xid, w, rest)) == Done(Reply(xid, w), rest)
  {
    KnownReply(defs, xid, w);
    DecodeOfEncode(defs, LIBRARY, limit, RPC_MSG, Reply(xid, w), rest);
  }

  lemma {:induction false} ReplyInWords(defs: seq<Type>, xid: Word, w: Verdict, t: Type, v: Value)
    ensures |ReplyCode(defs, xid, w, Encode(defs, t, v))| % 4 == 0 && |ReplyCode(defs, xid, w, [])| % 4 == 0
  {
    EncodedInWords(defs, RPC_MSG, Reply(xid, w));
    EncodedInWords(defs, t, v);
    WholeWords(Encode(defs, RPC_MSG, Reply(xid, w)), Encode(defs, t, v));
    WholeWords(Encode(defs, RPC_MSG, Reply(xid, w)), []);
  }

  /** A verdict reaches the client as its status. */
  lemma {:induction false} VerdictSeen(defs: seq<Type>, res: Type, limit: nat, xid: Word, w: Verdict)
    requires WellFormed(defs) && Closed(RPC_MSG, |defs|) && Closed(res, |defs|) && w.Valid() && !w.Success? && limit >= 6
    ensures ClientSees(defs, RPC_MSG, res, limit, ReplyCode(defs, xid, w, [])) == Seen(StatusOf(w), None)
  {
    HeaderDecodes(defs, limit, xid, w, []);
    ReplyInWords(defs, xid, w, Bool, VBool(false));
    StatOfReply(xid, w);
  }

  /** A result reaches the client exactly when it is within its bounds and not nested
      too deeply for the client; otherwise the client finds it garbage. */
  lemma {:induction false} ResultSeen(defs: seq<Type>, res: Type, limit: nat, xid: Word, v: Value)
    requires WellFormed(defs) && Closed(RPC_MSG, |defs|) && Closed(res, |defs|) && limit >= 6 && Sound(defs, res, v)
    ensures ClientSees(defs, RPC_MSG, res, limit, ReplyCode(defs, xid, Success, Encode(defs, res, v)))
      == if InBounds(defs, res, v) && Depth(defs, res, v) <= limit then Seen(AcceptStat(SUCCESS), Some(v)) else GARBAGE
  {
    var code := Encode(defs, res, v);
    HeaderDecodes(defs, limit, xid, Success, code);
    ReplyInWords(defs, xid, Success, res, v);
    StatOfReply(xid, Success);
    DecodeOfEncode(defs, LIBRARY, limit, res, v, []);
    assert code + [] == code;
  }

  // ----- exactly one reply ------------------------------------------------------------------

  /** The answer of the handler that a call reaches, if it reaches one. */
  ghost function Reached(defs: seq<Type>, servers: Servers, limit: nat, hdr: Value, args: seq<Byte>)
    : Option<(Service, Type, Answer)>
    requires TableFits(defs, servers)
  {
    var prog, vers, proc := CallField(hdr, 1), CallField(hdr, 2), CallField(hdr, 3);
    if CallField(hdr, 0) != 2 || prog !in servers || vers !in servers[prog] then None
    else
      ProcsFit(defs, servers, prog, vers, proc);
      var s := servers[prog][vers];
      if proc !in s.procs then None
      else
        var p := s.procs[proc];
        ArgTupleClosed(defs, p.args);
        var d := Decode(defs, LIBRARY, limit, ArgTuple(p.args), args);
        if d.Fail? || d.rest != [] then None else Some((s, p.res, p.handler(Unwrapped(d.value))))
  }

  /** An asynchronous handler, before it returns, passes its reply_cb a result that cannot
      be encoded. */
  ghost predicate Unsendable(defs: seq<Type>, servers: Servers, limit: nat, hdr: Value, args: seq<Byte>)
    requires TableFits(defs, servers)
  {
    var r := Reached(defs, servers, limit, hdr, args);
    && r.Some? && r.value.0.async && !r.value.2.deferred
    && r.value.2.act.Result? && !Encodable(defs, r.value.1, r.value.2.act.value, limit)
  }

  /** A call gets exactly one reply unless its result is unsendable, and then two. */
  lemma OneReply(defs: seq<Type>, servers: Servers, limit: nat, hdr: Value, args: seq<Byte>)
    requires TableFits(defs, servers)
    ensures var j := JudgeHeader(defs, servers, limit, hdr, args);
      && |Sent(defs, j)| == (if Unsendable(defs, servers, limit, hdr, args) then 2 else 1)
      && (j.Doubled? <==> Unsendable(defs, servers, limit, hdr, args))
  {
    var j := JudgeHeader(defs, servers, limit, hdr, args);
    var r := Reached(defs, servers, limit, hdr, args);
    if r.Some? {
      OneAnswer(defs, r.value.0.async, j.xid, r.value.1, limit, r.value.2);
    } else if CallField(hdr, 0) != 2 {
    } else if CallField(hdr, 1) !in servers {
    } else if CallField(hdr, 2) !in servers[CallField(hdr, 1)] {
    } else {
    }
  }

  lemma OneAnswer(defs: seq<Type>, async: bool, xid: Word, res: Type, limit: nat, a: Answer)
    ensures var j := JudgeAnswer(defs, async, xid, res, limit, a);
      && |Sent(defs, j)| == (if j.Doubled? then 2 else 1)
      && (j.Doubled? <==> async && !a.deferred && a.act.Result? && !Encodable(defs, res, a.act.value, limit))
  {
  }

  /** Such a result: a union whose tag has no arm.  Passed on later, it is not sent at all,
      and the reply_cb sends PROC_UNAVAIL when it goes away. */
  lemma ResultSentTwice(xid: Word, limit: nat)
    ensures var t, v := Union(false, [Arm([1], false, None)]), VUnion(0, []);
      && ActFits([], true, t, Result(v))
      && JudgeAnswer([], true, xid, t, limit, Answer(Result(v), false)) == Doubled(xid)
      && JudgeAnswer([], true, xid, t, limit, Answer(Result(v), true)) == Answered(xid, Error(PROC_UNAVAIL))
  {
    var arms := [Arm([1], false, None)];
    assert PickLabel(arms, 0, 1) == -1 && PickDefault(arms, 1) == -1;
    assert Pick(arms, 0) == -1;
    assert Encode([], Union(false, arms), VUnion(0, [])) == Be32(0) + [];
  }

  /** The status that an outcome should have for a client with the given stack limit. */
  function Due(defs: seq<Type>, limit: nat, j: Judgement): Seen
    requires j.Answered? || j.Returned?
  {
    if j.Answered? then Seen(StatusOf(j.verdict), None)
    else if InBounds(defs, j.res, j.value) && Depth(defs, j.res, j.value) <= limit then
      Seen(AcceptStat(SUCCESS), Some(j.value))
    else GARBAGE
  }

  /** Every verdict in an outcome can be stated by a reply. */
  predicate Stateable(defs: seq<Type>, res: Type, j: Judgement) {
    && (j.Answered? ==> j.verdict.Valid() && !j.verdict.Success?)
    && (j.Returned? ==> j.res == res && Sound(defs, res, j.value))
  }

  lemma AnswerIsStateable(defs: seq<Type>, async: bool, xid: Word, res: Type, limit: nat, a: Answer)
    requires AnswerFits(defs, async, res, a)
    ensures Stateable(defs, res, JudgeAnswer(defs, async, xid, res, limit, a))
  {
  }

  lemma OutcomeIsStateable(
    defs: seq<Type>, servers: Servers, limit: nat, hdr: Value, args: seq<Byte>, res: Type)
    requires TableFits(defs, servers)
    requires var r := Reached(defs, servers, limit, hdr, args); r.Some? ==> r.value.1 == res
    ensures Stateable(defs, res, JudgeHeader(defs, servers, limit, hdr, args))
  {
    var r := Reached(defs, servers, limit, hdr, args);
    if r.Some? {
      var s := servers[CallField(hdr, 1)][CallField(hdr, 2)];
      ProcsFit(defs, servers, CallField(hdr, 1), CallField(hdr, 2), CallField(hdr, 3));
      var p := s.procs[CallField(hdr, 3)];
      ArgTupleClosed(defs, p.args);
      var d := Decode(defs, LIBRARY, limit, ArgTuple(p.args), args);
      assert AnswerFits(defs, s.async, p.res, p.handler(Unwrapped(d.value)));
      AnswerIsStateable(defs, s.async, XidOf(hdr), p.res, limit, p.handler(Unwrapped(d.value)));
    }
  }

  /** The reply that the server writes by hand or by the success header is classified by
      the client, through the general schema, as the status that the call deserves. */
  lemma {:induction false} StatusEndToEnd(
    defs: seq<Type>, servers: Servers, limit: nat, hdr: Value, args: seq<Byte>, res: Type, climit: nat)
    requires TableFits(defs, servers)
    requires Closed(RPC_MSG, |defs|) && Closed(res, |defs|) && climit >= 6
    requires var r := Reached(defs, servers, limit, hdr, args); r.Some? ==> r.value.1 == res
    requires !Unsendable(defs, servers, limit, hdr, args)
    ensures var j := JudgeHeader(defs, servers, limit, hdr, args);
      && |Sent(defs, j)| == 1 && (j.Answered? || j.Returned?)
      && ClientSees(defs, RPC_MSG, res, climit, Sent(defs, j)[0]) == Due(defs, climit, j)
  {
    OneReply(defs, servers, limit, hdr, args);
    OutcomeIsStateable(defs, servers, limit, hdr, args, res);
    SeenAsDue(defs, JudgeHeader(defs, servers, limit, hdr, args), res, climit);
  }

  lemma {:induction false} SeenAsDue(defs: seq<Type>, j: Judgement, res: Type, climit: nat)
    requires WellFormed(defs) && Closed(RPC_MSG, |defs|) && Closed(res, |defs|) && climit >= 6
    requires (j.Answered? || j.Returned?) && Stateable(defs, res, j)
    ensures ClientSees(defs, RPC_MSG, res, climit, Sent(defs, j)[0]) == Due(defs, climit, j)
  {
    if j.Answered? {
      VerdictSeen(defs, res, climit, j.xid, j.verdict);
    } else {
      ResultSeen(defs, res, climit, j.xid, j.value);
    }
  }
}

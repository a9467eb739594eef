/** Dispatch of calls to services, and the status that the caller sees (xdrpp/server.cc,
    xdrpp/server.h, xdrpp/srpc.h, xdrpp/arpc.h). */
module RpcDispatch {
  import opened Options
  import opened Bytes
  import opened Xdr
  import opened Codec
  import opened RoundTrip
  import opened Sizes
  import opened Get
  import opened Messages
  import opened RpcMsg
  import opened RpcServer

  // ----- what a call deserves -------------------------------------------------------------

  type Servers = map<Word, map<Word, Service>>

  /** The outcome that sections 8.1 and 9 of RFC 5531 give a message: nothing, a verdict
      without results, or the result of the procedure.  `Doubled` is not theirs. */
  datatype Judgement =
    | Disconnected
    | Ignored
    | Answered(xid: Word, verdict: Verdict)
    | Returned(xid: Word, res: Type, value: Value)
    | Doubled(xid: Word)

  predicate IsLeast(k: Word, versions: map<Word, Service>) {
    k in versions && forall j :: j in versions ==> k <= j
  }

  predicate IsGreatest(k: Word, versions: map<Word, Service>) {
    k in versions && forall j :: j in versions ==> j <= k
  }

  /** The ends of an ordered map: cbegin and crbegin. */
  method Ends(versions: map<Word, Service>) returns (low: Word, high: Word)
    requires versions != map[]
    ensures IsLeast(low, versions) && IsGreatest(high, versions)
  {
    var k :| k in versions;
    low, high := k, k;
    var rest := versions.Keys;
    while rest != {}
      invariant rest <= versions.Keys && low in versions && high in versions
      invariant forall j :: j in versions ==> j in rest || low <= j <= high
      decreases |rest|
    {
      k :| k in rest;
      if k < low {
        low := k;
      }
      if k > high {
        high := k;
      }
      rest := rest - {k};
    }
  }

  lemma {:induction false} BoundsExist(keys: set<Word>) returns (low: Word, high: Word)
    requires keys != {}
    ensures low in keys && high in keys && forall j :: j in keys ==> low <= j <= high
  {
    var x :| x in keys;
    var rest := keys - {x};
    low, high := x, x;
    if rest != {} {
      var a, b := BoundsExist(rest);
      low, high := if a < x then a else x, if b > x then b else x;
      forall j | j in keys ensures low <= j <= high {
        assert j == x || j in rest;
      }
    } else {
      forall j | j in keys ensures low <= j <= high {
        assert j !in rest;
      }
    }
  }

  ghost function Least(versions: map<Word, Service>): (k: Word)
    requires versions != map[]
    ensures IsLeast(k, versions)
  {
    assert exists k :: IsLeast(k, versions) by {
      var low, _ := BoundsExist(versions.Keys);
      assert IsLeast(low, versions);
    }
    var k :| IsLeast(k, versions);
    k
  }

  ghost function Greatest(versions: map<Word, Service>): (k: Word)
    requires versions != map[]
    ensures IsGreatest(k, versions)
  {
    assert exists k :: IsGreatest(k, versions) by {
      var _, high := BoundsExist(versions.Keys);
      assert IsGreatest(high, versions);
    }
    var k :| IsGreatest(k, versions);
    k
  }

  /** What a handler's answer amounts to. */
  function JudgeAnswer(defs: seq<Type>, async: bool, xid: Word, res: Type, limit: nat, a: Answer): (j: Judgement)
    ensures !j.Disconnected? && !j.Ignored? && j.xid == xid
  {
    match a.act
    case Result(v) =>
      if Encodable(defs, res, v, limit) then Returned(xid, res, v)
      else if !async then Answered(xid, Error(GARBAGE_ARGS))
      else if a.deferred then Answered(xid, Error(PROC_UNAVAIL))
      else Doubled(xid)
    case Reject(w) => Answered(xid, w)
    case Dropped => Answered(xid, Error(PROC_UNAVAIL))
  }

  /** A call of a procedure of `s` with the given argument bytes. */
  function JudgeCall(defs: seq<Type>, s: Service, xid: Word, proc: Word, limit: nat, args: seq<Byte>): (j: Judgement)
    requires WellFormed(defs) && (proc in s.procs ==> ClosedArgs(defs, s.procs[proc].args))
    ensures !j.Disconnected? && !j.Ignored? && j.xid == xid
  {
    if proc !in s.procs then Answered(xid, Error(PROC_UNAVAIL))
    else
      var p := s.procs[proc];
      ArgTupleClosed(defs, p.args);
      var d := Decode(defs, LIBRARY, limit, ArgTuple(p.args), args);
      if d.Fail? || d.rest != [] then Answered(xid, Error(GARBAGE_ARGS))
      else JudgeAnswer(defs, s.async, xid, p.res, limit, p.handler(Unwrapped(d.value)))
  }

  /** The fields of a call header. */
  function XidOf(hdr: Value): Word { WordOf(At(hdr, 0)) }

  function CallField(hdr: Value, i: nat): Word { WordOf(At(At(At(hdr, 1), 0), i)) }

  predicate IsCall(hdr: Value) { TagOf(At(hdr, 1)) == CALL }

  /** The table is indexed by the programs and versions of its services. */
  ghost predicate TableFits(defs: seq<Type>, servers: Servers) {
    && WellFormed(defs)
    && forall p :: p in servers ==> servers[p] != map[] && VersionsFit(defs, p, servers[p])
  }

  ghost predicate VersionsFit(defs: seq<Type>, p: Word, versions: map<Word, Service>) {
    forall v :: v in versions ==> versions[v].prog == p && versions[v].vers == v && ServiceFits(defs, versions[v])
  }

  /** The outcome of a call with a header and argument bytes. */
  ghost function JudgeHeader(defs: seq<Type>, servers: Servers, limit: nat, hdr: Value, args: seq<Byte>): (j: Judgement)
    requires TableFits(defs, servers)
    ensures !j.Disconnected? && !j.Ignored? && j.xid == XidOf(hdr)
  {
    var xid, prog, vers, proc := XidOf(hdr), CallField(hdr, 1), CallField(hdr, 2), CallField(hdr, 3);
    if CallField(hdr, 0) != 2 then Answered(xid, RpcMismatch(2, 2))
    else if prog !in servers then Answered(xid, Error(PROG_UNAVAIL))
    else if vers !in servers[prog] then Answered(xid, ProgMismatch(Least(servers[prog]), Greatest(servers[prog])))
    else ProcsFit(defs, servers, prog, vers, proc); JudgeCall(defs, servers[prog][vers], xid, proc, limit, args)
  }

  lemma ProcsFit(defs: seq<Type>, servers: Servers, prog: Word, vers: Word, proc: Word)
    requires TableFits(defs, servers) && prog in servers && vers in servers[prog]
    ensures var s := servers[prog][vers];
      && s.prog == prog && s.vers == vers && ServiceFits(defs, s)
      && (proc in s.procs ==> ProcFits(defs, s.async, s.procs[proc]))
  {
    assert VersionsFit(defs, prog, servers[prog]);
  }

  /** The outcome of message `m`, whose header is of type `t`. */
  ghost function Judge(defs: seq<Type>, servers: Servers, limit: nat, t: Type, m: Message): Judgement
    requires TableFits(defs, servers) && Closed(t, |defs|)
  {
    if |m| % 4 != 0 then Disconnected
    else
      var o := Decode(defs, LIBRARY, limit, t, m);
      if o.Fail? || !IsCall(o.value) then Ignored else JudgeHeader(defs, servers, limit, o.value, o.rest)
  }

  /** What is sent for an outcome. */
  function Sent(defs: seq<Type>, j: Judgement): seq<Message> {
    match j
    case Disconnected => []
    case Ignored => []
    case Answered(xid, w) => [ReplyCode(defs, xid, w, [])]
    case Returned(xid, res, v) => [ReplyCode(defs, xid, Success, Encode(defs, res, v))]
    case Doubled(xid) =>
      [ReplyCode(defs, xid, Error(PROC_UNAVAIL), []), ReplyCode(defs, xid, Error(GARBAGE_ARGS), [])]
  }

  lemma {:induction false} ClosedMsg(n: nat)
    ensures Closed(RPC_MSG, n)
  {
    assert Closed(OPAQUE_AUTH, n) && Closed(MISMATCH_INFO, n);
    assert Closed(CALL_BODY, n) && Closed(REPLY_DATA, n) && Closed(REJECTED_REPLY, n);
    assert Closed(ACCEPTED_REPLY, n);
    assert Closed(REPLY_BODY, n);
    assert Closed(BODY, n);
  }

  // ----- the server ------------------------------------------------------------------------

  /** A reply_cb that a handler has kept, and what it is going to do with it. */
  datatype Kept = Kept(cb: ReplyCb, res: Type, act: Act)

  /** The outcome of process: whether an exception left it, what was sent before, and a
      reply_cb that is still to be used. */
  datatype Processed = Processed(threw: bool, sent: seq<Message>, kept: Option<Kept>)

  /** What dispatch makes of it: a reply of its own for an exception. */
  function Caught(defs: seq<Type>, xid: Word, r: Processed): seq<Message> {
    if r.threw then r.sent + [ReplyCode(defs, xid, Error(GARBAGE_ARGS), [])] else r.sent
  }

  /** A kept reply_cb from which `j` will come. */
  ghost predicate KeptFor(k: Kept, defs: seq<Type>, limit: nat, j: Judgement)
    reads k.cb
  {
    && k.cb.Valid() && k.cb.pending && k.cb.defs == defs && Closed(k.res, |defs|) && ActFits(defs, true, k.res, k.act)
    && j == JudgeAnswer(defs, true, k.cb.xid, k.res, limit, Answer(k.act, true))
  }

  /** What has been sent for `j`, or will be by a kept reply_cb. */
  ghost predicate Promises(sent: seq<Message>, kept: Option<Kept>, defs: seq<Type>, limit: nat, j: Judgement)
    reads if kept.Some? then {kept.value.cb} else {}
  {
    if kept.Some? then sent == [] && KeptFor(kept.value, defs, limit, j) else sent == Sent(defs, j)
  }

  method SendError(defs: seq<Type>, xid: Word, stat: Word) returns (sent: seq<Message>)
    requires stat != SUCCESS && stat != PROG_MISMATCH
    ensures sent == [ReplyCode(defs, xid, Error(stat), [])]
  {
    var m := AcceptedErrorMsg(defs, xid, stat);
    assert ReplyCode(defs, xid, Error(stat), []) == m;
    sent := [m];
  }

  /** srpc_service::dispatch, once the arguments are decoded. */
  method AnswerNow(defs: seq<Type>, xid: Word, res: Type, limit: Word, a: Answer) returns (r: Processed)
    requires WellFormed(defs) && Closed(res, |defs|) && AnswerFits(defs, false, res, a)
    ensures r.kept.None? && Caught(defs, xid, r) == Sent(defs, JudgeAnswer(defs, false, xid, res, limit, a))
  {
    var m := SuccessMsg(defs, xid, res, a.act.value, limit);
    r := if m.Some? then Processed(false, [m.value], None) else Processed(true, [], None);
  }

  /** A handler uses its reply_cb, or does not, and it goes away.  If sending the result
      throws, the exception unwinds the user of the reply_cb and so drops it. */
  method UseUp(cb: ReplyCb, res: Type, act: Act, limit: Word) returns (threw: bool)
    requires cb.Valid() && cb.pending && Closed(res, |cb.defs|) && ActFits(cb.defs, true, res, act)
    modifies cb
    ensures cb.Valid() && !cb.pending
    ensures threw == (act.Result? && !Encodable(cb.defs, res, act.value, limit))
    ensures cb.sent == Sent(cb.defs, JudgeAnswer(cb.defs, true, cb.xid, res, limit, Answer(act, true)))
  {
    threw := false;
    if act.Result? {
      threw := cb.SendReply(res, act.value, limit);
    } else if act.Reject? {
      cb.RejectWith(act.verdict);
    }
    cb.Drop();
  }

  /** arpc_service::dispatch, once the arguments are decoded: the handler acts at once, or
      keeps its reply_cb. */
  method AnswerLater(defs: seq<Type>, xid: Word, res: Type, limit: Word, a: Answer) returns (r: Processed)
    requires WellFormed(defs) && Closed(res, |defs|) && AnswerFits(defs, true, res, a)
    ensures r.kept.Some? <==> a.deferred
    ensures r.kept.Some? ==> fresh(r.kept.value.cb) && !r.threw && r.sent == []
    ensures r.kept.Some? ==> KeptFor(r.kept.value, defs, limit, JudgeAnswer(defs, true, xid, res, limit, a))
    ensures r.kept.None? ==> Caught(defs, xid, r) == Sent(defs, JudgeAnswer(defs, true, xid, res, limit, a))
  {
    var cb := new ReplyCb(defs, xid);
    if a.deferred {
      assert a == Answer(a.act, true);
      return Processed(false, [], Some(Kept(cb, res, a.act)));
    }
    var threw := UseUp(cb, res, a.act, limit);
    r := Processed(threw, cb.sent, None);
  }

  /** check_call. */
  predicate CheckCall(s: Service, hdr: Value) {
    IsCall(hdr) && CallField(hdr, 0) == 2 && CallField(hdr, 1) == s.prog && CallField(hdr, 2) == s.vers
  }

  /** decode_arg into a new tuple of arguments. */
  method DecodeArg(defs: seq<Type>, ts: seq<Type>, source: Source, limit: Word) returns (vs: Option<seq<Value>>)
    requires ClosedArgs(defs, ts) && source.Valid() && source.stackLimit == limit
    modifies source
    ensures Closed(ArgTuple(ts), |defs|)
    ensures var d := Decode(defs, LIBRARY, limit, ArgTuple(ts), old(source.Rest()));
      vs == if d.Fail? || d.rest != [] then None else Some(Unwrapped(d.value))
  {
    ArgTupleClosed(defs, ts);
    var error, arg := source.Get(defs, ArgTuple(ts), Default(defs, ArgTuple(ts)));
    vs := if error.Some? || source.p != |source.data| then None else Some(Unwrapped(arg));
  }

  /** process and dispatch of a service; dispatch only calls it when check_call holds. */
  method Process(defs: seq<Type>, s: Service, hdr: Value, source: Source, limit: Word) returns (r: Processed)
    requires WellFormed(defs) && ServiceFits(defs, s) && CheckCall(s, hdr)
    requires source.Valid() && source.stackLimit == limit
    modifies source
    ensures CallField(hdr, 3) in s.procs ==> ClosedArgs(defs, s.procs[CallField(hdr, 3)].args)
    ensures r.kept.Some? ==> fresh(r.kept.value.cb) && !r.threw
    ensures Promises(Caught(defs, XidOf(hdr), r), r.kept, defs, limit,
              JudgeCall(defs, s, XidOf(hdr), CallField(hdr, 3), limit, old(source.Rest())))
  {
    var xid, proc := XidOf(hdr), CallField(hdr, 3);
    if proc !in s.procs {
      var sent := SendError(defs, xid, PROC_UNAVAIL);
      return Processed(false, sent, None);
    }
    var p := s.procs[proc];
    assert ProcFits(defs, s.async, p);
    var vs := DecodeArg(defs, p.args, source, limit);
    if vs.None? {
      var sent := SendError(defs, xid, GARBAGE_ARGS);
      return Processed(false, sent, None);
    }
    if s.async {
      r := AnswerLater(defs, xid, p.res, limit, p.handler(vs.value));
    } else {
      r := AnswerNow(defs, xid, p.res, limit, p.handler(vs.value));
    }
  }

  class Server {
    const defs: seq<Type>
    var servers: Servers

    ghost predicate Valid()
      reads this
    {
      TableFits(defs, servers)
    }

    constructor (defs: seq<Type>)
      requires WellFormed(defs)
      ensures Valid() && this.defs == defs && servers == map[]
    {
      this.defs, servers := defs, map[];
    }

    /** register_service_base. */
    method Register(s: Service)
      requires Valid() && ServiceFits(defs, s)
      modifies this
      ensures Valid()
      ensures servers == old(servers)[s.prog := (if s.prog in old(servers) then old(servers)[s.prog] else map[])[s.vers := s]]
    {
      var versions: map<Word, Service> := if s.prog in servers then servers[s.prog] else map[];
      assert VersionsFit(defs, s.prog, versions);
      var more: map<Word, Service> := versions[s.vers := s];
      assert s.vers in more;
      assert VersionsFit(defs, s.prog, more);
      servers := servers[s.prog := more];
    }

    /** The dispatch of a call whose header is decoded. */
    method DispatchCall(hdr: Value, source: Source, limit: Word) returns (sent: seq<Message>, kept: Option<Kept>)
      requires Valid() && IsCall(hdr) && source.Valid() && source.stackLimit == limit
      modifies source
      ensures kept.Some? ==> fresh(kept.value.cb)
      ensures Promises(sent, kept, defs, limit, JudgeHeader(defs, servers, limit, hdr, old(source.Rest())))
    {
      kept := None;
      var xid, prog, vers := XidOf(hdr), CallField(hdr, 1), CallField(hdr, 2);
      var m;
      if CallField(hdr, 0) != 2 {
        m := RpcMismatchMsg(defs, xid);
        assert ReplyCode(defs, xid, RpcMismatch(2, 2), []) == m;
        return [m], None;
      }
      if prog !in servers {
        sent := SendError(defs, xid, PROG_UNAVAIL);
        return;
      }
      if vers !in servers[prog] {
        var low, high := Ends(servers[prog]);
        m := ProgMismatchMsg(defs, xid, low, high);
        assert ReplyCode(defs, xid, ProgMismatch(low, high), []) == m;
        return [m], None;
      }
      var s := servers[prog][vers];
      ProcsFit(defs, servers, prog, vers, CallField(hdr, 3));
      var r := Process(defs, s, hdr, source, limit);
      sent, kept := r.sent, r.kept;
      if r.threw {
        var e := SendError(defs, xid, GARBAGE_ARGS);
        sent := sent + e;
      }
    }

    /** rpc_server_base::dispatch: what the message deserves has been sent, or will be by a
        reply_cb that the handler has kept.  `threw` is the exception for a message that is
        not a whole number of words. */
    method Dispatch(m: Message, limit: Word) returns (threw: bool, sent: seq<Message>, kept: Option<Kept>)
      requires Valid()
      ensures Closed(RPC_MSG, |defs|)
      ensures kept.Some? ==> fresh(kept.value.cb)
      ensures Promises(sent, kept, defs, limit, Judge(defs, servers, limit, RPC_MSG, m))
      ensures threw == Judge(defs, servers, limit, RPC_MSG, m).Disconnected?
    {
      ClosedMsg(|defs|);
      threw, sent, kept := DispatchAs(RPC_MSG, m, limit);
    }

    method DispatchAs(t: Type, m: Message, limit: Word) returns (threw: bool, sent: seq<Message>, kept: Option<Kept>)
      requires Valid() && Closed(t, |defs|)
      ensures kept.Some? ==> fresh(kept.value.cb)
      ensures Promises(sent, kept, defs, limit, Judge(defs, servers, limit, t, m))
      ensures threw == Judge(defs, servers, limit, t, m).Disconnected?
    {
      if |m| % 4 != 0 {
        return true, [], None;
      }
      threw := false;
      var source := new Source(m, limit);
      assert source.Rest() == m;
      var error, hdr := source.Get(defs, t, Default(defs, t));
      if error.Some? || !IsCall(hdr) {
        return false, [], None;
      }
      sent, kept := DispatchCall(hdr, source, limit);
    }

    /** A message from its arrival until every reply_cb is gone: exactly what it deserves is
        sent, whether the handler answers at once or later. */
    method Serve(m: Message, limit: Word) returns (sent: seq<Message>)
      requires Valid()
      ensures Closed(RPC_MSG, |defs|)
      ensures sent == Sent(defs, Judge(defs, servers, limit, RPC_MSG, m))
    {
      var threw, kept;
      threw, sent, kept := Dispatch(m, limit);
      if kept.Some? {
        var _ := UseUp(kept.value.cb, kept.value.res, kept.value.act, limit);
        sent := kept.value.cb.sent;
      }
    }
  }
}

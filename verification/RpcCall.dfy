/** A call from the client's arguments to the handler and back (xdrpp/arpc.h). */
module RpcCall {
  import opened Options
  import opened Bytes
  import opened Xdr
  import opened Codec
  import opened RoundTrip
  import opened Sizes
  import opened Messages
  import opened RpcMsg
  import opened RpcServer
  import opened RpcDispatch
  import opened RpcClient
  import opened Framing

  /** The header that invoke makes. */
  function CallHdr(xid: Word, prog: Word, vers: Word, proc: Word): Value {
    VSeq([VInt(xid), VUnion(CALL, [CallBody(prog, vers, proc)])])
  }

  function CallBody(prog: Word, vers: Word, proc: Word): Value {
    VSeq([VInt(2), VInt(prog), VInt(vers), VInt(proc), NO_AUTH, NO_AUTH])
  }

  // ----- the header in the schema ----------------------------------------------------------

  /** What is known about the fields of a struct from `i` on. */
  predicate KnownFrom(defs: seq<Type>, u: Type, v: Value, i: nat, depth: nat, code: seq<Byte>) {
    && i <= |v.Parts()| && EncodeFrom(defs, u, v, i) == code && DepthFrom(defs, u, v, i) == depth
    && forall j :: i <= j < |v.Parts()| ==> KnownPart(defs, Part(u, Head(u, v), j), v.Parts()[j])
  }

  predicate KnownPart(defs: seq<Type>, t: Type, v: Value) {
    Sound(defs, t, v) && InBounds(defs, t, v)
  }

  lemma KnownStep(defs: seq<Type>, u: Type, v: Value, i: nat, d: nat, s: seq<Byte>, e: nat, r: seq<Byte>)
    requires i < |v.Parts()| && Known(defs, Part(u, Head(u, v), i), v.Parts()[i], d, s)
    requires KnownFrom(defs, u, v, i + 1, e, r)
    ensures KnownFrom(defs, u, v, i, if d < e then e else d, s + r)
  {
    forall j | i <= j < |v.Parts()| ensures KnownPart(defs, Part(u, Head(u, v), j), v.Parts()[j]) {
    }
  }

  lemma KnownStruct(defs: seq<Type>, ts: seq<Type>, v: Value, d: nat, s: seq<Byte>)
    requires v.VSeq? && |v.parts| == |ts| && KnownFrom(defs, Struct(ts), v, 0, d, s)
    ensures Known(defs, Struct(ts), v, 1 + d, s)
  {
    var u := Struct(ts);
    forall j | 0 <= j < |v.Parts()| ensures
        Shaped(defs, Part(u, Head(u, v), j), v.Parts()[j]) && Live(defs, Part(u, Head(u, v), j), v.Parts()[j])
        && InBounds(defs, Part(u, Head(u, v), j), v.Parts()[j])
    {
      assert KnownPart(defs, Part(u, Head(u, v), j), v.Parts()[j]);
    }
    assert [] + s == s;
  }

  /** A field that is a word. */
  lemma {:induction false} KnownWordStep(defs: seq<Type>, u: Type, v: Value, i: nat, w: Word, d: nat, ws: seq<Word>)
    requires i < |v.Parts()| && Part(u, Head(u, v), i) == U32 && v.Parts()[i] == VInt(w)
    requires KnownFrom(defs, u, v, i + 1, d, Words(ws))
    ensures KnownFrom(defs, u, v, i, d, Words([w] + ws))
  {
    KnownWord(defs, w);
    KnownStep(defs, u, v, i, 0, Words([w]), d, Words(ws));
    WordsAppend([w], ws);
  }

  /** A field without credentials. */
  lemma {:induction false} KnownAuthStep(defs: seq<Type>, u: Type, v: Value, i: nat, d: nat, ws: seq<Word>)
    requires i < |v.Parts()| && Part(u, Head(u, v), i) == OPAQUE_AUTH && v.Parts()[i] == NO_AUTH && d <= 1
    requires KnownFrom(defs, u, v, i + 1, d, Words(ws))
    ensures KnownFrom(defs, u, v, i, 1, Words([AUTH_NONE, 0] + ws))
  {
    KnownNoAuth(defs);
    KnownStep(defs, u, v, i, 1, Words([AUTH_NONE, 0]), d, Words(ws));
    WordsAppend([AUTH_NONE, 0], ws);
  }

  /** The two fields without credentials. */
  lemma KnownAuths(defs: seq<Type>, prog: Word, vers: Word, proc: Word) returns (ws: seq<Word>)
    ensures KnownFrom(defs, CALL_BODY, CallBody(prog, vers, proc), 4, 1, Words(ws)) && ws == [0, 0, 0, 0]
  {
    var u, v := CALL_BODY, CallBody(prog, vers, proc);
    assert KnownFrom(defs, u, v, 6, 0, Words([]));
    KnownAuthStep(defs, u, v, 5, 0, []);
    KnownAuthStep(defs, u, v, 4, 1, [AUTH_NONE, 0] + []);
    ws := [AUTH_NONE, 0] + ([AUTH_NONE, 0] + []);
  }

  /** The version and the procedure, and what follows. */
  lemma KnownProc(defs: seq<Type>, prog: Word, vers: Word, proc: Word) returns (ws: seq<Word>)
    ensures KnownFrom(defs, CALL_BODY, CallBody(prog, vers, proc), 2, 1, Words(ws)) && ws == [vers, proc, 0, 0, 0, 0]
  {
    var u, v := CALL_BODY, CallBody(prog, vers, proc);
    ws := KnownAuths(defs, prog, vers, proc);
    KnownWordStep(defs, u, v, 3, proc, 1, ws);
    KnownWordStep(defs, u, v, 2, vers, 1, [proc] + ws);
    ws := [vers] + ([proc] + ws);
  }

  lemma KnownCallBody(defs: seq<Type>, prog: Word, vers: Word, proc: Word) returns (ws: seq<Word>)
    ensures Known(defs, CALL_BODY, CallBody(prog, vers, proc), 2, Words(ws)) && ws == [2, prog, vers, proc, 0, 0, 0, 0]
  {
    var u, v := CALL_BODY, CallBody(prog, vers, proc);
    ws := KnownProc(defs, prog, vers, proc);
    KnownWordStep(defs, u, v, 1, prog, 1, ws);
    KnownWordStep(defs, u, v, 0, 2, 1, [prog] + ws);
    ws := [2] + ([prog] + ws);
    KnownStruct(defs, CALL_BODY.fields, v, 1, Words(ws));
  }

  lemma {:induction false} KnownCall(defs: seq<Type>, xid: Word, prog: Word, vers: Word, proc: Word)
    ensures Known(defs, RPC_MSG, CallHdr(xid, prog, vers, proc), 4, Encode(defs, RPC_MSG, CallHdr(xid, prog, vers, proc)))
    ensures Encode(defs, RPC_MSG, CallHdr(xid, prog, vers, proc)) == Words([xid, 0, 2, prog, vers, proc, 0, 0, 0, 0])
  {
    var body := CallBody(prog, vers, proc);
    var ws := KnownCallBody(defs, prog, vers, proc);
    PickBinary(CALL_BODY, REPLY_BODY, CALL);
    KnownUnion(defs, BODY.arms, CALL, CALL_BODY, body, 2, Words(ws));
    KnownWord(defs, xid);
    KnownPair(defs, U32, VInt(xid), 0, Words([xid]), BODY, VUnion(CALL, [body]), 3, Words([CALL]) + Words(ws));
    WordsAppend([CALL], ws);
    WordsAppend([xid], [CALL] + ws);
    assert [xid] + ([CALL] + ws) == [xid, 0, 2, prog, vers, proc, 0, 0, 0, 0];
  }

  // ----- the arguments ------------------------------------------------------------------------

  /** What follows a header is the encoding of the arguments alone. */
  lemma {:induction false} BehindHeader(defs: seq<Type>, t: Type, h: Value, ts: seq<Type>, vs: seq<Value>, i: nat)
    requires |ts| == |vs| && i <= |vs|
    ensures EncodeFrom(defs, Struct([t] + ts), VSeq([h] + vs), i + 1) == EncodeFrom(defs, Struct(ts), VSeq(vs), i)
    decreases |vs| - i
  {
    if i < |vs| {
      assert ([t] + ts)[i + 1] == ts[i] && ([h] + vs)[i + 1] == vs[i];
      BehindHeader(defs, t, h, ts, vs, i + 1);
    }
  }

  /** The message that invoke sends: xdr_to_msg(hdr, args...). */
  function CallCode(defs: seq<Type>, hdr: Value, ts: seq<Type>, vs: seq<Value>): Message {
    EncodeArgs(defs, [RPC_MSG] + ts, [hdr] + vs)
  }

  lemma {:induction false} ArgsSplit(defs: seq<Type>, t: Type, h: Value, ts: seq<Type>, vs: seq<Value>)
    requires |ts| == |vs|
    ensures EncodeArgs(defs, [t] + ts, [h] + vs) == Encode(defs, t, h) + EncodeArgs(defs, ts, vs)
  {
    BehindHeader(defs, t, h, ts, vs, 0);
    assert ([t] + ts)[0] == t && ([h] + vs)[0] == h;
  }

  lemma {:induction false} CallCodeSplits(defs: seq<Type>, hdr: Value, ts: seq<Type>, vs: seq<Value>)
    requires |ts| == |vs|
    ensures CallCode(defs, hdr, ts, vs) == Encode(defs, RPC_MSG, hdr) + EncodeArgs(defs, ts, vs)
  {
    ArgsSplit(defs, RPC_MSG, hdr, ts, vs);
  }

  lemma {:induction false} DepthBehindHeader(defs: seq<Type>, t: Type, h: Value, ts: seq<Type>, vs: seq<Value>, i: nat)
    requires |ts| == |vs| && i <= |vs|
    ensures DepthFrom(defs, Struct([t] + ts), VSeq([h] + vs), i + 1) == DepthFrom(defs, Struct(ts), VSeq(vs), i)
    decreases |vs| - i
  {
    if i < |vs| {
      assert ([t] + ts)[i + 1] == ts[i] && ([h] + vs)[i + 1] == vs[i];
      DepthBehindHeader(defs, t, h, ts, vs, i + 1);
    }
  }

  /** The header is nested four deep, the arguments lie beside it. */
  lemma {:induction false} CallDepth(
    defs: seq<Type>, xid: Word, prog: Word, vers: Word, proc: Word, ts: seq<Type>, vs: seq<Value>)
    requires |ts| == |vs|
    ensures var d := ArgsDepth(defs, ts, vs);
      ArgsDepth(defs, [RPC_MSG] + ts, [CallHdr(xid, prog, vers, proc)] + vs) == if d < 4 then 4 else d
  {
    var hdr := CallHdr(xid, prog, vers, proc);
    KnownCall(defs, xid, prog, vers, proc);
    DepthBehindHeader(defs, RPC_MSG, hdr, ts, vs, 0);
    assert ([RPC_MSG] + ts)[0] == RPC_MSG && ([hdr] + vs)[0] == hdr;
  }

  /** The client's own stack limit allows the call to be encoded. */
  predicate Sendable(defs: seq<Type>, ts: seq<Type>, vs: seq<Value>, climit: nat)
    requires |ts| == |vs|
  {
    climit >= 4 && ArgsDepth(defs, ts, vs) <= climit
  }

  /** What invoke sends, if encoding the call does not throw. */
  function CallSent(defs: seq<Type>, hdr: Value, ts: seq<Type>, vs: seq<Value>, climit: nat): Option<Message> {
    if ArgsDepth(defs, [RPC_MSG] + ts, [hdr] + vs) <= climit then Some(CallCode(defs, hdr, ts, vs)) else None
  }

  lemma {:induction false} HeaderAndArguments(defs: seq<Type>, xid: Word, prog: Word, vers: Word, proc: Word, ts: seq<Type>, vs: seq<Value>)
    requires SoundArgs(defs, ts, vs) && ClosedArgs(defs, ts) && Closed(RPC_MSG, |defs|)
    ensures var us, ws := [RPC_MSG] + ts, [CallHdr(xid, prog, vers, proc)] + vs;
      ClosedArgs(defs, us) && ShapedArgs(defs, us, ws) && LiveArgs(defs, us, ws)
  {
    var us, ws := [RPC_MSG] + ts, [CallHdr(xid, prog, vers, proc)] + vs;
    KnownCall(defs, xid, prog, vers, proc);
    forall j | 0 <= j < |ws| ensures us[j] == Part(Struct(us), 0, j) && Sound(defs, us[j], ws[j]) {
      if j > 0 {
        assert us[j] == ts[j - 1] && ws[j] == vs[j - 1];
      }
    }
    forall j | 0 <= j < |us| ensures Closed(us[j], |defs|) {
      if j > 0 {
        assert us[j] == ts[j - 1] && Struct(ts).fields[j - 1] == ts[j - 1];
      }
    }
  }

  /** The encoding part of invoke: xdr_to_msg(hdr, args...) throws exactly when the
      arguments, or the header, are nested too deep for the client's stack limit. */
  method Invoke(
    defs: seq<Type>, xid: Word, prog: Word, vers: Word, proc: Word, ts: seq<Type>, vs: seq<Value>, climit: Word)
    returns (r: Messages.Result<seq<Byte>>)
    requires SoundArgs(defs, ts, vs) && ClosedArgs(defs, ts) && Closed(RPC_MSG, |defs|)
    requires |CallCode(defs, CallHdr(xid, prog, vers, proc), ts, vs)| < LAST_FRAGMENT
    ensures var m := CallSent(defs, CallHdr(xid, prog, vers, proc), ts, vs, climit);
      r == if m.Some? then Messages.Ok(Raw(m.value)) else Messages.Err(Thrown(StackOverflow))
    ensures r.Ok? <==> Sendable(defs, ts, vs, climit)
  {
    var hdr := CallHdr(xid, prog, vers, proc);
    HeaderAndArguments(defs, xid, prog, vers, proc, ts, vs);
    CallDepth(defs, xid, prog, vers, proc, ts, vs);
    r := ToMsg(defs, [RPC_MSG] + ts, [hdr] + vs, climit);
  }

  lemma {:induction false} CallDecodes(defs: seq<Type>, limit: nat, xid: Word, prog: Word, vers: Word, proc: Word, rest: seq<Byte>)
    requires WellFormed(defs) && Closed(RPC_MSG, |defs|) && limit >= 4
    ensures var hdr := CallHdr(xid, prog, vers, proc);
      Decode(defs, LIBRARY, limit, RPC_MSG, Encode(defs, RPC_MSG, hdr) + rest) == Done(hdr, rest)
  {
    KnownCall(defs, xid, prog, vers, proc);
    DecodeOfEncode(defs, LIBRARY, limit, RPC_MSG, CallHdr(xid, prog, vers, proc), rest);
  }

  lemma CallFields(xid: Word, prog: Word, vers: Word, proc: Word)
    ensures var hdr := CallHdr(xid, prog, vers, proc);
      && IsCall(hdr) && XidOf(hdr) == xid && CallField(hdr, 0) == 2
      && CallField(hdr, 1) == prog && CallField(hdr, 2) == vers && CallField(hdr, 3) == proc
  {
  }

  /** A transparent_ptr adds nothing to the encoding ... */
  lemma {:induction false} PointerCode(defs: seq<Type>, t: Type, v: Value)
    ensures Encode(defs, Struct([t]), VSeq([v])) == Encode(defs, t, v)
  {
    var u, w := Struct([t]), VSeq([v]);
    assert EncodeFrom(defs, u, w, 1) == [];
    assert EncodeFrom(defs, u, w, 0) == Encode(defs, t, v) + [] == Encode(defs, t, v);
  }

  /** ... but a level of stack, ... */
  lemma {:induction false} PointerDepth(defs: seq<Type>, t: Type, v: Value)
    ensures Depth(defs, Struct([t]), VSeq([v])) == 1 + Depth(defs, t, v)
  {
    var u, w := Struct([t]), VSeq([v]);
    assert DepthFrom(defs, u, w, 1) == 0;
    assert DepthFrom(defs, u, w, 0) == Depth(defs, t, v);
  }

  /** ... and is as well-formed and as large as what it points to. */
  lemma {:induction false} PointerIsSound(defs: seq<Type>, t: Type, v: Value)
    ensures Sound(defs, t, v) ==> Sound(defs, Struct([t]), VSeq([v]))
    ensures InBounds(defs, Struct([t]), VSeq([v])) <==> InBounds(defs, t, v)
  {
    var u, w := Struct([t]), VSeq([v]);
    assert Part(u, Head(u, w), 0) == t && w.Parts()[0] == v;
  }

  /** The levels of stack that decoding the arguments takes: one for the tuple and, if
      there are any, one for the pointer around each. */
  function TupleDepth(defs: seq<Type>, ts: seq<Type>, vs: seq<Value>): nat {
    if vs == [] then 1 else 2 + ArgsDepth(defs, ts, vs)
  }

  lemma TuplePart(ts: seq<Type>, vs: seq<Value>, i: nat)
    requires |ts| == |vs| && i < |vs|
    ensures Part(ArgTuple(ts), 0, i) == Struct([ts[i]]) && Wrapped(vs).Parts()[i] == VSeq([vs[i]])
    ensures Part(Struct(ts), 0, i) == ts[i]
  {
  }

  lemma {:induction false} TupleCode(defs: seq<Type>, ts: seq<Type>, vs: seq<Value>, i: nat)
    requires |ts| == |vs| && i <= |vs|
    ensures EncodeFrom(defs, ArgTuple(ts), Wrapped(vs), i) == EncodeFrom(defs, Struct(ts), VSeq(vs), i)
    decreases |vs| - i
  {
    if i < |vs| {
      TupleCode(defs, ts, vs, i + 1);
      PointerCode(defs, ts[i], vs[i]);
      TuplePart(ts, vs, i);
    }
  }

  lemma {:induction false} TupleLevels(defs: seq<Type>, ts: seq<Type>, vs: seq<Value>, i: nat)
    requires |ts| == |vs| && i <= |vs|
    ensures DepthFrom(defs, ArgTuple(ts), Wrapped(vs), i)
      == if i == |vs| then 0 else 1 + DepthFrom(defs, Struct(ts), VSeq(vs), i)
    decreases |vs| - i
  {
    if i < |vs| {
      TupleLevels(defs, ts, vs, i + 1);
      PointerDepth(defs, ts[i], vs[i]);
      TuplePart(ts, vs, i);
    }
  }

  lemma {:induction false} TupleEncodes(defs: seq<Type>, ts: seq<Type>, vs: seq<Value>)
    requires |ts| == |vs|
    ensures Encode(defs, ArgTuple(ts), Wrapped(vs)) == EncodeArgs(defs, ts, vs)
    ensures Depth(defs, ArgTuple(ts), Wrapped(vs)) == TupleDepth(defs, ts, vs)
  {
    TupleCode(defs, ts, vs, 0);
    TupleLevels(defs, ts, vs, 0);
    assert [] + EncodeArgs(defs, ts, vs) == EncodeArgs(defs, ts, vs);
  }

  /** Arguments that a client can pass. */
  predicate SoundArgs(defs: seq<Type>, ts: seq<Type>, vs: seq<Value>) {
    |ts| == |vs| && forall i :: 0 <= i < |vs| ==> Sound(defs, ts[i], vs[i])
  }

  predicate BoundedArgs(defs: seq<Type>, ts: seq<Type>, vs: seq<Value>)
    requires |ts| == |vs|
  {
    forall i :: 0 <= i < |vs| ==> InBounds(defs, ts[i], vs[i])
  }

  lemma TupleIsSound(defs: seq<Type>, ts: seq<Type>, vs: seq<Value>)
    requires SoundArgs(defs, ts, vs)
    ensures Sound(defs, ArgTuple(ts), Wrapped(vs))
  {
    var u, w := ArgTuple(ts), Wrapped(vs);
    forall i | 0 <= i < |w.Parts()|
      ensures Shaped(defs, Part(u, Head(u, w), i), w.Parts()[i]) && Live(defs, Part(u, Head(u, w), i), w.Parts()[i])
    {
      assert Sound(defs, ts[i], vs[i]);
      PointerIsSound(defs, ts[i], vs[i]);
      assert Part(u, Head(u, w), i) == Struct([ts[i]]) && w.Parts()[i] == VSeq([vs[i]]);
    }
  }

  lemma {:induction false} TupleIsBounded(defs: seq<Type>, ts: seq<Type>, vs: seq<Value>)
    requires |ts| == |vs|
    ensures InBounds(defs, ArgTuple(ts), Wrapped(vs)) <==> BoundedArgs(defs, ts, vs)
  {
    var u, w := ArgTuple(ts), Wrapped(vs);
    forall i | 0 <= i < |vs|
      ensures InBounds(defs, Part(u, Head(u, w), i), w.Parts()[i]) <==> InBounds(defs, ts[i], vs[i])
    {
      PointerIsSound(defs, ts[i], vs[i]);
      assert Part(u, Head(u, w), i) == Struct([ts[i]]) && w.Parts()[i] == VSeq([vs[i]]);
    }
  }

  /** The arguments are within bounds and, in the tuple of pointers, the stack limit. */
  predicate Fitting(defs: seq<Type>, ts: seq<Type>, vs: seq<Value>, limit: nat)
    requires |ts| == |vs|
  {
    BoundedArgs(defs, ts, vs) && TupleDepth(defs, ts, vs) <= limit
  }

  /** What the server makes of a call with arguments `vs`: its handler gets them exactly when they fit. */
  function CallOutcome(defs: seq<Type>, s: Service, p: Proc, limit: nat, xid: Word, vs: seq<Value>): Judgement
    requires |p.args| == |vs|
  {
    if Fitting(defs, p.args, vs, limit) then JudgeAnswer(defs, s.async, xid, p.res, limit, p.handler(vs))
    else Answered(xid, Error(GARBAGE_ARGS))
  }

  /** The arguments of a call arrive exactly when they fit. */
  lemma ArgumentsArrive(defs: seq<Type>, s: Service, xid: Word, proc: Word, limit: nat, vs: seq<Value>)
    requires WellFormed(defs) && proc in s.procs
    requires ProcFits(defs, s.async, s.procs[proc]) && SoundArgs(defs, s.procs[proc].args, vs)
    ensures var p := s.procs[proc];
      JudgeCall(defs, s, xid, proc, limit, EncodeArgs(defs, p.args, vs))
      == CallOutcome(defs, s, p, limit, xid, vs)
  {
    var ts := s.procs[proc].args;
    ArgTupleClosed(defs, ts);
    TupleEncodes(defs, ts, vs);
    TupleIsSound(defs, ts, vs);
    TupleIsBounded(defs, ts, vs);
    UnwrapWrapped(vs);
    DecodeOfEncode(defs, LIBRARY, limit, ArgTuple(ts), Wrapped(vs), []);
    assert EncodeArgs(defs, ts, vs) + [] == EncodeArgs(defs, ts, vs);
  }

  /** A registered procedure: its service and itself. */
  ghost predicate Registered(defs: seq<Type>, servers: Servers, s: Service, proc: Word, p: Proc) {
    && TableFits(defs, servers)
    && s.prog in servers && s.vers in servers[s.prog] && servers[s.prog][s.vers] == s
    && proc in s.procs && s.procs[proc] == p
  }

  /** The handler of a registered procedure is called with the client's arguments, if
      they fit, and what it answers is the outcome of the message that the client sent. */
  lemma {:induction false} CallReachesHandler(
    defs: seq<Type>, servers: Servers, s: Service, proc: Word, p: Proc, limit: nat, xid: Word, vs: seq<Value>)
    requires Registered(defs, servers, s, proc, p) && Closed(RPC_MSG, |defs|) && limit >= 4
    requires SoundArgs(defs, p.args, vs)
    ensures Judge(defs, servers, limit, RPC_MSG, CallCode(defs, CallHdr(xid, s.prog, s.vers, proc), p.args, vs))
      == CallOutcome(defs, s, p, limit, xid, vs)
  {
    var hdr, code := CallHdr(xid, s.prog, s.vers, proc), EncodeArgs(defs, p.args, vs);
    CallCodeSplits(defs, hdr, p.args, vs);
    EncodedInWords(defs, RPC_MSG, hdr);
    EncodedPartsInWords(defs, Struct(p.args), VSeq(vs), 0);
    WholeWords(Encode(defs, RPC_MSG, hdr), code);
    CallDecodes(defs, limit, xid, s.prog, s.vers, proc, code);
    CallFields(xid, s.prog, s.vers, proc);
    ProcsFit(defs, servers, s.prog, s.vers, proc);
    OutcomeOfCall(defs, servers, s, limit, hdr, code, Encode(defs, RPC_MSG, hdr) + code);
    ArgumentsArrive(defs, s, xid, proc, limit, vs);
  }

  lemma {:induction false} OutcomeOfCall(
    defs: seq<Type>, servers: Servers, s: Service, limit: nat, hdr: Value, args: seq<Byte>, m: Message)
    requires TableFits(defs, servers) && Closed(RPC_MSG, |defs|) && |m| % 4 == 0
    requires Decode(defs, LIBRARY, limit, RPC_MSG, m) == Done(hdr, args) && IsCall(hdr) && CheckCall(s, hdr)
    requires s.prog in servers && s.vers in servers[s.prog] && servers[s.prog][s.vers] == s
    ensures CallField(hdr, 3) in s.procs ==> ClosedArgs(defs, s.procs[CallField(hdr, 3)].args)
    ensures Judge(defs, servers, limit, RPC_MSG, m) == JudgeCall(defs, s, XidOf(hdr), CallField(hdr, 3), limit, args)
  {
    ProcsFit(defs, servers, s.prog, s.vers, CallField(hdr, 3));
  }

  /** What the client of a call with these arguments should be told. */
  function CallSeen(defs: seq<Type>, p: Proc, limit: nat, climit: nat, vs: seq<Value>): Seen
    requires |p.args| == |vs| && p.handler(vs).act.Result?
  {
    var v := p.handler(vs).act.value;
    if !Fitting(defs, p.args, vs, limit) then Seen(AcceptStat(GARBAGE_ARGS), None)
    else if InBounds(defs, p.res, v) && Depth(defs, p.res, v) <= climit then Seen(AcceptStat(SUCCESS), Some(v))
    else GARBAGE
  }

  /** One reply is sent, and the client makes of it what it should. */
  ghost predicate SeenAsDue(defs: seq<Type>, p: Proc, limit: nat, climit: nat, vs: seq<Value>, j: Judgement)
    requires |p.args| == |vs| && p.handler(vs).act.Result? && WellFormed(defs) && Closed(p.res, |defs|)
    requires Closed(RPC_MSG, |defs|)
  {
    |Sent(defs, j)| == 1 && ClientSees(defs, RPC_MSG, p.res, climit, Sent(defs, j)[0]) == CallSeen(defs, p, limit, climit, vs)
  }

  lemma OutcomeSeen(
    defs: seq<Type>, s: Service, p: Proc, limit: nat, climit: nat, xid: Word, vs: seq<Value>)
    requires WellFormed(defs) && Closed(RPC_MSG, |defs|) && climit >= 6 && |p.args| == |vs|
    requires Closed(p.res, |defs|) && AnswerFits(defs, s.async, p.res, p.handler(vs))
    requires p.handler(vs).act.Result? && Encodable(defs, p.res, p.handler(vs).act.value, limit)
    ensures SeenAsDue(defs, p, limit, climit, vs, CallOutcome(defs, s, p, limit, xid, vs))
  {
    if Fitting(defs, p.args, vs, limit) {
      ResultSeen(defs, p.res, climit, xid, p.handler(vs).act.value);
    } else {
      VerdictSeen(defs, p.res, climit, xid, Error(GARBAGE_ARGS));
    }
  }

  /** A remote call is a call: the client gets what the handler returns for its
      arguments, if its own stack limit lets it send them. */
  lemma {:induction false} RemoteCallIsCall(
    defs: seq<Type>, servers: Servers, s: Service, proc: Word, p: Proc, limit: nat, xid: Word, vs: seq<Value>,
    climit: nat)
    requires Registered(defs, servers, s, proc, p) && Closed(RPC_MSG, |defs|) && limit >= 4 && climit >= 6
    requires SoundArgs(defs, p.args, vs)
    requires p.handler(vs).act.Result? && Encodable(defs, p.res, p.handler(vs).act.value, limit)
    ensures Closed(p.res, |defs|)
    ensures var m := CallSent(defs, CallHdr(xid, s.prog, s.vers, proc), p.args, vs, climit);
      && (m.Some? <==> ArgsDepth(defs, p.args, vs) <= climit)
      && (m.Some? ==> SeenAsDue(defs, p, limit, climit, vs, Judge(defs, servers, limit, RPC_MSG, m.value)))
  {
    CallDepth(defs, xid, s.prog, s.vers, proc, p.args, vs);
    CallReachesHandler(defs, servers, s, proc, p, limit, xid, vs);
    ProcsFit(defs, servers, s.prog, s.vers, proc);
    OutcomeSeen(defs, s, p, limit, climit, xid, vs);
  }
}

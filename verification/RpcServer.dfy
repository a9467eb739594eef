/**
 The server side of RPC: the replies built by hand and dispatch (xdrpp/server.cc,
 xdrpp/server.h), and the two kinds of service (xdrpp/srpc.h, xdrpp/arpc.h).
 */
module RpcServer {
  import opened Options
  import opened Bytes
  import opened Xdr
  import opened Codec
  import opened RoundTrip
  import opened Sizes
  import opened Put
  import opened Get
  import opened Messages
  import opened RpcMsg

  type Message = seq<Byte>

  // ----- replies built by hand --------------------------------------------------------

  /** p(w) for each word. */
  method PutWords(sink: Sink, ws: seq<Word>)
    requires sink.Valid() && sink.p + 4 * |ws| <= sink.e
    modifies sink, sink.data
    ensures sink.Valid() && sink.Wrote(old(sink.data[..]), old(sink.p), Words(ws))
  {
    ghost var before, p0 := sink.data[..], sink.p;
    assert ws[..0] == [];
    WrittenNothing(before, p0);
    for i := 0 to |ws|
      invariant sink.Valid() && sink.Wrote(before, p0, Words(ws[..i]))
    {
      sink.Put32(ws[i]);
      WordsNext(ws, i);
      WrittenTwice(before, p0, Words(ws[..i]), Be32(ws[i]));
    }
    assert ws[..|ws|] == ws;
  }

  /** A message written word by word: alloc, p(w) for each word, and the assertion that
      the buffer is full. */
  method Compose(ws: seq<Word>) returns (m: Message)
    requires |ws| < 0x2000_0000
    ensures m == Words(ws)
  {
    var raw := Alloc(4 * |ws|);
    WholeWords(Be32(0), Words(ws));
    var sink := new Sink(raw, 4, raw.Length, 0);
    PutWords(sink, ws);
    assert sink.p == sink.e;
    m := raw[4..];
  }

  lemma WordsNext(ws: seq<Word>, i: nat)
    requires i < |ws|
    ensures Words(ws[..i + 1]) == Words(ws[..i]) + Be32(ws[i])
  {
    assert ws[..i + 1] == ws[..i] + [ws[i]];
    WordsAppend(ws[..i], [ws[i]]);
    WordsOne(ws[i]);
  }

  /** rpc_accepted_error_msg. */
  method AcceptedErrorMsg(defs: seq<Type>, xid: Word, stat: Word) returns (m: Message)
    requires stat != SUCCESS && stat != PROG_MISMATCH
    ensures m == Encode(defs, RPC_MSG, Reply(xid, Error(stat)))
  {
    m := Compose([xid, REPLY, MSG_ACCEPTED, AUTH_NONE, 0, stat]);
    assert [xid, REPLY, MSG_ACCEPTED, AUTH_NONE, 0, stat] == ReplyWords(xid, Error(stat));
    KnownReply(defs, xid, Error(stat));
  }

  /** rpc_prog_mismatch_msg. */
  method ProgMismatchMsg(defs: seq<Type>, xid: Word, low: Word, high: Word) returns (m: Message)
    ensures m == Encode(defs, RPC_MSG, Reply(xid, ProgMismatch(low, high)))
  {
    m := Compose([xid, REPLY, MSG_ACCEPTED, AUTH_NONE, 0, PROG_MISMATCH, low, high]);
    assert [xid, REPLY, MSG_ACCEPTED, AUTH_NONE, 0, PROG_MISMATCH, low, high] == ReplyWords(xid, ProgMismatch(low, high));
    KnownReply(defs, xid, ProgMismatch(low, high));
  }

  /** rpc_auth_error_msg. */
  method AuthErrorMsg(defs: seq<Type>, xid: Word, why: Word) returns (m: Message)
    ensures m == Encode(defs, RPC_MSG, Reply(xid, AuthError(why)))
  {
    m := Compose([xid, REPLY, MSG_DENIED, AUTH_ERROR, why]);
    assert [xid, REPLY, MSG_DENIED, AUTH_ERROR, why] == ReplyWords(xid, AuthError(why));
    KnownReply(defs, xid, AuthError(why));
  }

  /** rpc_rpc_mismatch_msg. */
  method RpcMismatchMsg(defs: seq<Type>, xid: Word) returns (m: Message)
    ensures m == Encode(defs, RPC_MSG, Reply(xid, RpcMismatch(2, 2)))
  {
    m := Compose([xid, REPLY, MSG_DENIED, RPC_MISMATCH, 2, 2]);
    assert [xid, REPLY, MSG_DENIED, RPC_MISMATCH, 2, 2] == ReplyWords(xid, RpcMismatch(2, 2));
    KnownReply(defs, xid, RpcMismatch(2, 2));
  }

  // ----- the success header ------------------------------------------------------------

  /** rpc_success_hdr: six words archived one by one. */
  const SUCCESS_HDR: Type := Struct([U32, U32, U32, U32, U32, U32])

  function SuccessHdr(xid: Word): Value {
    VSeq([VInt(xid), VInt(REPLY), VInt(MSG_ACCEPTED), VInt(AUTH_NONE), VInt(0), VInt(SUCCESS)])
  }

  lemma {:induction false} WordFields(defs: seq<Type>, ts: seq<Type>, vs: seq<Value>, ws: seq<Word>, i: nat)
    requires |ts| == |vs| == |ws| && i <= |ws|
    requires forall j :: 0 <= j < |ws| ==> ts[j] == U32 && vs[j] == VInt(ws[j])
    ensures EncodeFrom(defs, Struct(ts), VSeq(vs), i) == Words(ws[i..])
    ensures DepthFrom(defs, Struct(ts), VSeq(vs), i) == 0
    decreases |ws| - i
  {
    if i < |ws| {
      WordFields(defs, ts, vs, ws, i + 1);
      assert ws[i..][1..] == ws[i + 1..];
    }
  }

  /** The success header is the encoding of the reply by the schema. */
  lemma {:induction false} SuccessHdrEncodes(defs: seq<Type>, xid: Word)
    ensures Encode(defs, SUCCESS_HDR, SuccessHdr(xid)) == Encode(defs, RPC_MSG, Reply(xid, Success))
    ensures Depth(defs, SUCCESS_HDR, SuccessHdr(xid)) == 1
    ensures |Encode(defs, SUCCESS_HDR, SuccessHdr(xid))| == 24
  {
    var ws := [xid, REPLY, MSG_ACCEPTED, AUTH_NONE, 0, SUCCESS];
    WordFields(defs, SUCCESS_HDR.fields, SuccessHdr(xid).parts, ws, 0);
    assert ws[0..] == ws == ReplyWords(xid, Success);
    assert [] + Words(ws) == Words(ws);
    KnownReply(defs, xid, Success);
  }

  /** The code of a reply, followed by the result if there is one. */
  function ReplyCode(defs: seq<Type>, xid: Word, v: Verdict, result: seq<Byte>): Message {
    Encode(defs, RPC_MSG, Reply(xid, v)) + result
  }

  /** A result that xdr_to_msg can encode behind the header. */
  predicate Encodable(defs: seq<Type>, t: Type, v: Value, limit: nat) {
    Live(defs, t, v) && Depth(defs, t, v) <= limit && 1 <= limit
  }

  lemma {:induction false} TwoArgsCode(defs: seq<Type>, a: Type, x: Value, b: Type, y: Value)
    ensures EncodeArgs(defs, [a, b], [x, y]) == Encode(defs, a, x) + Encode(defs, b, y)
    ensures var d, e := Depth(defs, a, x), Depth(defs, b, y);
      ArgsDepth(defs, [a, b], [x, y]) == if d < e then e else d
  {
    var u, w := Struct([a, b]), VSeq([x, y]);
    assert EncodeFrom(defs, u, w, 2) == [] && DepthFrom(defs, u, w, 2) == 0;
    assert EncodeFrom(defs, u, w, 1) == Encode(defs, b, y) + [] == Encode(defs, b, y);
    assert DepthFrom(defs, u, w, 1) == Depth(defs, b, y);
  }

  lemma {:induction false} TwoArgsClosed(defs: seq<Type>, a: Type, b: Type)
    requires WellFormed(defs) && Closed(a, |defs|) && Closed(b, |defs|)
    ensures ClosedArgs(defs, [a, b])
  {
    var u := Struct([a, b]);
    forall i | 0 <= i < |u.fields| ensures Closed(u.fields[i], |defs|) {
      if i == 0 {
      } else {
        assert u.fields[i] == b;
      }
    }
  }

  lemma {:induction false} TwoArgsShaped(defs: seq<Type>, a: Type, x: Value, b: Type, y: Value)
    requires Shaped(defs, a, x) && Shaped(defs, b, y)
    ensures ShapedArgs(defs, [a, b], [x, y])
  {
    var u, w := Struct([a, b]), VSeq([x, y]);
    forall i | 0 <= i < |w.Parts()| ensures Shaped(defs, Part(u, Head(u, w), i), w.Parts()[i]) {
      if i == 0 {
      } else {
        assert Part(u, Head(u, w), i) == b && w.Parts()[i] == y;
      }
    }
  }

  lemma {:induction false} TwoArgsLive(defs: seq<Type>, a: Type, x: Value, b: Type, y: Value)
    requires Live(defs, a, x)
    ensures LiveArgs(defs, [a, b], [x, y]) <==> Live(defs, b, y)
  {
    var u, w := Struct([a, b]), VSeq([x, y]);
    assert Part(u, Head(u, w), 1) == b && w.Parts()[1] == y;
    forall i | 0 <= i < |w.Parts()| && Live(defs, b, y) ensures Live(defs, Part(u, Head(u, w), i), w.Parts()[i]) {
      if i == 0 {
      } else {
      }
    }
  }

  lemma {:induction false} SuccessHdrShaped(defs: seq<Type>, xid: Word)
    ensures Shaped(defs, SUCCESS_HDR, SuccessHdr(xid)) && Live(defs, SUCCESS_HDR, SuccessHdr(xid))
  {
    var v := SuccessHdr(xid);
    forall i | 0 <= i < |v.Parts()| ensures
        Shaped(defs, Part(SUCCESS_HDR, 0, i), v.Parts()[i]) && Live(defs, Part(SUCCESS_HDR, 0, i), v.Parts()[i])
    {
      assert Part(SUCCESS_HDR, 0, i) == U32 && v.Parts()[i].VInt?;
    }
  }

  /** xdr_to_msg(rpc_success_hdr(xid), v); none if it throws. */
  method SuccessMsg(defs: seq<Type>, xid: Word, t: Type, v: Value, limit: Word) returns (m: Option<Message>)
    requires WellFormed(defs) && Closed(t, |defs|) && Shaped(defs, t, v) && |Encode(defs, t, v)| < 0x7fff_ffe8
    ensures m.Some? <==> Encodable(defs, t, v, limit)
    ensures m.Some? ==> m.value == ReplyCode(defs, xid, Success, Encode(defs, t, v))
  {
    SuccessHdrEncodes(defs, xid);
    SuccessHdrShaped(defs, xid);
    TwoArgsCode(defs, SUCCESS_HDR, SuccessHdr(xid), t, v);
    TwoArgsClosed(defs, SUCCESS_HDR, t);
    TwoArgsShaped(defs, SUCCESS_HDR, SuccessHdr(xid), t, v);
    TwoArgsLive(defs, SUCCESS_HDR, SuccessHdr(xid), t, v);
    var r := ToMsg(defs, [SUCCESS_HDR, t], [SuccessHdr(xid), v], limit);
    m := if r.Ok? then Some(r.value[4..]) else None;
  }

  // ----- services ----------------------------------------------------------------------

  /** What a handler does with a call: it returns a result or passes one to its reply_cb;
      an asynchronous one may also reject the call or drop its reply_cb unused. */
  datatype Act = Result(value: Value) | Reject(verdict: Verdict) | Dropped

  /** An asynchronous handler may keep its reply_cb and act only after it has returned. */
  datatype Answer = Answer(act: Act, deferred: bool)

  datatype Proc = Proc(args: seq<Type>, res: Type, handler: seq<Value> -> Answer)

  datatype Service = Service(prog: Word, vers: Word, async: bool, procs: map<Word, Proc>)

  predicate ActFits(defs: seq<Type>, async: bool, res: Type, a: Act) {
    match a
    case Result(v) => Shaped(defs, res, v) && |Encode(defs, res, v)| < 0x7fff_ffe8
    case Reject(w) => async && w.Valid() && (w.Error? || w.AuthError?)
    case Dropped => async
  }

  predicate AnswerFits(defs: seq<Type>, async: bool, res: Type, a: Answer) {
    ActFits(defs, async, res, a.act) && (a.deferred ==> async)
  }

  // ----- the tuple that arguments are decoded into -------------------------------------------

  /** std::tuple<transparent_ptr<T>...>: loading a transparent_ptr goes through its traits
      and takes a level of stack, although it adds nothing to the encoding. */
  function ArgTuple(ts: seq<Type>): Type {
    Struct(seq(|ts|, i requires 0 <= i < |ts| => Struct([ts[i]])))
  }

  function Wrapped(vs: seq<Value>): Value {
    VSeq(seq(|vs|, i requires 0 <= i < |vs| => VSeq([vs[i]])))
  }

  /** The objects that the pointers of the tuple point to. */
  function Unwrapped(v: Value): seq<Value> {
    seq(|v.Parts()|, i requires 0 <= i < |v.Parts()| => At(v.Parts()[i], 0))
  }

  lemma UnwrapWrapped(vs: seq<Value>)
    ensures Unwrapped(Wrapped(vs)) == vs
  {
  }

  lemma {:induction false} ArgTupleClosed(defs: seq<Type>, ts: seq<Type>)
    requires ClosedArgs(defs, ts)
    ensures Closed(ArgTuple(ts), |defs|)
  {
    var fields := ArgTuple(ts).fields;
    forall i | 0 <= i < |fields| ensures Closed(fields[i], |defs|) {
      assert fields[i] == Struct([ts[i]]) && Closed(Struct(ts).fields[i], |defs|);
    }
  }

  ghost predicate ProcFits(defs: seq<Type>, async: bool, p: Proc) {
    && ClosedArgs(defs, p.args) && Closed(p.res, |defs|)
    && forall vs :: AnswerFits(defs, async, p.res, p.handler(vs))
  }

  ghost predicate ServiceFits(defs: seq<Type>, s: Service) {
    forall n :: n in s.procs ==> ProcFits(defs, s.async, s.procs[n])
  }

  /** reply_cb_impl. */
  class ReplyCb {
    const defs: seq<Type>
    const xid: Word
    var pending: bool              // cb_ is set
    var sent: seq<Message>         // what cb_ was called with

    /** One reply, once the callback is used up. */
    ghost predicate Valid()
      reads this
    {
      WellFormed(defs) && |sent| == if pending then 0 else 1
    }

    constructor (defs: seq<Type>, xid: Word)
      requires WellFormed(defs)
      ensures Valid() && pending && this.defs == defs && this.xid == xid && sent == []
    {
      this.defs, this.xid, pending, sent := defs, xid, true, [];
    }

    /** send_reply_msg, whose assertion is that nobody replied before. */
    method SendReplyMsg(m: Message)
      requires Valid() && pending
      modifies this
      ensures Valid() && !pending && sent == [m]
    {
      sent := sent + [m];
      pending := false;
    }

    /** send_reply; it throws, and sends nothing, if the result cannot be encoded. */
    method SendReply(t: Type, v: Value, limit: Word) returns (threw: bool)
      requires Valid() && pending && Closed(t, |defs|) && Shaped(defs, t, v) && |Encode(defs, t, v)| < 0x7fff_ffe8
      modifies this
      ensures Valid() && threw == !Encodable(defs, t, v, limit) && pending == threw
      ensures !threw ==> sent == [ReplyCode(defs, xid, Success, Encode(defs, t, v))]
    {
      var m := SuccessMsg(defs, xid, t, v, limit);
      if m.Some? {
        SendReplyMsg(m.value);
      }
      threw := m.None?;
    }

    /** reject. */
    method RejectWith(w: Verdict)
      requires Valid() && pending && w.Valid() && (w.Error? || w.AuthError?)
      modifies this
      ensures Valid() && !pending && sent == [ReplyCode(defs, xid, w, [])]
    {
      var m;
      if w.Error? {
        m := AcceptedErrorMsg(defs, xid, w.stat);
      } else {
        m := AuthErrorMsg(defs, xid, w.why);
      }
      assert ReplyCode(defs, xid, w, []) == m;
      SendReplyMsg(m);
    }

    /** The destructor. */
    method Drop()
      requires Valid()
      modifies this
      ensures Valid() && !pending
      ensures sent == if old(pending) then [ReplyCode(defs, xid, Error(PROC_UNAVAIL), [])] else old(sent)
    {
      if pending {
        RejectWith(Error(PROC_UNAVAIL));
      }
    }
  }
}

/** The RPC message schema (xdrpp/rpc_msg.x, section 9 of RFC 5531) and what a client
    makes of a reply (xdrpp/rpc_msg.cc). */
module RpcMsg {
  import opened Options
  import opened Bytes
  import opened Xdr
  import opened Codec
  import opened RoundTrip
  import opened Sizes

  const CALL: Word := 0
  const REPLY: Word := 1
  const MSG_ACCEPTED: Word := 0
  const MSG_DENIED: Word := 1
  const SUCCESS: Word := 0
  const PROG_UNAVAIL: Word := 1
  const PROG_MISMATCH: Word := 2
  const PROC_UNAVAIL: Word := 3
  const GARBAGE_ARGS: Word := 4
  const RPC_MISMATCH: Word := 0
  const AUTH_ERROR: Word := 1
  const AUTH_NONE: Word := 0

  // ----- the schema -----------------------------------------------------------------

  const U32: Type := Int(false)
  const OPAQUE_AUTH: Type := Struct([U32, Type.Bytes(400)])
  const CALL_BODY: Type := Struct([U32, U32, U32, U32, OPAQUE_AUTH, OPAQUE_AUTH])
  const MISMATCH_INFO: Type := Struct([U32, U32])
  const REPLY_DATA: Type :=
    Union(false, [
        Arm([SUCCESS], false, Some(Opaque(0))), Arm([PROG_MISMATCH], false, Some(MISMATCH_INFO)), Arm([], true, None)])
  const ACCEPTED_REPLY: Type := Struct([OPAQUE_AUTH, REPLY_DATA])
  const REJECTED_REPLY: Type :=
    Union(false, [Arm([RPC_MISMATCH], false, Some(MISMATCH_INFO)), Arm([AUTH_ERROR], false, Some(U32))])
  const REPLY_BODY: Type :=
    Union(false, [Arm([MSG_ACCEPTED], false, Some(ACCEPTED_REPLY)), Arm([MSG_DENIED], false, Some(REJECTED_REPLY))])
  const BODY: Type := Union(false, [Arm([CALL], false, Some(CALL_BODY)), Arm([REPLY], false, Some(REPLY_BODY))])
  const RPC_MSG: Type := Struct([U32, BODY])

  // ----- replies ----------------------------------------------------------------------

  /** What a reply says. */
  datatype Verdict =
    | Success
    | ProgMismatch(low: Word, high: Word)
    | Error(stat: Word)                     // an accept_stat other than the first two
    | RpcMismatch(low: Word, high: Word)
    | AuthError(why: Word)
  {
    predicate Valid() { Error? ==> stat != SUCCESS && stat != PROG_MISMATCH }
  }

  function Pair(a: Word, b: Word): Value { VSeq([VInt(a), VInt(b)]) }

  const NO_AUTH: Value := VSeq([VInt(AUTH_NONE), VBytes([])])

  function AcceptedValue(data: Value): Value { VUnion(MSG_ACCEPTED, [VSeq([NO_AUTH, data])]) }

  /** The reply_body that states a verdict. */
  function ReplyBody(v: Verdict): Value {
    match v
    case Success => AcceptedValue(VUnion(SUCCESS, [VBytes([])]))
    case ProgMismatch(low, high) => AcceptedValue(VUnion(PROG_MISMATCH, [Pair(low, high)]))
    case Error(stat) => AcceptedValue(VUnion(stat, []))
    case RpcMismatch(low, high) => VUnion(MSG_DENIED, [VUnion(RPC_MISMATCH, [Pair(low, high)])])
    case AuthError(why) => VUnion(MSG_DENIED, [VUnion(AUTH_ERROR, [VInt(why)])])
  }

  /** The rpc_msg that states a verdict. */
  function Reply(xid: Word, v: Verdict): Value {
    VSeq([VInt(xid), VUnion(REPLY, [ReplyBody(v)])])
  }

  /** The words that the server writes for it. */
  function ReplyWords(xid: Word, v: Verdict): seq<Word> {
    [xid, REPLY] + BodyWords(v)
  }

  function BodyWords(v: Verdict): seq<Word> {
    match v
    case Success => [MSG_ACCEPTED, AUTH_NONE, 0] + [SUCCESS]
    case ProgMismatch(low, high) => [MSG_ACCEPTED, AUTH_NONE, 0] + [PROG_MISMATCH, low, high]
    case Error(stat) => [MSG_ACCEPTED, AUTH_NONE, 0] + [stat]
    case RpcMismatch(low, high) => [MSG_DENIED, RPC_MISMATCH] + [low, high]
    case AuthError(why) => [MSG_DENIED, AUTH_ERROR] + [why]
  }

  function Words(ws: seq<Word>): (s: seq<Byte>)
    ensures |s| == 4 * |ws|
  {
    if ws == [] then [] else Be32(ws[0]) + Words(ws[1..])
  }

  lemma {:induction false} WordsAppend(a: seq<Word>, b: seq<Word>)
    ensures Words(a + b) == Words(a) + Words(b)
  {
    if a == [] {
      assert a + b == b;
    } else {
      assert (a + b)[1..] == a[1..] + b;
      WordsAppend(a[1..], b);
    }
  }

  lemma WordsOne(w: Word)
    ensures Words([w]) == Be32(w)
  {
    assert [w][1..] == [];
  }

  // ----- one level of the schema at a time ---------------------------------------------

  /** What encoding and decoding need to know about a value. */
  predicate Known(defs: seq<Type>, t: Type, v: Value, depth: nat, code: seq<Byte>) {
    Sound(defs, t, v) && InBounds(defs, t, v) && Depth(defs, t, v) == depth && Encode(defs, t, v) == code
  }

  lemma KnownWord(defs: seq<Type>, w: Word)
    ensures Known(defs, U32, VInt(w), 0, Words([w]))
  {
    WordsOne(w);
  }

  lemma KnownPair(defs: seq<Type>, a: Type, x: Value, d: nat, s: seq<Byte>, b: Type, y: Value, e: nat, t: seq<Byte>)
    requires Known(defs, a, x, d, s) && Known(defs, b, y, e, t)
    ensures Known(defs, Struct([a, b]), VSeq([x, y]), 1 + (if d < e then e else d), s + t)
  {
    var u, v := Struct([a, b]), VSeq([x, y]);
    assert EncodeFrom(defs, u, v, 2) == [] && DepthFrom(defs, u, v, 2) == 0;
    assert EncodeFrom(defs, u, v, 1) == t + [] == t && DepthFrom(defs, u, v, 1) == e;
    assert EncodeFrom(defs, u, v, 0) == s + t;
    assert [] + (s + t) == s + t;
  }

  lemma KnownUnion(defs: seq<Type>, arms: seq<Arm>, tag: Word, t: Type, v: Value, d: nat, s: seq<Byte>)
    requires Pick(arms, tag) != -1 && Field(arms, tag) == Some(t) && Known(defs, t, v, d, s)
    ensures Known(defs, Union(false, arms), VUnion(tag, [v]), 1 + d, Words([tag]) + s)
  {
    var u, w := Union(false, arms), VUnion(tag, [v]);
    WordsOne(tag);
    assert EncodeFrom(defs, u, w, 1) == [] && DepthFrom(defs, u, w, 1) == 0;
    assert EncodeFrom(defs, u, w, 0) == s + [] == s && DepthFrom(defs, u, w, 0) == d;
  }

  lemma KnownVoid(defs: seq<Type>, arms: seq<Arm>, tag: Word)
    requires Pick(arms, tag) != -1 && Field(arms, tag) == None
    ensures Known(defs, Union(false, arms), VUnion(tag, []), 1, Words([tag]))
  {
    WordsOne(tag);
    assert Words([tag]) + [] == Words([tag]);
  }

  lemma KnownNoAuth(defs: seq<Type>)
    ensures Known(defs, OPAQUE_AUTH, NO_AUTH, 1, Words([AUTH_NONE, 0]))
  {
    KnownWord(defs, AUTH_NONE);
    WordsOne(0);
    assert EncodeBytes([]) == [];
    assert Known(defs, Type.Bytes(400), VBytes([]), 0, Words([0]));
    KnownPair(defs, U32, VInt(AUTH_NONE), 0, Words([AUTH_NONE]), Type.Bytes(400), VBytes([]), 0, Words([0]));
    WordsAppend([AUTH_NONE], [0]);
  }

  lemma KnownWords(defs: seq<Type>, a: Word, b: Word)
    ensures Known(defs, MISMATCH_INFO, Pair(a, b), 1, Words([a, b]))
  {
    KnownWord(defs, a);
    KnownWord(defs, b);
    KnownPair(defs, U32, VInt(a), 0, Words([a]), U32, VInt(b), 0, Words([b]));
    WordsAppend([a], [b]);
  }

  /** The arm of reply_data for a stat. */
  lemma PickData(stat: Word)
    ensures Pick(REPLY_DATA.arms, stat) == if stat == SUCCESS then 0 else if stat == PROG_MISMATCH then 1 else 2
  {
    assert PickLabel(REPLY_DATA.arms, stat, 3) == -1;
    assert PickLabel(REPLY_DATA.arms, stat, 2) == -1;
    assert PickLabel(REPLY_DATA.arms, stat, 1) == if stat == PROG_MISMATCH then 1 else -1;
    assert PickDefault(REPLY_DATA.arms, 2) == 2;
    assert PickDefault(REPLY_DATA.arms, 1) == 2;
  }

  /** The arm of a union whose labels are 0 and 1. */
  lemma PickBinary(a: Type, b: Type, tag: Word)
    ensures var arms := [Arm([0], false, Some(a)), Arm([1], false, Some(b))];
      Pick(arms, tag) == if tag <= 1 then tag else -1
  {
    var arms := [Arm([0], false, Some(a)), Arm([1], false, Some(b))];
    assert PickLabel(arms, tag, 2) == -1 && PickDefault(arms, 2) == -1;
    assert PickLabel(arms, tag, 1) == (if tag == 1 then 1 else -1) && PickDefault(arms, 1) == -1;
  }

  lemma {:induction false} KnownAccepted(defs: seq<Type>, data: Value, d: nat, ws: seq<Word>)
    requires Known(defs, REPLY_DATA, data, d, Words(ws)) && d >= 1
    ensures Known(defs, REPLY_BODY, AcceptedValue(data), 2 + d, Words([MSG_ACCEPTED, AUTH_NONE, 0] + ws))
  {
    KnownNoAuth(defs);
    KnownPair(defs, OPAQUE_AUTH, NO_AUTH, 1, Words([AUTH_NONE, 0]), REPLY_DATA, data, d, Words(ws));
    WordsAppend([AUTH_NONE, 0], ws);
    PickBinary(ACCEPTED_REPLY, REJECTED_REPLY, MSG_ACCEPTED);
    KnownUnion(defs, REPLY_BODY.arms, MSG_ACCEPTED, ACCEPTED_REPLY, VSeq([NO_AUTH, data]), 1 + d, Words([AUTH_NONE, 0] + ws));
    WordsAppend([MSG_ACCEPTED], [AUTH_NONE, 0] + ws);
    assert [MSG_ACCEPTED] + ([AUTH_NONE, 0] + ws) == [MSG_ACCEPTED, AUTH_NONE, 0] + ws;
  }

  lemma {:induction false} KnownDenied(defs: seq<Type>, tag: Word, t: Type, v: Value, d: nat, ws: seq<Word>)
    requires tag <= 1 && Field(REJECTED_REPLY.arms, tag) == Some(t) && Known(defs, t, v, d, Words(ws))
    ensures Known(defs, REPLY_BODY, VUnion(MSG_DENIED, [VUnion(tag, [v])]), 2 + d, Words([MSG_DENIED, tag] + ws))
  {
    PickBinary(MISMATCH_INFO, U32, tag);
    KnownUnion(defs, REJECTED_REPLY.arms, tag, t, v, d, Words(ws));
    WordsAppend([tag], ws);
    PickBinary(ACCEPTED_REPLY, REJECTED_REPLY, MSG_DENIED);
    KnownUnion(defs, REPLY_BODY.arms, MSG_DENIED, REJECTED_REPLY, VUnion(tag, [v]), 1 + d, Words([tag] + ws));
    WordsAppend([MSG_DENIED], [tag] + ws);
    assert [MSG_DENIED] + ([tag] + ws) == [MSG_DENIED, tag] + ws;
  }

  /** How deep the reply_body of a verdict is nested. */
  function ReplyDepth(v: Verdict): nat {
    match v
    case Success => 3
    case ProgMismatch(_, _) => 4
    case Error(_) => 3
    case RpcMismatch(_, _) => 3
    case AuthError(_) => 2
  }

  lemma KnownSuccess(defs: seq<Type>)
    ensures Known(defs, REPLY_DATA, VUnion(SUCCESS, [VBytes([])]), 1, Words([SUCCESS]))
  {
    PickData(SUCCESS);
    assert EncodeBytes([]) == [] == Words([]);
    assert Known(defs, Opaque(0), VBytes([]), 0, Words([]));
    KnownUnion(defs, REPLY_DATA.arms, SUCCESS, Opaque(0), VBytes([]), 0, Words([]));
    assert Words([SUCCESS]) + Words([]) == Words([SUCCESS]);
  }

  lemma KnownMismatch(defs: seq<Type>, low: Word, high: Word)
    ensures Known(defs, REPLY_DATA, VUnion(PROG_MISMATCH, [Pair(low, high)]), 2, Words([PROG_MISMATCH, low, high]))
  {
    PickData(PROG_MISMATCH);
    KnownWords(defs, low, high);
    KnownUnion(defs, REPLY_DATA.arms, PROG_MISMATCH, MISMATCH_INFO, Pair(low, high), 1, Words([low, high]));
    WordsAppend([PROG_MISMATCH], [low, high]);
    assert [PROG_MISMATCH] + [low, high] == [PROG_MISMATCH, low, high];
  }

  lemma KnownError(defs: seq<Type>, stat: Word)
    requires stat != SUCCESS && stat != PROG_MISMATCH
    ensures Known(defs, REPLY_DATA, VUnion(stat, []), 1, Words([stat]))
  {
    PickData(stat);
    KnownVoid(defs, REPLY_DATA.arms, stat);
  }

  lemma KnownAcceptedBody(defs: seq<Type>, v: Verdict)
    requires v.Valid() && (v.Success? || v.ProgMismatch? || v.Error?)
    ensures Known(defs, REPLY_BODY, ReplyBody(v), ReplyDepth(v), Words(BodyWords(v)))
  {
    if v.Success? {
      KnownSuccess(defs);
      KnownAccepted(defs, VUnion(SUCCESS, [VBytes([])]), 1, [SUCCESS]);
    } else if v.ProgMismatch? {
      KnownMismatch(defs, v.low, v.high);
      KnownAccepted(defs, VUnion(PROG_MISMATCH, [Pair(v.low, v.high)]), 2, [PROG_MISMATCH, v.low, v.high]);
    } else {
      KnownError(defs, v.stat);
      KnownAccepted(defs, VUnion(v.stat, []), 1, [v.stat]);
    }
  }

  lemma KnownDeniedBody(defs: seq<Type>, v: Verdict)
    requires v.RpcMismatch? || v.AuthError?
    ensures Known(defs, REPLY_BODY, ReplyBody(v), ReplyDepth(v), Words(BodyWords(v)))
  {
    if v.RpcMismatch? {
      PickBinary(MISMATCH_INFO, U32, RPC_MISMATCH);
      KnownWords(defs, v.low, v.high);
      KnownDenied(defs, RPC_MISMATCH, MISMATCH_INFO, Pair(v.low, v.high), 1, [v.low, v.high]);
    } else {
      PickBinary(MISMATCH_INFO, U32, AUTH_ERROR);
      KnownWord(defs, v.why);
      KnownDenied(defs, AUTH_ERROR, U32, VInt(v.why), 0, [v.why]);
    }
  }

  lemma {:induction false} KnownMessage(defs: seq<Type>, xid: Word, rbody: Value, d: nat, ws: seq<Word>)
    requires Known(defs, REPLY_BODY, rbody, d, Words(ws))
    ensures Known(defs, RPC_MSG, VSeq([VInt(xid), VUnion(REPLY, [rbody])]), 2 + d, Words([xid, REPLY] + ws))
  {
    PickBinary(CALL_BODY, REPLY_BODY, REPLY);
    KnownUnion(defs, BODY.arms, REPLY, REPLY_BODY, rbody, d, Words(ws));
    WordsAppend([REPLY], ws);
    KnownWord(defs, xid);
    KnownPair(defs, U32, VInt(xid), 0, Words([xid]), BODY, VUnion(REPLY, [rbody]), 1 + d, Words([REPLY] + ws));
    WordsAppend([xid], [REPLY] + ws);
    assert [xid] + ([REPLY] + ws) == [xid, REPLY] + ws;
  }

  /** The words written by hand are the encoding of the message by the schema. */
  lemma KnownReply(defs: seq<Type>, xid: Word, v: Verdict)
    requires v.Valid()
    ensures Known(defs, RPC_MSG, Reply(xid, v), 2 + ReplyDepth(v), Words(ReplyWords(xid, v)))
  {
    if v.RpcMismatch? || v.AuthError? {
      KnownDeniedBody(defs, v);
    } else {
      KnownAcceptedBody(defs, v);
    }
    KnownMessage(defs, xid, ReplyBody(v), ReplyDepth(v), BodyWords(v));
  }

  // ----- the client's view ----------------------------------------------------------------

  datatype CallStat = AcceptStat(accept: Word) | AuthStat(auth: Word) | RpcversMismatch | GarbageRes | NetworkError

  /** Part `i` of a value; of a decoded message, one that exists. */
  function At(v: Value, i: nat): Value { if i < |v.Parts()| then v.Parts()[i] else v }

  function TagOf(v: Value): Word { if v.VUnion? then v.tag else 0 }

  function WordOf(v: Value): Word { if v.VInt? then v.w else 0 }

  /** rpc_call_stat, from a decoded rpc_msg. */
  function CallStatOf(hdr: Value): CallStat {
    var body := At(hdr, 1);
    var rbody := At(body, 0);
    if TagOf(body) != REPLY then GarbageRes
    else if TagOf(rbody) == MSG_ACCEPTED then AcceptStat(TagOf(At(At(rbody, 0), 1)))
    else if TagOf(rbody) == MSG_DENIED then
      var rreply := At(rbody, 0);
      if TagOf(rreply) == RPC_MISMATCH then RpcversMismatch
      else if TagOf(rreply) == AUTH_ERROR then AuthStat(WordOf(At(rreply, 0)))
      else GarbageRes
    else GarbageRes
  }

  /** The status of sections 8.1 and 9 of RFC 5531 that a verdict stands for. */
  function StatusOf(v: Verdict): CallStat {
    match v
    case Success => AcceptStat(SUCCESS)
    case ProgMismatch(_, _) => AcceptStat(PROG_MISMATCH)
    case Error(stat) => AcceptStat(stat)
    case RpcMismatch(_, _) => RpcversMismatch
    case AuthError(why) => AuthStat(why)
  }

  /** The versions that a mismatch reply carries. */
  function VersionsIn(hdr: Value): (Word, Word) {
    var data := At(At(At(At(hdr, 1), 0), 0), 1);
    (WordOf(At(At(data, 0), 0)), WordOf(At(At(data, 0), 1)))
  }

  /** Classifying a reply gives back the status; a PROG_MISMATCH carries its versions. */
  lemma StatOfReply(xid: Word, v: Verdict)
    ensures CallStatOf(Reply(xid, v)) == StatusOf(v) && WordOf(At(Reply(xid, v), 0)) == xid
    ensures v.ProgMismatch? ==> VersionsIn(Reply(xid, v)) == (v.low, v.high)
  {
    match v
    case Success =>
    case ProgMismatch(_, _) =>
    case Error(_) =>
    case RpcMismatch(_, _) =>
    case AuthError(_) =>
  }
}

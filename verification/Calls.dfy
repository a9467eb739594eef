/**
 The table of outstanding calls of rpc_sock (xdrpp/msgsock.cc, xdrpp/msgsock.h).
 The table is keyed by the raw first word of the call, in network order, while
 get_xid probes it with the counter in host order.
 */
module Calls {
  import opened Options
  import opened Bytes
  import opened Framing

  const CALL: Word := 0
  const REPLY: Word := 1

  /** A word of memory as the machine loads it. */
  function Load(bigEndian: bool, s: seq<Byte>): Word
    requires |s| == 4
  {
    if bigEndian then FromBe32(s) else FromLe32(s)
  }

  /** swap32le. */
  function HostToWire(bigEndian: bool, w: Word): Word {
    if bigEndian then w else Swap32(w)
  }

  lemma LoadWire(bigEndian: bool, w: Word)
    ensures Load(bigEndian, Be32(w)) == HostToWire(bigEndian, w)
  {
    FromBe32OfBe32(w);
    SwappedLoad(Be32(w));
  }

  /** 32-bit increment. */
  function Succ(x: Word): Word {
    if x == 0xffff_ffff then 0 else x + 1
  }

  /** The word that get_xid settles on: the first after `xid`, with wrap-around,
      that is not a key of the table, or 0. */
  function Probe(calls: map<Word, nat>, xid: Word): Word
    decreases 0xffff_ffff - xid
  {
    var next := Succ(xid);
    if next in calls && next != 0 then Probe(calls, next) else next
  }

  lemma {:induction false} ProbeAdvances(calls: map<Word, nat>, xid: Word)
    ensures Probe(calls, xid) == 0 || xid < Probe(calls, xid)
    decreases 0xffff_ffff - xid
  {
    var next := Succ(xid);
    if next in calls && next != 0 {
      ProbeAdvances(calls, next);
    }
  }

  /** One invocation of the callback of call number `call`. */
  datatype Firing = Firing(call: nat, reply: Option<Message>)

  /** How often the callback of call `i` has run. */
  function Times(fired: seq<Firing>, i: nat): nat {
    if fired == [] then 0
    else Times(fired[..|fired| - 1], i) + if fired[|fired| - 1].call == i then 1 else 0
  }

  lemma {:induction false} TimesSnoc(fired: seq<Firing>, f: Firing, i: nat)
    ensures Times(fired + [f], i) == Times(fired, i) + if f.call == i then 1 else 0
  {
    assert (fired + [f])[..|fired|] == fired;
  }

  /** The callback of call `i`, sent under key `keys[i]`, waits in the table or has
      run once, and not both; `lost` are those a key collision threw away. */
  ghost predicate Accounted(calls: map<Word, nat>, fired: seq<Firing>, keys: seq<Word>, lost: set<nat>, i: nat)
    requires i < |keys|
  {
    var waits := keys[i] in calls && calls[keys[i]] == i;
    Times(fired, i) == if waits || i in lost then 0 else 1
  }

  ghost predicate Answered(big: bool, keys: seq<Word>, f: Firing) {
    f.call < |keys| && (f.reply.Some? ==> |f.reply.value| >= 8 && Load(big, f.reply.value[..4]) == keys[f.call])
  }

  ghost predicate Consistent(big: bool, calls: map<Word, nat>, fired: seq<Firing>, keys: seq<Word>, lost: set<nat>) {
    && (forall k :: k in calls ==> calls[k] < |keys| && keys[calls[k]] == k && calls[k] !in lost)
    && (forall i :: 0 <= i < |keys| ==> Accounted(calls, fired, keys, lost, i))
    && (forall j :: 0 <= j < |fired| ==> Answered(big, keys, fired[j]))
    && (forall i :: i in lost ==> i < |keys|)
  }

  lemma {:induction false} NeverFired(big: bool, calls: map<Word, nat>, fired: seq<Firing>, keys: seq<Word>, lost: set<nat>, i: nat)
    requires Consistent(big, calls, fired, keys, lost) && |keys| <= i
    ensures Times(fired, i) == 0
  {
    NoneFired(fired, i);
  }

  lemma {:induction false} NoneFired(fired: seq<Firing>, i: nat)
    requires forall j :: 0 <= j < |fired| ==> fired[j].call != i
    ensures Times(fired, i) == 0
  {
    if fired != [] {
      NoneFired(fired[..|fired| - 1], i);
    }
  }

  /** A call enters the table, unless its key is taken: then its callback is lost. */
  lemma SendKeeps(big: bool, calls: map<Word, nat>, fired: seq<Firing>, keys: seq<Word>, lost: set<nat>, key: Word)
    requires Consistent(big, calls, fired, keys, lost)
    ensures var n := |keys|;
      if key in calls then Consistent(big, calls, fired, keys + [key], lost + {n})
      else Consistent(big, calls[key := n], fired, keys + [key], lost)
  {
    var n := |keys|;
    NeverFired(big, calls, fired, keys, lost, n);
    var calls' := if key in calls then calls else calls[key := n];
    var lost' := if key in calls then lost + {n} else lost;
    var keys' := keys + [key];
    forall i | 0 <= i < |keys'| ensures Accounted(calls', fired, keys', lost', i) {
      if i < n {
        assert Accounted(calls, fired, keys, lost, i);
      }
    }
    forall j | 0 <= j < |fired| ensures Answered(big, keys', fired[j]) {
      assert Answered(big, keys, fired[j]);
    }
  }

  /** Taking a call out of the table and running its callback. */
  lemma FireKeeps(big: bool, calls: map<Word, nat>, fired: seq<Firing>, keys: seq<Word>, lost: set<nat>,
                  key: Word, reply: Option<Message>)
    requires Consistent(big, calls, fired, keys, lost) && key in calls
    requires reply.Some? ==> |reply.value| >= 8 && Load(big, reply.value[..4]) == key
    ensures Consistent(big, calls - {key}, fired + [Firing(calls[key], reply)], keys, lost)
  {
    var f := Firing(calls[key], reply);
    forall i | 0 <= i < |keys| ensures Accounted(calls - {key}, fired + [f], keys, lost, i) {
      assert Accounted(calls, fired, keys, lost, i);
      TimesSnoc(fired, f, i);
    }
    forall j | 0 <= j < |fired + [f]| ensures Answered(big, keys, (fired + [f])[j]) {
      if j < |fired| {
        assert Answered(big, keys, fired[j]);
      }
    }
  }

  /** Every key of the table belongs to an xid up to the counter. */
  ghost predicate KeysUsed(big: bool, calls: map<Word, nat>, xid: Word) {
    forall k :: k in calls ==> KeyUsed(big, xid, k)
  }

  ghost predicate KeyUsed(big: bool, xid: Word, k: Word) {
    HostToWire(big, k) <= xid
  }

  lemma FreshKey(big: bool, calls: map<Word, nat>, xid: Word, next: Word)
    requires KeysUsed(big, calls, xid) && xid < next
    ensures KeysUsed(big, calls, next) && HostToWire(big, next) !in calls
    ensures KeyUsed(big, next, HostToWire(big, next))
  {
    Swap32Involution(next);
    forall k | k in calls ensures KeyUsed(big, next, k) && k != HostToWire(big, next) {
      assert KeyUsed(big, xid, k);
    }
  }

  /** The replies that callbacks were given, in order. */
  function Replies(fired: seq<Firing>): seq<Firing> {
    if fired == [] then []
    else
      var last := fired[|fired| - 1];
      Replies(fired[..|fired| - 1]) + if last.reply.Some? then [last] else []
  }

  /** Since `before` callbacks have been given null only. */
  predicate Aborted(before: seq<Firing>, fired: seq<Firing>) {
    before <= fired && forall j :: |before| <= j < |fired| ==> fired[j].reply.None?
  }

  lemma {:induction false} RepliesSnoc(fired: seq<Firing>, f: Firing)
    ensures Replies(fired + [f]) == Replies(fired) + if f.reply.Some? then [f] else []
  {
    assert (fired + [f])[..|fired|] == fired;
  }

  datatype Kind = CallMsg | ReplyMsg | Neither

  /** The message type on the wire. */
  function KindOf(b: Option<Message>): (k: Kind)
    ensures !k.Neither? ==> b.Some? && 8 <= |b.value|
  {
    if b.None? || |b.value| < 8 then Neither
    else if FromBe32(b.value[4..8]) == CALL then CallMsg
    else if FromBe32(b.value[4..8]) == REPLY then ReplyMsg
    else Neither
  }

  /** The tests of recv_msg: raw words against byte-swapped constants. */
  method Classify(big: bool, b: Option<Message>) returns (k: Kind)
    ensures k == KindOf(b)
  {
    if b.None? || |b.value| < 8 {
      return Neither;
    }
    var word := b.value[4..8];
    RawComparison(big, word, CALL);
    RawComparison(big, word, REPLY);
    if Load(big, word) == HostToWire(big, CALL) {
      return CallMsg;
    } else if Load(big, word) == HostToWire(big, REPLY) {
      return ReplyMsg;
    }
    return Neither;
  }

  lemma RawComparison(big: bool, s: seq<Byte>, w: Word)
    requires |s| == 4
    ensures Load(big, s) == HostToWire(big, w) <==> FromBe32(s) == w
  {
    SwappedLoad(s);
    Swap32Involution(w);
  }

  // ----- what a run amounts to --------------------------------------------------

  datatype Op = Invoke(body: Message) | Receive(b: Option<Message>)

  /** The counter, the table, the raw first words of all calls sent, the calls whose
      callback a collision threw away, the replies passed on, and whether the counter
      has passed its maximum. */
  datatype Sock = Sock(
    xid: Word, calls: map<Word, nat>, keys: seq<Word>, lost: set<nat>, replies: seq<Firing>, wrapped: bool)

  const IDLE := Sock(0, map[], [], {}, [], false)

  /** A call is sent with the next xid. */
  function Sent(big: bool, s: Sock): Sock {
    var x := Probe(s.calls, s.xid);
    var key, n := HostToWire(big, x), |s.keys|;
    Sock(x, if key in s.calls then s.calls else s.calls[key := n], s.keys + [key],
      if key in s.calls then s.lost + {n} else s.lost, s.replies, s.wrapped || x == 0)
  }

  /** A message, or the null notification, is received. */
  function Received(big: bool, s: Sock, b: Option<Message>): Sock {
    match KindOf(b)
    case CallMsg => s
    case ReplyMsg =>
      var k := Load(big, b.value[..4]);
      if k in s.calls then s.(calls := s.calls - {k}, replies := s.replies + [Firing(s.calls[k], b)]) else s
    case Neither => s.(calls := map[])
  }

  function Step(big: bool, s: Sock, op: Op): Sock {
    match op
    case Invoke(_) => Sent(big, s)
    case Receive(b) => Received(big, s, b)
  }

  /** The socket after the operations, from a new one. */
  function After(big: bool, ops: seq<Op>): Sock {
    if ops == [] then IDLE else Step(big, After(big, ops[..|ops| - 1]), ops[|ops| - 1])
  }

  lemma {:induction false} AfterSnoc(big: bool, ops: seq<Op>, op: Op)
    ensures After(big, ops + [op]) == Step(big, After(big, ops), op)
  {
    assert (ops + [op])[..|ops|] == ops;
  }

  lemma {:induction false} AfterNext(big: bool, ops: seq<Op>, n: nat)
    requires n < |ops|
    ensures After(big, ops[..n + 1]) == Step(big, After(big, ops[..n]), ops[n])
  {
    assert ops[..n + 1] == ops[..n] + [ops[n]];
    AfterSnoc(big, ops[..n], ops[n]);
  }

  function Invocations(ops: seq<Op>): nat {
    if ops == [] then 0 else Invocations(ops[..|ops| - 1]) + if ops[|ops| - 1].Invoke? then 1 else 0
  }

  // ----- the socket -----------------------------------------------------------

  class RpcSock {
    const bigEndian: bool
    var xid: Word
    var calls: map<Word, nat>           // outstanding calls: raw first word -> call number
    var servcb: bool                    // whether a server callback is set
    var fired: seq<Firing>              // callbacks run so far
    var served: seq<Option<Message>>    // what the server callback was given
    var unavailable: seq<Word>          // calls answered PROG_UNAVAIL for want of a server
    var keys: seq<Word>                 // raw first words of all calls sent
    ghost var wrapped: bool             // whether the counter has passed its maximum
    ghost var lost: set<nat>            // calls whose callback a collision threw away

    ghost predicate Valid()
      reads this
    {
      && Consistent(bigEndian, calls, fired, keys, lost)
      && (!wrapped ==> lost == {} && KeysUsed(bigEndian, calls, xid))
    }

    ghost function State(): Sock
      reads this
    {
      Sock(xid, calls, keys, lost, Replies(fired), wrapped)
    }

    constructor (bigEndian: bool, servcb: bool)
      ensures Valid() && this.bigEndian == bigEndian && this.servcb == servcb
      ensures State() == IDLE && fired == [] && served == [] && unavailable == []
    {
      this.bigEndian, this.servcb := bigEndian, servcb;
      xid, calls, fired, served, unavailable, keys := 0, map[], [], [], [], [];
      wrapped, lost := false, {};
    }

    /** get_xid.  Before the counter wraps, the key of the new xid is free. */
    method GetXid() returns (x: Word)
      requires Valid()
      modifies `xid, `wrapped
      ensures Valid() && x == xid && x == Probe(calls, old(xid))
      ensures wrapped == (old(wrapped) || x == 0)
      ensures !wrapped ==> HostToWire(bigEndian, x) !in calls && KeyUsed(bigEndian, x, HostToWire(bigEndian, x))
    {
      ghost var first := xid;
      ProbeAdvances(calls, xid);
      NextXid();
      if xid == 0 {
        wrapped := true;
      }
      x := xid;
      if !wrapped {
        FreshKey(bigEndian, calls, first, x);
      }
    }

    /** The loop of get_xid. */
    method NextXid()
      modifies `xid
      ensures xid == Probe(calls, old(xid))
    {
      ghost var goal := Probe(calls, xid);
      xid := Succ(xid);
      while xid in calls && xid != 0
        invariant goal == if xid in calls && xid != 0 then Probe(calls, xid) else xid
        decreases if xid == 0 then 0 else 0x1_0000_0000 - xid
      {
        xid := Succ(xid);
      }
    }

    /** send_call: the callback enters the table exactly when its key is free. */
    method SendCall(b: Message)
      requires Consistent(bigEndian, calls, fired, keys, lost) && 4 <= |b|
      modifies `calls, `keys, `lost
      ensures Consistent(bigEndian, calls, fired, keys, lost)
      ensures keys == old(keys) + [Load(bigEndian, b[..4])]
      ensures Load(bigEndian, b[..4]) in old(calls) ==> calls == old(calls) && lost == old(lost) + {old(|keys|)}
      ensures Load(bigEndian, b[..4]) !in old(calls) ==>
        calls == old(calls)[Load(bigEndian, b[..4]) := old(|keys|)] && lost == old(lost)
    {
      var key := Load(bigEndian, b[..4]);
      SendKeeps(bigEndian, calls, fired, keys, lost, key);
      if key !in calls {
        calls := calls[key := |keys|];
      } else {
        lost := lost + {|keys|};
      }
      keys := keys + [key];
    }

    /** A client sends a call: get_xid, then send_call with that xid. */
    method Invoke(body: Message)
      requires Valid()
      modifies `xid, `wrapped, `calls, `keys, `lost
      ensures Valid() && State() == Sent(bigEndian, old(State()))
    {
      var x := GetXid();
      var b := Be32(x) + body;
      assert b[..4] == Be32(x);
      LoadWire(bigEndian, x);
      SendCall(b);
    }

    /** abort_all_calls: the table is emptied first, then every callback is told. */
    method AbortAllCalls()
      requires Valid()
      modifies `calls, `fired
      ensures Valid() && State() == old(State()).(calls := map[])
      ensures Aborted(old(fired), fired)
    {
      var todo := calls;
      calls := map[];
      while todo != map[]
        invariant calls == map[] && Aborted(old(fired), fired) && Replies(fired) == old(Replies(fired))
        invariant Consistent(bigEndian, todo, fired, keys, lost)
        decreases |todo|
      {
        assert todo.Keys != {};
        var k :| k in todo;
        Abort(todo, k, old(fired));
        ShrinkMap(todo, k);
        todo := todo - {k};
      }
    }

    /** One callback of abort_all_calls. */
    method Abort(todo: map<Word, nat>, k: Word, ghost before: seq<Firing>)
      requires k in todo && Consistent(bigEndian, todo, fired, keys, lost) && Aborted(before, fired)
      modifies `fired
      ensures Consistent(bigEndian, todo - {k}, fired, keys, lost) && Replies(fired) == old(Replies(fired))
      ensures Aborted(before, fired) && |fired| == old(|fired|) + 1 && fired[old(|fired|)] == Firing(todo[k], None)
    {
      FireKeeps(bigEndian, todo, fired, keys, lost, k, None);
      RepliesSnoc(fired, Firing(todo[k], None));
      fired := fired + [Firing(todo[k], None)];
    }

    /** recv_call.  Without a server the null notification has no answer: the program
        reads through a null pointer. */
    method RecvCall(b: Option<Message>) returns (crashed: bool)
      requires b.Some? ==> 4 <= |b.value|
      modifies `served, `unavailable
      ensures crashed <==> !servcb && b.None?
      ensures served == if servcb then old(served) + [b] else old(served)
      ensures unavailable == if !servcb && b.Some? then old(unavailable) + [Load(bigEndian, b.value[..4])] else old(unavailable)
    {
      crashed := false;
      if servcb {
        served := served + [b];
      } else if b.Some? {
        unavailable := unavailable + [Load(bigEndian, b.value[..4])];
      } else {
        crashed := true;
      }
    }

    /** The reply branch of recv_msg. */
    method RecvReply(b: Message)
      requires Valid() && 8 <= |b|
      modifies `calls, `fired
      ensures Valid()
      ensures var k := Load(bigEndian, b[..4]);
        if k in old(calls) then calls == old(calls) - {k} && fired == old(fired) + [Firing(old(calls)[k], Some(b))]
        else calls == old(calls) && fired == old(fired)
    {
      var k := Load(bigEndian, b[..4]);
      if k in calls {
        FireKeeps(bigEndian, calls, fired, keys, lost, k, Some(b));
        var i := calls[k];
        calls := calls - {k};
        fired := fired + [Firing(i, Some(b))];
      }
    }

    /** recv_msg: a reply runs the callback of its call, if that is outstanding, and
        nothing else; whatever is neither call nor reply ends all calls. */
    method RecvMsg(b: Option<Message>) returns (crashed: bool)
      requires Valid()
      modifies `calls, `fired, `served, `unavailable
      ensures Valid() && State() == Received(bigEndian, old(State()), b)
      ensures old(fired) <= fired && (KindOf(b).CallMsg? ==> fired == old(fired))
      ensures served == if servcb && !KindOf(b).ReplyMsg? then old(served) + [if KindOf(b).CallMsg? then b else None] else old(served)
      ensures crashed <==> !servcb && KindOf(b).Neither?
    {
      crashed := false;
      var kind := Classify(bigEndian, b);
      match kind {
        case CallMsg =>
          crashed := RecvCall(b);
        case ReplyMsg =>
          var k := Load(bigEndian, b.value[..4]);
          if k in calls {
            RepliesSnoc(fired, Firing(calls[k], b));
          }
          RecvReply(b.value);
        case Neither =>
          AbortAllCalls();
          crashed := RecvCall(None);
      }
    }

    method Take(op: Op)
      requires Valid()
      modifies this
      ensures Valid() && State() == Step(bigEndian, old(State()), op)
    {
      match op {
        case Invoke(body) => Invoke(body);
        case Receive(b) => var _ := RecvMsg(b);
      }
    }

    method TakeAll(ops: seq<Op>)
      requires Valid() && State() == IDLE
      modifies this
      ensures Valid() && State() == After(bigEndian, ops)
    {
      var n := 0;
      while n < |ops|
        invariant 0 <= n <= |ops| && Valid() && State() == After(bigEndian, ops[..n])
      {
        AfterNext(bigEndian, ops, n);
        Take(ops[n]);
        n := n + 1;
      }
      assert ops[..n] == ops;
    }
  }

  /** The accounts of a socket whose table is empty. */
  lemma {:induction false} AllSettled(big: bool, fired: seq<Firing>, keys: seq<Word>, lost: set<nat>)
    requires Consistent(big, map[], fired, keys, lost)
    ensures forall i :: 0 <= i < |keys| ==> Times(fired, i) == if i in lost then 0 else 1
    ensures forall j :: 0 <= j < |fired| ==> Answered(big, keys, fired[j])
  {
    forall i | 0 <= i < |keys| ensures Times(fired, i) == if i in lost then 0 else 1 {
      assert Accounted(map[], fired, keys, lost, i);
    }
  }

  lemma ShrinkMap(m: map<Word, nat>, k: Word)
    requires k in m
    ensures |m - {k}| < |m|
  {
    assert (m - {k}).Keys == m.Keys - {k};
    assert |(m - {k}).Keys| < |m.Keys|;
  }

  // ----- whole runs -----------------------------------------------------------

  /** Every run with a server callback, ended by the destructor.  The callback of a call
      runs once, unless the call is one whose key was taken, and then never; those that
      get a reply are the ones whose key a received reply bears while they wait. */
  method Run(bigEndian: bool, ops: seq<Op>) returns (keys: seq<Word>, fired: seq<Firing>)
    ensures keys == After(bigEndian, ops).keys && |keys| == Invocations(ops)
    ensures Replies(fired) == After(bigEndian, ops).replies
    ensures forall i :: 0 <= i < |keys| ==> Times(fired, i) == if i in After(bigEndian, ops).lost then 0 else 1
    ensures forall j :: 0 <= j < |fired| ==> Answered(bigEndian, keys, fired[j])
    ensures !After(bigEndian, ops).wrapped ==> forall i :: 0 <= i < |keys| ==> Times(fired, i) == 1
    ensures 2 * Invocations(ops) <= 0x1_0000_0000 ==> forall i :: 0 <= i < |keys| ==> Times(fired, i) == 1
  {
    var s := new RpcSock(bigEndian, true);
    s.TakeAll(ops);
    NothingLost(bigEndian, ops);
    s.AbortAllCalls();
    keys, fired := s.keys, s.fired;
    AllSettled(bigEndian, fired, keys, s.lost);
  }

  // ----- before the counter wraps ------------------------------------------------

  /** Word `w` is the xid of a call sent, or its raw form is. */
  predicate Seen(big: bool, keys: seq<Word>, w: Word) {
    w in keys || HostToWire(big, w) in keys
  }

  /** Until it wraps, the counter has passed only words that were seen: those it handed
      out, and those it skipped because they were keys of the table. */
  ghost predicate Paced(big: bool, s: Sock) {
    && (forall k :: k in s.calls ==> k in s.keys)
    && (!s.wrapped ==> (forall w: Word :: 0 < w <= s.xid ==> Seen(big, s.keys, w)) && KeysUsed(big, s.calls, s.xid) && s.lost == {})
  }

  lemma {:induction false} ProbePasses(big: bool, calls: map<Word, nat>, keys: seq<Word>, xid: Word)
    requires (forall k :: k in calls ==> k in keys) && (forall w: Word :: 0 < w <= xid ==> Seen(big, keys, w))
    ensures var x := Probe(calls, xid);
      if x == 0 then forall w: Word :: 0 < w ==> Seen(big, keys, w)
      else xid < x && forall w: Word :: 0 < w < x ==> Seen(big, keys, w)
    decreases 0xffff_ffff - xid
  {
    var next := Succ(xid);
    if next in calls && next != 0 {
      assert Seen(big, keys, next);
      ProbePasses(big, calls, keys, next);
    }
  }

  function ToSet(s: seq<Word>): (r: set<Word>)
    ensures |r| <= |s| && forall w :: w in r <==> w in s
  {
    if s == [] then {} else ToSet(s[..|s| - 1]) + {s[|s| - 1]}
  }

  function Raw(big: bool, s: seq<Word>): (r: seq<Word>)
    ensures |r| == |s| && forall i :: 0 <= i < |s| ==> r[i] == HostToWire(big, s[i])
  {
    seq(|s|, i requires 0 <= i < |s| => HostToWire(big, s[i]))
  }

  function UpTo(n: nat): (r: set<int>)
    ensures |r| == n && forall w :: w in r <==> 0 < w <= n
  {
    if n == 0 then {} else UpTo(n - 1) + {n}
  }

  lemma SubsetIsSmaller(a: set<int>, b: set<int>)
    requires a <= b
    ensures |a| <= |b|
  {
    assert b == a + (b - a);
  }

  /** The words seen are at most two for each call. */
  lemma SeenAtMostTwice(big: bool, keys: seq<Word>, n: Word)
    requires forall w: Word :: 0 < w <= n ==> Seen(big, keys, w)
    ensures n <= 2 * |keys|
  {
    var own, raw := ToSet(keys), ToSet(Raw(big, keys));
    forall w | w in UpTo(n) ensures w in own + raw {
      var x: Word := w;
      assert Seen(big, keys, x);
      if HostToWire(big, x) in keys {
        var i :| 0 <= i < |keys| && keys[i] == HostToWire(big, x);
        Swap32Involution(x);
        assert Raw(big, keys)[i] == x;
      }
    }
    SubsetIsSmaller(UpTo(n), own + raw);
  }

  /** As long as few calls have been sent the next xid is not 0, and its key is free. */
  lemma NextIsFresh(big: bool, s: Sock)
    requires Paced(big, s) && !s.wrapped && 2 * |s.keys| < 0xffff_ffff
    ensures var x := Probe(s.calls, s.xid);
      && 0 < x && (forall w: Word :: 0 < w < x ==> Seen(big, s.keys, w))
      && HostToWire(big, x) !in s.calls && KeysUsed(big, s.calls, x) && KeyUsed(big, x, HostToWire(big, x))
  {
    var x := Probe(s.calls, s.xid);
    ProbePasses(big, s.calls, s.keys, s.xid);
    if x == 0 {
      SeenAtMostTwice(big, s.keys, 0xffff_ffff);
      assert false;
    }
    FreshKey(big, s.calls, s.xid, x);
  }

  lemma SentPaces(big: bool, s: Sock)
    requires Paced(big, s) && !s.wrapped && 2 * |s.keys| < 0xffff_ffff
    ensures Paced(big, Sent(big, s)) && !Sent(big, s).wrapped
  {
    var t, x := Sent(big, s), Probe(s.calls, s.xid);
    NextIsFresh(big, s);
    forall w: Word | 0 < w <= x ensures Seen(big, t.keys, w) {
      if w < x {
        assert Seen(big, s.keys, w);
      }
    }
  }

  /** With no more than 2^31 calls the counter has not wrapped, and no callback is lost. */
  lemma {:induction false} NothingLost(big: bool, ops: seq<Op>)
    ensures |After(big, ops).keys| == Invocations(ops)
    ensures 2 * Invocations(ops) <= 0x1_0000_0000 ==>
      var s := After(big, ops); Paced(big, s) && !s.wrapped && s.lost == {}
  {
    if ops != [] {
      NothingLost(big, ops[..|ops| - 1]);
      if 2 * Invocations(ops) <= 0x1_0000_0000 && ops[|ops| - 1].Invoke? {
        SentPaces(big, After(big, ops[..|ops| - 1]));
      }
    }
  }

  // ----- after the counter has wrapped ---------------------------------------------

  /** Call 0 was sent with xid 1 and is still open; nothing else is. */
  const OPEN: map<Word, nat> := map[0x100_0000 := 0]

  function ReplyTo(x: Word): Message { Be32(x) + Be32(REPLY) }

  lemma ReplyToIsReply(x: Word)
    ensures KindOf(Some(ReplyTo(x))).ReplyMsg? && Load(false, ReplyTo(x)[..4]) == Swap32(x)
  {
    assert ReplyTo(x)[..4] == Be32(x) && ReplyTo(x)[4..8] == Be32(REPLY);
    FromBe32OfBe32(REPLY);
    LoadWire(false, x);
  }

  lemma SwapInjective(v: Word, w: Word)
    requires Swap32(v) == Swap32(w)
    ensures v == w
  {
    Swap32Involution(v);
    Swap32Involution(w);
  }

  /** The key of xid 1. */
  lemma FirstKey(one: Word)
    requires one == 1
    ensures Swap32(one) == 0x100_0000
  {
    JoinDigits(1, 0, 0, 0);
  }

  lemma OtherKey(x: Word)
    requires x != 1
    ensures Swap32(x) != 0x100_0000
  {
    var one: Word := 1;
    FirstKey(one);
    if Swap32(x) == Swap32(one) {
      SwapInjective(x, one);
      assert false;
    }
  }

  /** The counter steps from `p` to the next word that is not a key of the table. */
  lemma {:induction false} NextWord(p: Word, x: Word)
    requires p < x && x != 0x100_0000 && (x == p + 1 || (p == 0xff_ffff && x == p + 2))
    ensures Probe(OPEN, p) == x
  {
    if p == 0xff_ffff {
      assert Probe(OPEN, 0x100_0000) == 0x100_0001;
    }
  }

  /** A call with xid `x` is sent and answered while call 0 stays open. */
  lemma SendAndAnswer(ops: seq<Op>, x: Word) returns (more: seq<Op>)
    requires var s := After(false, ops); s.calls == OPEN && s.lost == {} && x > 1 && Probe(OPEN, s.xid) == x
    ensures var s := After(false, more); s.xid == x && s.calls == OPEN && s.lost == {}
  {
    var s := After(false, ops);
    OtherKey(x);
    ReplyToIsReply(x);
    AfterSnoc(false, ops, Invoke([]));
    AfterSnoc(false, ops + [Invoke([])], Receive(Some(ReplyTo(x))));
    more := ops + [Invoke([])] + [Receive(Some(ReplyTo(x)))];
    assert OPEN[Swap32(x) := |s.keys|] - {Swap32(x)} == OPEN;
  }

  lemma FirstCall(s: Sock)
    requires s.xid == 0 && s.calls == map[] && s.keys == []
    ensures Sent(false, s).xid == 1 && Sent(false, s).calls == OPEN && Sent(false, s).lost == s.lost
  {
    var one := Probe(s.calls, s.xid);
    assert one == 1;
    FirstKey(one);
  }

  lemma {:induction false} CountUp(x: Word) returns (ops: seq<Op>)
    requires 0 < x && x != 0x100_0000
    ensures var s := After(false, ops); s.xid == x && s.calls == OPEN && s.lost == {}
    decreases x
  {
    if x == 1 {
      ops := [Invoke([])];
      assert ops[..0] == [];
      FirstCall(IDLE);
    } else {
      var p := if x == 0x100_0001 then 0xff_ffff else x - 1;
      ops := CountUp(p);
      NextWord(p, x);
      ops := SendAndAnswer(ops, x);
    }
  }

  lemma {:induction false} WrapsToZero(calls: map<Word, nat>, last: Word)
    requires last == 0xffff_ffff
    ensures Probe(calls, last) == 0
  {
  }

  /** Only one word has the raw form `one`. */
  lemma OnlyKey(x: Word, one: Word, open: Word)
    requires Swap32(one) == open && x != open
    ensures Swap32(x) != one
  {
    if Swap32(x) == one {
      Swap32Involution(x);
      assert false;
    }
  }

  /** A key that is in the table stays there, and one that is not is not entered unless it
      is the new one. */
  lemma SentEnters(s: Sock, open: Word, one: Word)
    requires open in s.calls && one !in s.calls && Swap32(one) == open && Probe(s.calls, s.xid) != open
    ensures var t := Sent(false, s);
      t.xid == Probe(s.calls, s.xid) && open in t.calls && one !in t.calls
  {
    OnlyKey(Probe(s.calls, s.xid), one, open);
  }

  lemma Collides(s: Sock, open: Word, one: Word)
    requires s.xid == 0 && one == 1 && one !in s.calls && open in s.calls && Swap32(one) == open
    ensures Sent(false, s).lost != {}
  {
    assert Probe(s.calls, s.xid) == one;
    assert |s.keys| in Sent(false, s).lost;
  }

  /** A run that loses a callback: call 0 stays open while all other xids are used up;
      then the counter wraps, the probe does not see the call, and its xid is used again. */
  lemma WrapLosesCallback() returns (ops: seq<Op>)
    ensures After(false, ops).lost != {}
  {
    var one, open: Word := 1, 0x100_0000;
    FirstKey(one);
    ops := CountUp(0xffff_ffff);
    WrapsToZero(After(false, ops).calls, After(false, ops).xid);
    SentEnters(After(false, ops), open, one);
    AfterSnoc(false, ops, Invoke([]));
    Collides(After(false, ops + [Invoke([])]), open, one);
    AfterSnoc(false, ops + [Invoke([])], Invoke([]));
    ops := ops + [Invoke([])] + [Invoke([])];
  }
}

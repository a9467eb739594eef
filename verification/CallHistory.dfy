/**
 Which callback of rpc_sock is given which message, told from the sequence of calls and
 received messages alone (xdrpp/msgsock.cc: recv_msg, send_call, abort_all_calls).
 */
module CallHistory {
  import opened Options
  import opened Bytes
  import opened Framing
  import opened Calls

  /** A reply, with this first word. */
  predicate Bears(big: bool, b: Option<Message>, key: Word) {
    b.Some? && 8 <= |b.value| && b.value[4..8] == [0, 0, 0, 1] && Load(big, b.value[..4]) == key
  }

  /** Neither a call nor a reply: the end of the connection, or rubbish. */
  predicate Ends(b: Option<Message>) {
    b.None? || |b.value| < 8 || (b.value[4..8] != [0, 0, 0, 0] && b.value[4..8] != [0, 0, 0, 1])
  }

  /** Operation `p` sends call number `i`. */
  predicate Sends(ops: seq<Op>, p: int, i: nat)
    requires 0 <= p < |ops|
  {
    ops[p].Invoke? && Invocations(ops[..p]) == i
  }

  /** After this operation no call with the key is open. */
  predicate Settles(big: bool, op: Op, key: Word) {
    op.Receive? && (Bears(big, op.b, key) || Ends(op.b))
  }

  /** Nothing between operations `p` and `q` settles the key. */
  predicate OpenTill(big: bool, ops: seq<Op>, p: int, q: int, key: Word)
    requires 0 <= p < q <= |ops|
  {
    forall j :: p < j < q ==> !Settles(big, ops[j], key)
  }

  /** Call `i`, sent under the key, is open after the operations. */
  ghost predicate Open(big: bool, ops: seq<Op>, i: nat, key: Word) {
    exists p :: 0 <= p < |ops| && Sends(ops, p, i) && OpenTill(big, ops, p, |ops|, key)
  }

  /** Operation `q` receives `b`, the first reply that bears the key while call `i` is open. */
  ghost predicate RepliesAt(big: bool, ops: seq<Op>, q: int, i: nat, key: Word, b: Message)
    requires 0 <= q < |ops|
  {
    ops[q] == Op.Receive(Some(b)) && Bears(big, Some(b), key) && Open(big, ops[..q], i, key)
  }

  ghost predicate Replied(big: bool, ops: seq<Op>, i: nat, key: Word, b: Message) {
    exists q :: 0 <= q < |ops| && RepliesAt(big, ops, q, i, key, b)
  }

  lemma KindBytes(b: Option<Message>)
    ensures KindOf(b).Neither? <==> Ends(b)
    ensures KindOf(b).ReplyMsg? <==> b.Some? && 8 <= |b.value| && b.value[4..8] == [0, 0, 0, 1]
  {
    if b.Some? && 8 <= |b.value| {
      var w := b.value[4..8];
      Be32OfFromBe32(w);
      assert Be32(0) == [0, 0, 0, 0] && Be32(1) == [0, 0, 0, 1];
    }
  }

  // ----- one more operation --------------------------------------------------------------

  lemma SendsMore(ops: seq<Op>, op: Op, p: int, i: nat)
    requires 0 <= p < |ops|
    ensures Sends(ops + [op], p, i) <==> Sends(ops, p, i)
  {
    assert (ops + [op])[..p] == ops[..p];
  }

  lemma OpenMore(big: bool, ops: seq<Op>, op: Op, i: nat, key: Word)
    ensures Open(big, ops + [op], i, key) <==>
      (Open(big, ops, i, key) && !Settles(big, op, key)) || (op.Invoke? && Invocations(ops) == i)
  {
    var more, n := ops + [op], |ops|;
    assert more[..n] == ops;
    if Open(big, more, i, key) {
      var p :| 0 <= p < |more| && Sends(more, p, i) && OpenTill(big, more, p, |more|, key);
      if p < n {
        SendsMore(ops, op, p, i);
        assert !Settles(big, more[n], key);
        OpenFront(big, ops, op, p, key);
      }
    }
    if Open(big, ops, i, key) && !Settles(big, op, key) {
      var p :| 0 <= p < |ops| && Sends(ops, p, i) && OpenTill(big, ops, p, |ops|, key);
      SendsMore(ops, op, p, i);
      OpenFront(big, ops, op, p, key);
    }
    if op.Invoke? && Invocations(ops) == i {
      assert Sends(more, n, i) && OpenTill(big, more, n, |more|, key);
    }
  }

  lemma OpenFront(big: bool, ops: seq<Op>, op: Op, p: int, key: Word)
    requires 0 <= p < |ops|
    ensures OpenTill(big, ops + [op], p, |ops| + 1, key) <==> OpenTill(big, ops, p, |ops|, key) && !Settles(big, op, key)
  {
    var more, n := ops + [op], |ops|;
    if OpenTill(big, more, p, n + 1, key) {
      forall j | p < j < n ensures !Settles(big, ops[j], key) {
        assert !Settles(big, more[j], key);
      }
      assert !Settles(big, more[n], key);
    }
  }

  lemma RepliedMore(big: bool, ops: seq<Op>, op: Op, i: nat, key: Word, b: Message)
    ensures Replied(big, ops + [op], i, key, b) <==>
      Replied(big, ops, i, key, b) || (op == Op.Receive(Some(b)) && Bears(big, Some(b), key) && Open(big, ops, i, key))
  {
    var more, n := ops + [op], |ops|;
    assert more[..n] == ops;
    if Replied(big, more, i, key, b) {
      var q :| 0 <= q < |more| && RepliesAt(big, more, q, i, key, b);
      if q < n {
        assert more[..q] == ops[..q];
        assert RepliesAt(big, ops, q, i, key, b);
      }
    }
    if Replied(big, ops, i, key, b) {
      var q :| 0 <= q < |ops| && RepliesAt(big, ops, q, i, key, b);
      assert more[..q] == ops[..q];
      assert RepliesAt(big, more, q, i, key, b);
    }
    if op == Op.Receive(Some(b)) && Bears(big, Some(b), key) && Open(big, ops, i, key) {
      assert RepliesAt(big, more, n, i, key, b);
    }
  }

  // ----- the table and the history --------------------------------------------------------

  predicate Waits(s: Sock, i: nat)
    requires i < |s.keys|
  {
    s.keys[i] in s.calls && s.calls[s.keys[i]] == i
  }

  /** Call `i` waits in the table exactly when it is open and was not thrown away. */
  ghost predicate WaitsOpen(big: bool, ops: seq<Op>, s: Sock, i: nat)
    requires i < |s.keys|
  {
    Waits(s, i) <==> i !in s.lost && Open(big, ops, i, s.keys[i])
  }

  /** Its callback has been given `b` exactly when `b` was the reply while it was open. */
  ghost predicate GivenReplied(big: bool, ops: seq<Op>, s: Sock, i: nat, b: Message)
    requires i < |s.keys|
  {
    Firing(i, Some(b)) in s.replies <==> i !in s.lost && Replied(big, ops, i, s.keys[i], b)
  }

  ghost predicate Tidy(s: Sock) {
    && (forall k :: k in s.calls ==> s.calls[k] < |s.keys| && s.keys[s.calls[k]] == k)
    && (forall i :: i in s.lost ==> i < |s.keys|)
    && (forall f :: f in s.replies ==> f.call < |s.keys| && f.reply.Some?)
  }

  ghost predicate Told(big: bool, ops: seq<Op>, s: Sock) {
    && Tidy(s) && |s.keys| == Invocations(ops)
    && (forall i :: 0 <= i < |s.keys| ==> WaitsOpen(big, ops, s, i))
    && (forall i, b :: 0 <= i < |s.keys| ==> GivenReplied(big, ops, s, i, b))
  }

  lemma InvocationsMore(ops: seq<Op>, op: Op)
    ensures Invocations(ops + [op]) == Invocations(ops) + if op.Invoke? then 1 else 0
  {
    assert (ops + [op])[..|ops|] == ops;
  }

  /** No call is open before it is sent, and no reply to it received. */
  lemma {:induction false} NotYet(big: bool, ops: seq<Op>, i: nat, key: Word, b: Message)
    requires Invocations(ops) <= i
    ensures !Open(big, ops, i, key) && !Replied(big, ops, i, key, b)
    decreases |ops|
  {
    if ops != [] {
      var before, op := ops[..|ops| - 1], ops[|ops| - 1];
      assert ops == before + [op];
      InvocationsMore(before, op);
      NotYet(big, before, i, key, b);
      OpenMore(big, before, op, i, key);
      RepliedMore(big, before, op, i, key, b);
    }
  }

  lemma SentTells(big: bool, ops: seq<Op>, s: Sock, op: Op)
    requires Told(big, ops, s) && op.Invoke?
    ensures Told(big, ops + [op], Sent(big, s))
  {
    var t, n := Sent(big, s), |s.keys|;
    InvocationsMore(ops, op);
    forall i | 0 <= i < |t.keys| ensures WaitsOpen(big, ops + [op], t, i) {
      OpenMore(big, ops, op, i, t.keys[i]);
      if i < n {
        assert WaitsOpen(big, ops, s, i);
      } else {
        NotYet(big, ops, i, t.keys[i], []);
      }
    }
    forall i, b | 0 <= i < |t.keys| ensures GivenReplied(big, ops + [op], t, i, b) {
      RepliedMore(big, ops, op, i, t.keys[i], b);
      if i < n {
        assert GivenReplied(big, ops, s, i, b);
      } else {
        NotYet(big, ops, i, t.keys[i], b);
      }
    }
  }

  lemma ReceivedTells(big: bool, ops: seq<Op>, s: Sock, b: Option<Message>)
    requires Told(big, ops, s)
    ensures Told(big, ops + [Op.Receive(b)], Received(big, s, b))
  {
    var t, op := Received(big, s, b), Op.Receive(b);
    InvocationsMore(ops, op);
    KindBytes(b);
    forall i | 0 <= i < |t.keys| ensures WaitsOpen(big, ops + [op], t, i) {
      assert WaitsOpen(big, ops, s, i);
      OpenMore(big, ops, op, i, t.keys[i]);
      WaitsAfter(big, s, b, i);
    }
    forall i, c | 0 <= i < |t.keys| ensures GivenReplied(big, ops + [op], t, i, c) {
      assert WaitsOpen(big, ops, s, i) && GivenReplied(big, ops, s, i, c);
      RepliedMore(big, ops, op, i, t.keys[i], c);
      GivenAfter(big, s, b, i, c);
    }
  }

  /** Who waits after a message: those that did, unless it settles their key. */
  lemma WaitsAfter(big: bool, s: Sock, b: Option<Message>, i: nat)
    requires Tidy(s) && i < |s.keys|
    ensures var t := Received(big, s, b);
      t.keys == s.keys && t.lost == s.lost && (Waits(t, i) <==> Waits(s, i) && !Settles(big, Op.Receive(b), s.keys[i]))
  {
    KindBytes(b);
  }

  /** Who has been given what after a message: the callback that waits for it, too. */
  lemma GivenAfter(big: bool, s: Sock, b: Option<Message>, i: nat, c: Message)
    requires Tidy(s) && i < |s.keys|
    ensures Firing(i, Some(c)) in Received(big, s, b).replies <==>
      Firing(i, Some(c)) in s.replies || (b == Some(c) && Bears(big, b, s.keys[i]) && Waits(s, i))
  {
    KindBytes(b);
  }

  /** In every run, whatever is received, a callback is given a message exactly when that
      message is a reply that bears the first word of its call and is the first such since
      the call, with no end of the connection in between; only calls whose key was taken
      get nothing. */
  lemma {:induction false} RepliesReachTheirCalls(big: bool, ops: seq<Op>)
    ensures Told(big, ops, After(big, ops))
    decreases |ops|
  {
    if ops != [] {
      var before, op := ops[..|ops| - 1], ops[|ops| - 1];
      assert ops == before + [op];
      RepliesReachTheirCalls(big, before);
      if op.Invoke? {
        SentTells(big, before, After(big, before), op);
      } else {
        ReceivedTells(big, before, After(big, before), op.b);
      }
    }
  }

  lemma {:induction false} AmongReplies(fired: seq<Firing>, f: Firing)
    ensures f in Replies(fired) <==> f in fired && f.reply.Some?
  {
    if fired != [] {
      var before, last := fired[..|fired| - 1], fired[|fired| - 1];
      assert fired == before + [last];
      AmongReplies(before, f);
    }
  }

  /** A whole run: every callback runs at most once, with fewer than 2^31 calls exactly
      once; one that runs is given `b` exactly when `b` was the reply to its call. */
  method Run(bigEndian: bool, ops: seq<Op>) returns (keys: seq<Word>, fired: seq<Firing>)
    ensures |keys| == Invocations(ops)
    ensures forall i :: 0 <= i < |keys| ==> Times(fired, i) <= 1
    ensures 2 * Invocations(ops) <= 0x1_0000_0000 ==> forall i :: 0 <= i < |keys| ==> Times(fired, i) == 1
    ensures forall i, b :: 0 <= i < |keys| ==>
      (Firing(i, Some(b)) in fired <==> Times(fired, i) == 1 && Replied(bigEndian, ops, i, keys[i], b))
  {
    keys, fired := Calls.Run(bigEndian, ops);
    RepliesReachTheirCalls(bigEndian, ops);
    var s := After(bigEndian, ops);
    forall i, b | 0 <= i < |keys|
      ensures Firing(i, Some(b)) in fired <==> Times(fired, i) == 1 && Replied(bigEndian, ops, i, keys[i], b)
    {
      assert GivenReplied(bigEndian, ops, s, i, b);
      AmongReplies(fired, Firing(i, Some(b)));
    }
  }
}

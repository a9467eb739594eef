/**
 The partially written send queue of msg_sock (xdrpp/msgsock.cc): putmsg,
 output and pop_wbytes.
 */
module SendQueue {
  import opened Bytes
  import opened Framing
  import opened Sequences

  /** What writev is going to do: `Wrote(n)` accepts up to `n` of the bytes offered. */
  datatype WriteResult = Again | Failed | Wrote(n: nat)

  const MAX_IOV: nat := 8

  ghost predicate NonEmpty(q: seq<seq<Byte>>) {
    forall i :: 0 <= i < |q| ==> 0 < |q[i]|
  }

  /** The bytes of a queue that are still to be written, the front one from `start`. */
  function Unsent(q: seq<seq<Byte>>, start: nat): seq<Byte>
    requires if q == [] then start == 0 else start < |q[0]|
  {
    if q == [] then [] else Both(From(q[0], start), Concat(q[1..]))
  }

  lemma {:induction false} UnsentIsSuffix(q: seq<seq<Byte>>, start: nat)
    requires if q == [] then start == 0 else start < |q[0]|
    ensures Unsent(q, start) == From(Concat(q), start)
  {
    if q != [] {
      FromAppend(q[0], start, Concat(q[1..]));
      BothIsAppend(From(q[0], start), Concat(q[1..]));
    }
  }

  lemma {:induction false} UnsentAppend(q: seq<seq<Byte>>, start: nat, t: seq<seq<Byte>>)
    requires q != [] && start < |q[0]|
    ensures Unsent(q + t, start) == Unsent(q, start) + Concat(t)
  {
    assert (q + t)[1..] == q[1..] + t;
    ConcatAppend(q[1..], t);
    BothAssociative(From(q[0], start), Concat(q[1..]), Concat(t));
  }

  lemma UnsentSnoc(q: seq<seq<Byte>>, start: nat, m: seq<Byte>)
    requires q == [] ==> start == 0
    requires q != [] ==> start < |q[0]|
    requires 0 < |m|
    ensures Unsent(q + [m], start) == Unsent(q, start) + m
  {
    assert Concat([m]) == m;
    if q != [] {
      UnsentAppend(q, start, [m]);
    }
  }

  /** Bytes offered to one writev: those of at most eight queued messages. */
  function Offered(q: seq<seq<Byte>>, start: nat): seq<Byte>
    requires if q == [] then start == 0 else start < |q[0]|
  {
    Unsent(if |q| <= MAX_IOV then q else q[..MAX_IOV], start)
  }

  lemma OfferedIsPrefix(q: seq<seq<Byte>>, start: nat)
    requires if q == [] then start == 0 else start < |q[0]|
    ensures Offered(q, start) <= Unsent(q, start)
    ensures q != [] ==> Offered(q, start) != []
  {
    if |q| > MAX_IOV {
      UnsentAppend(q[..MAX_IOV], start, q[MAX_IOV..]);
      assert q == q[..MAX_IOV] + q[MAX_IOV..];
    }
  }

  /** The number of unsent bytes of the first `i` messages. */
  function UnsentOf(q: seq<seq<Byte>>, start: nat, i: nat): nat
    requires i <= |q| && if q == [] then start == 0 else start < |q[0]|
  {
    if i == 0 then 0 else if i == 1 then |q[0]| - start else UnsentOf(q, start, i - 1) + |q[i - 1]|
  }

  lemma UnsentOne(q: seq<seq<Byte>>, start: nat)
    requires q != [] && start < |q[0]|
    ensures |Unsent(q[..1], start)| == |q[0]| - start
  {
    assert q[..1] == [q[0]];
  }

  lemma {:induction false} UnsentNext(q: seq<seq<Byte>>, start: nat, i: nat)
    requires NonEmpty(q) && 0 < i < |q| && start < |q[0]|
    ensures |Unsent(q[..i + 1], start)| == |Unsent(q[..i], start)| + |q[i]|
  {
    assert q[..i + 1] == q[..i] + [q[i]];
    UnsentSnoc(q[..i], start, q[i]);
  }

  lemma {:induction false} UnsentOfIs(q: seq<seq<Byte>>, start: nat, i: nat)
    requires NonEmpty(q) && 0 < i <= |q| && start < |q[0]|
    ensures UnsentOf(q, start, i) == |Unsent(q[..i], start)|
  {
    if i == 1 {
      UnsentOne(q, start);
    } else {
      UnsentOfIs(q, start, i - 1);
      UnsentNext(q, start, i - 1);
    }
  }

  /** As many messages as writev is offered. */
  function Iovs(q: seq<seq<Byte>>): (n: nat)
    ensures n <= |q|
  {
    if |q| < MAX_IOV then |q| else MAX_IOV
  }

  lemma {:induction false} UnsentOfAll(q: seq<seq<Byte>>, start: nat)
    requires NonEmpty(q) && if q == [] then start == 0 else start < |q[0]|
    ensures UnsentOf(q, start, Iovs(q)) == |Offered(q, start)|
  {
    if q != [] {
      UnsentOfIs(q, start, Iovs(q));
    }
    if |q| <= MAX_IOV {
      assert q[..|q|] == q;
    }
  }

  lemma DropFront(a: seq<Byte>, b: seq<Byte>, n: nat)
    requires |a| <= n <= |a| + |b|
    ensures From(Both(a, b), n) == From(b, n - |a|)
  {
  }

  lemma DropPart(a: seq<Byte>, start: nat, n: nat, b: seq<Byte>)
    requires start + n < |a|
    ensures From(Both(From(a, start), b), n) == Both(From(a, start + n), b)
  {
  }

  lemma BothAssociative(a: seq<Byte>, b: seq<Byte>, c: seq<Byte>)
    ensures Both(a, b + c) == Both(a, b) + c
  {
  }

  lemma MoveBytes(a: seq<Byte>, b: seq<Byte>, front: seq<Byte>, n: nat)
    requires n <= |b| && front == b[..n]
    ensures Both(Both(a, front), From(b, n)) == Both(a, b)
  {
  }

  /** What was written and what is still queued are what was put before any failure. */
  ghost predicate Balanced(
    wqueue: seq<seq<Byte>>, wstart: nat, wsize: nat, puts: seq<Message>, wfail: bool, written: seq<Byte>)
  {
    && NonEmpty(wqueue)
    && (if wqueue == [] then wstart == 0 else wstart < |wqueue[0]|)
    && wsize == |Unsent(wqueue, wstart)|
    && (forall i :: 0 <= i < |puts| ==> |puts[i]| < LAST_FRAGMENT)
    && (!wfail ==> Both(written, Unsent(wqueue, wstart)) == Concat(Raws(puts)))
    && (wfail ==> wqueue == [] && written <= Concat(Raws(puts)))
  }

  lemma EnqueueBalances(wqueue: seq<seq<Byte>>, wstart: nat, wsize: nat, puts: seq<Message>, written: seq<Byte>, m: Message)
    requires Balanced(wqueue, wstart, wsize, puts, false, written) && |m| < LAST_FRAGMENT
    ensures Balanced(wqueue + [Raw(m)], wstart, wsize + |Raw(m)|, puts + [m], false, written)
  {
    UnsentSnoc(wqueue, wstart, Raw(m));
    EnqueueConserves(written, Unsent(wqueue, wstart), puts, m);
  }

  /** The first `n` bytes offered move from the queue to what was written. */
  lemma TakenBalances(
    wqueue: seq<seq<Byte>>, wstart: nat, wsize: nat, puts: seq<Message>, wfail: bool, written: seq<Byte>, n: nat,
    wqueue': seq<seq<Byte>>, wstart': nat, wsize': nat)
    requires Balanced(wqueue, wstart, wsize, puts, wfail, written) && 0 < n <= |Offered(wqueue, wstart)|
    requires NonEmpty(wqueue') && if wqueue' == [] then wstart' == 0 else wstart' < |wqueue'[0]|
    requires n <= |Unsent(wqueue, wstart)| && Unsent(wqueue', wstart') == From(Unsent(wqueue, wstart), n)
    requires wsize' == |Unsent(wqueue', wstart')|
    ensures Balanced(wqueue', wstart', wsize', puts, wfail, Both(written, Offered(wqueue, wstart)[..n]))
    ensures wsize' == 0 <==> wqueue' == []
  {
    OfferedIsPrefix(wqueue, wstart);
    assert !wfail;
    MoveBytes(written, Unsent(wqueue, wstart), Offered(wqueue, wstart)[..n], n);
  }

  /** The part of msg_sock that `putmsg` and `output` work on. */
  class Sender {
    var wqueue: seq<seq<Byte>>    // raw messages, the front one partly written
    var wsize: nat
    var wstart: nat               // bytes of the front message already written
    var wfail: bool
    var writeCb: bool             // whether a Write callback is registered
    var written: seq<Byte>        // every byte accepted by writev
    ghost var puts: seq<Message>  // messages put before any failure

    ghost predicate Valid()
      reads this
    {
      Conserves() && (writeCb ==> wqueue != [] || wfail)
    }

    ghost predicate Conserves()
      reads `wqueue, `wstart, `wsize, `puts, `wfail, `written
    {
      Balanced(wqueue, wstart, wsize, puts, wfail, written)
    }

    /** Unsent bytes, and nothing that would ever send them. */
    ghost predicate Stalled()
      reads this
    {
      !wfail && wsize > 0 && !writeCb
    }

    constructor ()
      ensures Valid() && written == [] && puts == [] && !wfail && !writeCb && wqueue == []
    {
      wqueue, wsize, wstart, wfail, writeCb := [], 0, 0, false, false;
      written, puts := [], [];
    }

    /** pop_wbytes: `front()` is never taken of an empty queue, because the count
        never exceeds what is unsent. */
    method PopWbytes(n0: nat)
      requires NonEmpty(wqueue)
      requires if wqueue == [] then wstart == 0 else wstart < |wqueue[0]|
      requires wsize == |Unsent(wqueue, wstart)| && n0 <= wsize
      modifies `wqueue, `wsize, `wstart
      ensures NonEmpty(wqueue)
      ensures if wqueue == [] then wstart == 0 else wstart < |wqueue[0]|
      ensures Unsent(wqueue, wstart) == From(old(Unsent(wqueue, wstart)), n0)
      ensures wsize == |Unsent(wqueue, wstart)|
    {
      if n0 == 0 {
        FromIsSlice(Unsent(wqueue, wstart), 0);
        return;
      }
      wsize := wsize - n0;
      var frontbytes := |wqueue[0]| - wstart;
      if n0 < frontbytes {
        PopPart(n0);
      } else {
        PopFront(n0);
      }
    }

    /** pop_wbytes, when the front message is not complete. */
    method PopPart(n0: nat)
      requires NonEmpty(wqueue) && wqueue != [] && wstart + n0 < |wqueue[0]|
      modifies `wstart
      ensures wstart < |wqueue[0]| && n0 <= |old(Unsent(wqueue, wstart))|
      ensures Unsent(wqueue, wstart) == From(old(Unsent(wqueue, wstart)), n0)
    {
      DropPart(wqueue[0], wstart, n0, Concat(wqueue[1..]));
      wstart := wstart + n0;
    }

    /** pop_wbytes, when the front message is complete. */
    method PopFront(n0: nat)
      requires NonEmpty(wqueue) && wqueue != [] && wstart < |wqueue[0]|
      requires |wqueue[0]| - wstart <= n0 <= |Unsent(wqueue, wstart)|
      modifies `wqueue, `wstart
      ensures NonEmpty(wqueue)
      ensures if wqueue == [] then wstart == 0 else wstart < |wqueue[0]|
      ensures Unsent(wqueue, wstart) == From(old(Unsent(wqueue, wstart)), n0)
    {
      var n: nat := n0 - (|wqueue[0]| - wstart);
      DropFront(From(wqueue[0], wstart), Concat(wqueue[1..]), n0);
      wqueue := wqueue[1..];
      wstart := PopMessages(n);
      UnsentIsSuffix(wqueue, wstart);
    }

    /** The loop of pop_wbytes: whole messages leave the queue. */
    method PopMessages(n0: nat) returns (n: nat)
      requires NonEmpty(wqueue) && n0 <= |Concat(wqueue)|
      modifies `wqueue
      ensures NonEmpty(wqueue) && (if wqueue == [] then n == 0 else n < |wqueue[0]|)
      ensures n <= |Concat(wqueue)| && From(Concat(wqueue), n) == From(old(Concat(wqueue)), n0)
    {
      n := n0;
      while n > 0 && n >= |wqueue[0]|
        invariant NonEmpty(wqueue)
        invariant n <= |Concat(wqueue)| && From(old(Concat(wqueue)), n0) == From(Concat(wqueue), n)
        decreases |wqueue|
      {
        DropFront(wqueue[0], Concat(wqueue[1..]), n);
        BothIsAppend(wqueue[0], Concat(wqueue[1..]));
        n := n - |wqueue[0]|;
        wqueue := wqueue[1..];
      }
    }

    /** output: offer at most eight messages to writev and drop what it took.  A
        result of EAGAIN returns before the Write callback is looked at. */
    method Output(cbset: bool, w: WriteResult)
      requires Valid() && cbset == writeCb
      modifies this
      ensures Valid() && puts == old(puts) && old(written) <= written
      ensures w.Again? ==> unchanged(this)
      ensures w.Failed? || (w.Wrote? && (w.n == 0 || old(wqueue) == [])) ==> wfail && written == old(written)
      ensures w.Wrote? && w.n > 0 && old(wqueue) != [] ==>
        && wfail == old(wfail)
        && written == old(Both(written, Offered(wqueue, wstart)[..if w.n < |Offered(wqueue, wstart)| then w.n else |Offered(wqueue, wstart)|]))
        && (writeCb <==> wqueue != [])
    {
      if w.Again? {
        return;
      }
      var offered := CountOffered();
      UnsentOfAll(wqueue, wstart);
      OfferedIsPrefix(wqueue, wstart);
      var n: nat := if w.Failed? then 0 else if w.n < offered then w.n else offered;
      if n == 0 {
        Fail();
        return;
      }
      Transfer(n, cbset);
    }

    /** writev took `n` bytes, and the Write callback is brought up to date. */
    method Transfer(n: nat, cbset: bool)
      requires Valid() && cbset == writeCb && 0 < n <= |Offered(wqueue, wstart)|
      modifies this
      ensures Valid() && (writeCb <==> wqueue != []) && puts == old(puts) && wfail == old(wfail)
      ensures written == old(Both(written, Offered(wqueue, wstart)[..n]))
    {
      Accept(n);
      UpdateCallback(cbset);
    }

    /** The Write callback is registered exactly while something is unsent. */
    method UpdateCallback(cbset: bool)
      requires Conserves() && (wsize == 0 <==> wqueue == []) && cbset == writeCb
      modifies `writeCb
      ensures Valid() && (writeCb <==> wqueue != [])
    {
      if wsize > 0 && !cbset {
        writeCb := true;
      } else if wsize == 0 && cbset {
        writeCb := false;
      }
    }

    /** A write error empties the queue for good. */
    method Fail()
      requires Valid()
      modifies `wfail, `wsize, `wstart, `wqueue
      ensures Valid() && wfail
    {
      wfail := true;
      wsize, wstart := 0, 0;
      wqueue := [];
    }

    /** writev took `n` bytes. */
    method Accept(n: nat)
      requires Valid() && 0 < n <= |Offered(wqueue, wstart)|
      modifies `wqueue, `wsize, `wstart, `written
      ensures written == old(Both(written, Offered(wqueue, wstart)[..n]))
      ensures Conserves() && (wsize == 0 <==> wqueue == [])
    {
      OfferedIsPrefix(wqueue, wstart);
      written := Both(written, Offered(wqueue, wstart)[..n]);
      PopWbytes(n);
      TakenBalances(old(wqueue), old(wstart), old(wsize), puts, wfail, old(written), n, wqueue, wstart, wsize);
    }

    /** The loop that fills the iovec array, as a byte count. */
    method CountOffered() returns (n: nat)
      requires NonEmpty(wqueue)
      requires if wqueue == [] then wstart == 0 else wstart < |wqueue[0]|
      ensures n == UnsentOf(wqueue, wstart, Iovs(wqueue))
    {
      n := 0;
      var i := 0;
      while i < MAX_IOV && i < |wqueue|
        invariant 0 <= i <= Iovs(wqueue) && n == UnsentOf(wqueue, wstart, i)
      {
        n := n + if i == 0 then |wqueue[0]| - wstart else |wqueue[i]|;
        i := i + 1;
      }
    }

    /** putmsg: after a failure the message is dropped; it is written at once only
        if nothing was queued before it.  Whether unsent bytes have a callback that
        will send them depends on that first attempt alone. */
    method PutMsg(m: Message, w: WriteResult)
      requires Valid() && |m| < LAST_FRAGMENT
      modifies this
      ensures Valid() && old(written) <= written
      ensures wfail ==> old(wfail) || w.Failed? || w == Wrote(0)
      ensures old(wfail) ==> unchanged(this)
      ensures !old(wfail) ==> puts == old(puts) + [m]
      ensures !wfail && wsize > 0 ==> (writeCb <==> if old(wsize) == 0 then !w.Again? else old(writeCb))
      ensures !old(wfail) && old(wsize) == 0 && w.Again? ==> Stalled() && written == old(written)
      ensures old(wsize) > 0 ==> written == old(written) && wsize == old(wsize) + 4 + |m| && writeCb == old(writeCb) && !wfail
    {
      if wfail {
        return;
      }
      var wasEmpty := wsize == 0;
      Enqueue(m);
      if wasEmpty {
        OfferedIsPrefix(wqueue, wstart);
        Output(false, w);
      }
    }

    method Enqueue(m: Message)
      requires Valid() && !wfail && |m| < LAST_FRAGMENT
      modifies `wqueue, `wsize, `puts
      ensures Valid() && puts == old(puts) + [m] && wqueue != [] && wsize == old(wsize) + 4 + |m|
    {
      EnqueueBalances(wqueue, wstart, wsize, puts, written, m);
      wsize := wsize + |Raw(m)|;
      wqueue := wqueue + [Raw(m)];
      puts := puts + [m];
    }
  }

  lemma {:induction false} EnqueueConserves(written: seq<Byte>, unsent: seq<Byte>, ms: seq<Message>, m: Message)
    requires |m| < LAST_FRAGMENT && forall i :: 0 <= i < |ms| ==> |ms[i]| < LAST_FRAGMENT
    requires Both(written, unsent) == Concat(Raws(ms))
    ensures Both(written, unsent + Raw(m)) == Concat(Raws(ms + [m]))
  {
    PutsSnoc(ms, m);
    BothAssociative(written, unsent, Raw(m));
  }

  lemma {:induction false} PutsSnoc(ms: seq<Message>, m: Message)
    requires |m| < LAST_FRAGMENT && forall i :: 0 <= i < |ms| ==> |ms[i]| < LAST_FRAGMENT
    ensures Concat(Raws(ms + [m])) == Concat(Raws(ms)) + Raw(m)
  {
    assert Raws(ms + [m]) == Raws(ms) + [Raw(m)];
    ConcatAppend(Raws(ms), [Raw(m)]);
    assert Concat([Raw(m)]) == Raw(m);
  }

  lemma OneMore(a: seq<Message>, ms: seq<Message>, i: nat)
    requires i < |ms|
    ensures (a + ms[..i]) + [ms[i]] == a + ms[..i + 1]
  {
  }

  lemma NothingBefore(a: seq<Byte>)
    ensures Both([], a) == a
  {
  }

  /** An EAGAIN on the first write of an idle socket stalls it for good: whatever is
      put afterwards and whatever the network would do, no byte is ever written. */
  method StallIsPermanent(s: Sender, ms: seq<Message>, ws: seq<WriteResult>)
    requires s.Valid() && s.Stalled() && |ws| == |ms|
    requires forall i :: 0 <= i < |ms| ==> |ms[i]| < LAST_FRAGMENT
    modifies s
    ensures s.Valid() && s.Stalled() && s.written == old(s.written) && s.puts == old(s.puts) + ms
  {
    var i := 0;
    while i < |ms|
      invariant 0 <= i <= |ms| && s.Valid() && s.Stalled()
      invariant s.written == old(s.written) && s.puts == old(s.puts) + ms[..i]
    {
      s.PutMsg(ms[i], ws[i]);
      OneMore(old(s.puts), ms, i);
      i := i + 1;
    }
    assert ms[..i] == ms;
  }

  /** The stall from the beginning: a new socket whose first write gives EAGAIN never
      writes anything. */
  method FirstWriteStalls(m: Message, ms: seq<Message>, ws: seq<WriteResult>) returns (written: seq<Byte>, wsize: nat)
    requires |m| < LAST_FRAGMENT && |ws| == |ms|
    requires forall i :: 0 <= i < |ms| ==> |ms[i]| < LAST_FRAGMENT
    ensures written == [] && wsize == |Concat(Raws([m] + ms))|
  {
    var s := new Sender();
    s.PutMsg(m, Again);
    StallIsPermanent(s, ms, ws);
    assert s.puts == [m] + ms;
    NothingBefore(Unsent(s.wqueue, s.wstart));
    written, wsize := s.written, s.wsize;
  }
}

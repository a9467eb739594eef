/**
 What a round of poll does to the registered callbacks, told from the reported events and
 the fd_cb calls of the callbacks that run (xdrpp/pollset.cc).
 */
module PollHistory {
  import opened Options
  import opened PollTable

  /** The callback that is set for a descriptor and direction. */
  function SetAt(r: Registry, fd: Fd, dir: Dir): Option<Reg> {
    if fd in r.Of(dir) then Some(r.Of(dir)[fd]) else None
  }

  predicate Touches(op: Op, fd: Fd, dir: Dir) {
    op.fd == fd && op.dir == dir
  }

  function Given(op: Op): Option<Reg> {
    if op.SetCb? then Some(op.reg) else None
  }

  lemma DoSets(r: Registry, op: Op, fd: Fd, dir: Dir)
    ensures SetAt(Do(r, op), fd, dir) == if Touches(op, fd, dir) then Given(op) else SetAt(r, fd, dir)
  {
    if op.SetCb? {
    } else {
    }
  }

  /** After any fd_cb calls a callback is set exactly as the last call for its descriptor
      and direction says; without one, as before. */
  lemma {:induction false} LastCallSets(r: Registry, ops: seq<Op>, fd: Fd, dir: Dir)
    ensures (forall j :: 0 <= j < |ops| ==> !Touches(ops[j], fd, dir)) ==> SetAt(DoAll(r, ops), fd, dir) == SetAt(r, fd, dir)
    ensures forall i :: 0 <= i < |ops| && Touches(ops[i], fd, dir) && (forall j :: i < j < |ops| ==> !Touches(ops[j], fd, dir)) ==>
      SetAt(DoAll(r, ops), fd, dir) == Given(ops[i])
    decreases |ops|
  {
    if ops != [] {
      var n := |ops| - 1;
      var before := ops[..n];
      assert ops == before + [ops[n]];
      LastCallSets(r, before, fd, dir);
      DoSets(DoAll(r, before), ops[n], fd, dir);
      forall i | 0 <= i < |ops| && Touches(ops[i], fd, dir) && forall j :: i < j < |ops| ==> !Touches(ops[j], fd, dir)
        ensures SetAt(DoAll(r, ops), fd, dir) == Given(ops[i])
      {
        if i < n {
          assert !Touches(ops[n], fd, dir);
          assert before[i] == ops[i];
          assert forall j :: i < j < |before| ==> before[j] == ops[j];
        }
      }
      if forall j :: 0 <= j < |ops| ==> !Touches(ops[j], fd, dir) {
        assert forall j :: 0 <= j < |before| ==> before[j] == ops[j];
        assert !Touches(ops[n], fd, dir);
      }
    }
  }

  /** A reported event runs the callback that is set for it, once; one that is to run only
      once is gone before it runs, so that afterwards it is set only if it was set anew. */
  lemma {:induction false} EventRuns(o: Outcome, prog: Program, fd: Fd, dir: Dir, hit: bool)
    ensures var c, p := SetAt(o.reg, fd, dir), Fire(o, prog, fd, dir, hit);
      && (!hit || c.None? ==> p == o)
      && (hit && c.Some? ==>
            && p.ran == o.ran + [c.value.cb]
            && ((forall j :: 0 <= j < |Body(prog, c.value.cb)| ==> !Touches(Body(prog, c.value.cb)[j], fd, dir)) ==>
                  SetAt(p.reg, fd, dir) == if c.value.once then None else c))
  {
    var c := SetAt(o.reg, fd, dir);
    if hit && c.Some? {
      var reg := if c.value.once then Do(o.reg, ClearCb(fd, dir)) else o.reg;
      DoSets(o.reg, ClearCb(fd, dir), fd, dir);
      LastCallSets(reg, Body(prog, c.value.cb), fd, dir);
    }
  }

  // ----- a callback that runs only once ----------------------------------------------------

  /** No callback that runs sets callback `cb` again. */
  predicate NeverSet(prog: Program, cb: Cb) {
    forall c, j :: c in prog && 0 <= j < |prog[c]| ==> !(prog[c][j].SetCb? && prog[c][j].reg.cb == cb)
  }

  /** `cb` is set at most for one descriptor and direction, to run once. */
  ghost predicate OnlyOnceAt(r: Registry, cb: Cb, fd: Fd, dir: Dir) {
    forall f, d :: SetAt(r, f, d).Some? && SetAt(r, f, d).value.cb == cb ==> f == fd && d == dir && SetAt(r, f, d).value.once
  }

  predicate Pending(r: Registry, cb: Cb, fd: Fd, dir: Dir) {
    SetAt(r, fd, dir).Some? && SetAt(r, fd, dir).value.cb == cb
  }

  function Runs(ran: seq<Cb>, cb: Cb): nat {
    if ran == [] then 0 else Runs(ran[..|ran| - 1], cb) + if ran[|ran| - 1] == cb then 1 else 0
  }

  lemma {:induction false} RunsSnoc(ran: seq<Cb>, c: Cb, cb: Cb)
    ensures Runs(ran + [c], cb) == Runs(ran, cb) + if c == cb then 1 else 0
  {
    assert (ran + [c])[..|ran|] == ran;
  }

  /** How often `cb` has run, and may still run. */
  function Total(o: Outcome, cb: Cb, fd: Fd, dir: Dir): nat {
    Runs(o.ran, cb) + if Pending(o.reg, cb, fd, dir) then 1 else 0
  }

  lemma {:induction false} CallsKeepOnce(r: Registry, ops: seq<Op>, cb: Cb, fd: Fd, dir: Dir)
    requires OnlyOnceAt(r, cb, fd, dir) && forall j :: 0 <= j < |ops| ==> !(ops[j].SetCb? && ops[j].reg.cb == cb)
    ensures OnlyOnceAt(DoAll(r, ops), cb, fd, dir)
    ensures Pending(DoAll(r, ops), cb, fd, dir) ==> Pending(r, cb, fd, dir)
    decreases |ops|
  {
    if ops != [] {
      var n := |ops| - 1;
      var before := ops[..n];
      CallsKeepOnce(r, before, cb, fd, dir);
      forall f, d ensures SetAt(DoAll(r, ops), f, d) == if Touches(ops[n], f, d) then Given(ops[n]) else SetAt(DoAll(r, before), f, d) {
        DoSets(DoAll(r, before), ops[n], f, d);
      }
    }
  }

  lemma ClearKeepsOnce(r: Registry, f: Fd, d: Dir, cb: Cb, fd: Fd, dir: Dir)
    requires OnlyOnceAt(r, cb, fd, dir)
    ensures var r' := Do(r, ClearCb(f, d));
      OnlyOnceAt(r', cb, fd, dir) && (Pending(r', cb, fd, dir) ==> Pending(r, cb, fd, dir) && !(f == fd && d == dir))
  {
    forall g, e ensures SetAt(Do(r, ClearCb(f, d)), g, e) == if g == f && e == d then None else SetAt(r, g, e) {
      DoSets(r, ClearCb(f, d), g, e);
    }
  }

  lemma {:induction false} EventKeepsOnce(o: Outcome, prog: Program, f: Fd, d: Dir, hit: bool, cb: Cb, fd: Fd, dir: Dir)
    requires OnlyOnceAt(o.reg, cb, fd, dir) && NeverSet(prog, cb)
    ensures var p := Fire(o, prog, f, d, hit); OnlyOnceAt(p.reg, cb, fd, dir) && Total(p, cb, fd, dir) <= Total(o, cb, fd, dir)
  {
    var c := SetAt(o.reg, f, d);
    if hit && c.Some? {
      if c.value.once {
        ClearKeepsOnce(o.reg, f, d, cb, fd, dir);
        RunKeepsOnce(o, prog, c.value.cb, Do(o.reg, ClearCb(f, d)), cb, fd, dir);
      } else {
        RunKeepsOnce(o, prog, c.value.cb, o.reg, cb, fd, dir);
      }
    }
  }

  /** Callback `c` runs with the registry `reg`, from which it is gone if it is `cb`. */
  lemma {:induction false} RunKeepsOnce(o: Outcome, prog: Program, c: Cb, reg: Registry, cb: Cb, fd: Fd, dir: Dir)
    requires OnlyOnceAt(reg, cb, fd, dir) && NeverSet(prog, cb) && (Pending(reg, cb, fd, dir) ==> Pending(o.reg, cb, fd, dir))
    requires c == cb ==> Pending(o.reg, cb, fd, dir) && !Pending(reg, cb, fd, dir)
    ensures var p := Outcome(DoAll(reg, Body(prog, c)), o.ran + [c]);
      OnlyOnceAt(p.reg, cb, fd, dir) && Total(p, cb, fd, dir) <= Total(o, cb, fd, dir)
  {
    CallsKeepOnce(reg, Body(prog, c), cb, fd, dir);
    RunsSnoc(o.ran, c, cb);
  }

  /** A callback that is set to run once, and that nobody sets again, runs at most once,
      however many rounds there are and whatever the other callbacks do. */
  lemma {:induction false} RunsAtMostOnce(o: Outcome, prog: Program, polled: seq<PollFd>, cb: Cb, fd: Fd, dir: Dir)
    requires OnlyOnceAt(o.reg, cb, fd, dir) && NeverSet(prog, cb)
    ensures var p := ServeAll(o, prog, polled); OnlyOnceAt(p.reg, cb, fd, dir) && Total(p, cb, fd, dir) <= Total(o, cb, fd, dir)
    decreases |polled|
  {
    if polled != [] {
      var n := |polled| - 1;
      RunsAtMostOnce(o, prog, polled[..n], cb, fd, dir);
      var p, e := ServeAll(o, prog, polled[..n]), polled[n];
      EventKeepsOnce(p, prog, e.fd, Read, e.revents.readable || e.revents.error, cb, fd, dir);
      EventKeepsOnce(Fire(p, prog, e.fd, Read, e.revents.readable || e.revents.error), prog, e.fd, Write,
        e.revents.writable || e.revents.error, cb, fd, dir);
    }
  }

  // ----- callbacks that leave the table alone ----------------------------------------------

  /** The callback for an event, as a list. */
  function Hit(r: Registry, fd: Fd, dir: Dir, hit: bool): seq<Cb> {
    if hit && SetAt(r, fd, dir).Some? then [SetAt(r, fd, dir).value.cb] else []
  }

  /** The callbacks of the reported events, entry by entry, Read before Write. */
  function Hits(r: Registry, polled: seq<PollFd>): seq<Cb> {
    if polled == [] then []
    else
      var e := polled[|polled| - 1];
      Hits(r, polled[..|polled| - 1])
      + (Hit(r, e.fd, Read, e.revents.readable || e.revents.error) + Hit(r, e.fd, Write, e.revents.writable || e.revents.error))
  }

  /** An event was reported for the descriptor and direction. */
  predicate Reported(polled: seq<PollFd>, fd: Fd, dir: Dir) {
    exists i :: 0 <= i < |polled| && polled[i].fd == fd
      && (polled[i].revents.error || if dir.Read? then polled[i].revents.readable else polled[i].revents.writable)
  }

  predicate Distinct(polled: seq<PollFd>) {
    forall i, j :: 0 <= i < j < |polled| ==> polled[i].fd != polled[j].fd
  }

  /** What is still set after a round: all but what ran and runs only once. */
  ghost predicate LeftAfter(r: Registry, polled: seq<PollFd>, after: Registry) {
    forall fd, dir :: SetAt(after, fd, dir) ==
      if Reported(polled, fd, dir) && SetAt(r, fd, dir).Some? && SetAt(r, fd, dir).value.once then None else SetAt(r, fd, dir)
  }

  lemma {:induction false} QuietFire(o: Outcome, fd: Fd, dir: Dir, hit: bool, f: Fd, d: Dir)
    ensures var p := Fire(o, map[], fd, dir, hit);
      && p.ran == o.ran + Hit(o.reg, fd, dir, hit)
      && SetAt(p.reg, f, d) ==
        if hit && f == fd && d == dir && SetAt(o.reg, fd, dir).Some? && SetAt(o.reg, fd, dir).value.once then None
        else SetAt(o.reg, f, d)
  {
    DoSets(o.reg, ClearCb(fd, dir), f, d);
  }

  lemma ReportedMore(polled: seq<PollFd>, e: PollFd, fd: Fd, dir: Dir)
    ensures Reported(polled + [e], fd, dir) <==>
      Reported(polled, fd, dir) || (e.fd == fd && (e.revents.error || if dir.Read? then e.revents.readable else e.revents.writable))
  {
    var more := polled + [e];
    if Reported(polled, fd, dir) {
      var i :| 0 <= i < |polled| && polled[i].fd == fd
        && (polled[i].revents.error || if dir.Read? then polled[i].revents.readable else polled[i].revents.writable);
      assert more[i] == polled[i];
    }
    assert more[|polled|] == e;
  }

  lemma {:induction false} QuietServe(o: Outcome, e: PollFd, f: Fd, d: Dir)
    ensures var p := Serve(o, map[], e.fd, e.revents);
      && p.ran == o.ran
        + (Hit(o.reg, e.fd, Read, e.revents.readable || e.revents.error) + Hit(o.reg, e.fd, Write, e.revents.writable || e.revents.error))
      && SetAt(p.reg, f, d) ==
        if e.fd == f && (e.revents.error || if d.Read? then e.revents.readable else e.revents.writable)
           && SetAt(o.reg, f, d).Some? && SetAt(o.reg, f, d).value.once then None
        else SetAt(o.reg, f, d)
  {
    var r, w := e.revents.readable || e.revents.error, e.revents.writable || e.revents.error;
    var q := Fire(o, map[], e.fd, Read, r);
    QuietFire(o, e.fd, Read, r, f, d);
    QuietFire(o, e.fd, Read, r, e.fd, Write);
    QuietFire(q, e.fd, Write, w, f, d);
  }

  lemma {:induction false} QuietLeft(r: Registry, before: seq<PollFd>, e: PollFd, p: Outcome)
    requires LeftAfter(r, before, p.reg)
    ensures LeftAfter(r, before + [e], Serve(p, map[], e.fd, e.revents).reg)
  {
    forall f, d ensures SetAt(Serve(p, map[], e.fd, e.revents).reg, f, d) ==
        if Reported(before + [e], f, d) && SetAt(r, f, d).Some? && SetAt(r, f, d).value.once then None else SetAt(r, f, d)
    {
      QuietServe(p, e, f, d);
      ReportedMore(before, e, f, d);
    }
  }

  lemma {:induction false} HitsMore(r: Registry, before: seq<PollFd>, e: PollFd)
    ensures Hits(r, before + [e]) == Hits(r, before)
      + (Hit(r, e.fd, Read, e.revents.readable || e.revents.error) + Hit(r, e.fd, Write, e.revents.writable || e.revents.error))
  {
    assert (before + [e])[..|before|] == before;
  }

  lemma {:induction false} ServeMore(o: Outcome, before: seq<PollFd>, e: PollFd)
    ensures ServeAll(o, map[], before + [e]) == Serve(ServeAll(o, map[], before), map[], e.fd, e.revents)
  {
    assert (before + [e])[..|before|] == before;
  }

  lemma {:induction false} QuietNext(o: Outcome, before: seq<PollFd>, e: PollFd, p: Outcome)
    requires p.ran == o.ran + Hits(o.reg, before) && LeftAfter(o.reg, before, p.reg)
    requires !Reported(before, e.fd, Read) && !Reported(before, e.fd, Write)
    ensures Serve(p, map[], e.fd, e.revents).ran == o.ran + Hits(o.reg, before + [e])
  {
    QuietServe(p, e, e.fd, Read);
    HitsMore(o.reg, before, e);
    assert SetAt(p.reg, e.fd, Read) == SetAt(o.reg, e.fd, Read) && SetAt(p.reg, e.fd, Write) == SetAt(o.reg, e.fd, Write);
  }

  /** A round whose callbacks leave the table alone runs exactly the callbacks set for the
      reported events, entry by entry with Read before Write, and afterwards those that run
      only once and have run are gone. */
  lemma {:induction false} QuietRound(o: Outcome, polled: seq<PollFd>)
    requires Distinct(polled)
    ensures var p := ServeAll(o, map[], polled); p.ran == o.ran + Hits(o.reg, polled) && LeftAfter(o.reg, polled, p.reg)
    decreases |polled|
  {
    if polled == [] {
      assert o.ran + [] == o.ran;
    } else {
      var n := |polled| - 1;
      var before, e := polled[..n], polled[n];
      assert polled == before + [e];
      QuietRound(o, before);
      NotReported(before, e.fd, polled);
      ServeMore(o, before, e);
      QuietNext(o, before, e, ServeAll(o, map[], before));
      QuietLeft(o.reg, before, e, ServeAll(o, map[], before));
    }
  }

  lemma NotReported(before: seq<PollFd>, fd: Fd, polled: seq<PollFd>)
    requires polled != [] && Distinct(polled) && before == polled[..|polled| - 1] && fd == polled[|polled| - 1].fd
    ensures !Reported(before, fd, Read) && !Reported(before, fd, Write)
  {
  }

  /** The entries of a table have distinct descriptors. */
  lemma AgreeIsDistinct(pollfds: seq<PollFd>, state: map<Fd, FdState>)
    requires Agree(pollfds, state)
    ensures Distinct(pollfds)
  {
    forall i, j | 0 <= i < j < |pollfds| ensures pollfds[i].fd != pollfds[j].fd {
      assert EntryOk(pollfds, state, i) && EntryOk(pollfds, state, j);
    }
  }
}

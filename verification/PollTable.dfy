/**
 The descriptor table of pollset (xdrpp/pollset.cc): the vector `pollfds_` handed
 to poll(2), the index `state_` with the callbacks, dispatch while callbacks add
 and remove descriptors, and compaction.
 */
module PollTable {
  import opened Options

  type Fd = nat
  type Cb = nat

  datatype Dir = Read | Write

  /** An entry of pollfds_: requested events, and what poll(2) reported. */
  datatype PollFd = PollFd(fd: Fd, pollin: bool, pollout: bool, revents: Ready)
  datatype Ready = Ready(readable: bool, writable: bool, error: bool)

  const NOTHING := Ready(false, false, false)

  /** A registered callback and whether it runs only once. */
  datatype Reg = Reg(cb: Cb, once: bool)

  datatype FdState = FdState(rcb: Option<Reg>, wcb: Option<Reg>, idx: nat)

  predicate Active(p: PollFd) { p.pollin || p.pollout }

  /** Entry `i` and the state of its descriptor refer to each other, and the event
      bits are set exactly for the callbacks that are. */
  ghost predicate EntryOk(pollfds: seq<PollFd>, state: map<Fd, FdState>, i: nat)
    requires i < |pollfds|
  {
    var p := pollfds[i];
    && p.fd in state && state[p.fd].idx == i
    && p.pollin == state[p.fd].rcb.Some? && p.pollout == state[p.fd].wcb.Some?
  }

  ghost predicate StateOk(pollfds: seq<PollFd>, state: map<Fd, FdState>, fd: Fd)
    requires fd in state
  {
    state[fd].idx < |pollfds| && pollfds[state[fd].idx].fd == fd
  }

  /** The vector and the index are in bijection. */
  ghost predicate Agree(pollfds: seq<PollFd>, state: map<Fd, FdState>) {
    && (forall i :: 0 <= i < |pollfds| ==> EntryOk(pollfds, state, i))
    && (forall fd :: fd in state ==> StateOk(pollfds, state, fd))
  }

  // ----- the abstract registry ------------------------------------------------

  /** What the user of a pollset sees: the callbacks that are set. */
  datatype Registry = Registry(readers: map<Fd, Reg>, writers: map<Fd, Reg>) {
    function Of(dir: Dir): map<Fd, Reg> { if dir.Read? then readers else writers }
    function With(dir: Dir, m: map<Fd, Reg>): Registry { if dir.Read? then this.(readers := m) else this.(writers := m) }
  }

  ghost function RegistryOf(state: map<Fd, FdState>): Registry {
    Registry(map fd | fd in state && state[fd].rcb.Some? :: state[fd].rcb.value,
             map fd | fd in state && state[fd].wcb.Some? :: state[fd].wcb.value)
  }

  /** fd_cb, with a callback or with the null pointer. */
  datatype Op = SetCb(fd: Fd, dir: Dir, reg: Reg) | ClearCb(fd: Fd, dir: Dir)

  function Do(r: Registry, op: Op): Registry {
    match op
    case SetCb(fd, dir, reg) => r.With(dir, r.Of(dir)[fd := reg])
    case ClearCb(fd, dir) => r.With(dir, r.Of(dir) - {fd})
  }

  function DoAll(r: Registry, ops: seq<Op>): Registry {
    if ops == [] then r else Do(DoAll(r, ops[..|ops| - 1]), ops[|ops| - 1])
  }

  // ----- registering ----------------------------------------------------------

  function Callback(s: FdState, dir: Dir): Option<Reg> { if dir.Read? then s.rcb else s.wcb }

  function WithCallback(s: FdState, dir: Dir, r: Option<Reg>): FdState {
    if dir.Read? then s.(rcb := r) else s.(wcb := r)
  }

  function WithEvent(p: PollFd, dir: Dir, on: bool): PollFd {
    if dir.Read? then p.(pollin := on) else p.(pollout := on)
  }

  lemma UpdateAgrees(pollfds: seq<PollFd>, state: map<Fd, FdState>, fd: Fd, dir: Dir, r: Option<Reg>)
    requires Agree(pollfds, state) && fd in state
    ensures state[fd].idx < |pollfds|
    ensures var i := state[fd].idx;
      Agree(pollfds[i := WithEvent(pollfds[i], dir, r.Some?)], state[fd := WithCallback(state[fd], dir, r)])
  {
    assert StateOk(pollfds, state, fd);
    var i := state[fd].idx;
    assert EntryOk(pollfds, state, i);
    var p', s' := pollfds[i := WithEvent(pollfds[i], dir, r.Some?)], state[fd := WithCallback(state[fd], dir, r)];
    forall j | 0 <= j < |p'| ensures EntryOk(p', s', j) { assert EntryOk(pollfds, state, j); }
    forall f | f in s' ensures StateOk(p', s', f) { assert StateOk(pollfds, state, f); }
  }

  lemma AppendAgrees(pollfds: seq<PollFd>, state: map<Fd, FdState>, fd: Fd)
    requires Agree(pollfds, state) && fd !in state
    ensures Agree(pollfds + [PollFd(fd, false, false, NOTHING)], state[fd := FdState(None, None, |pollfds|)])
  {
    var p', s' := pollfds + [PollFd(fd, false, false, NOTHING)], state[fd := FdState(None, None, |pollfds|)];
    forall j | 0 <= j < |p'| ensures EntryOk(p', s', j) {
      if j < |pollfds| { assert EntryOk(pollfds, state, j); }
    }
    forall f | f in s' ensures StateOk(p', s', f) {
      if f != fd { assert StateOk(pollfds, state, f); }
    }
  }

  lemma UpdateRegistry(state: map<Fd, FdState>, fd: Fd, dir: Dir, r: Option<Reg>)
    requires fd in state
    ensures RegistryOf(state[fd := WithCallback(state[fd], dir, r)])
         == Do(RegistryOf(state), if r.Some? then SetCb(fd, dir, r.value) else ClearCb(fd, dir))
  {
  }

  lemma AppendRegistry(state: map<Fd, FdState>, fd: Fd, idx: nat)
    requires fd !in state
    ensures RegistryOf(state[fd := FdState(None, None, idx)]) == RegistryOf(state)
  {
  }

  lemma ClearAbsent(state: map<Fd, FdState>, fd: Fd, dir: Dir)
    requires fd !in state
    ensures Do(RegistryOf(state), ClearCb(fd, dir)) == RegistryOf(state)
  {
    assert RegistryOf(state).Of(dir) - {fd} == RegistryOf(state).Of(dir);
  }

  // ----- compaction -----------------------------------------------------------

  lemma DropAgrees(pollfds: seq<PollFd>, state: map<Fd, FdState>)
    requires Agree(pollfds, state) && pollfds != [] && !Active(pollfds[|pollfds| - 1])
    ensures var n := |pollfds| - 1; var fd := pollfds[n].fd;
      && fd in state && state[fd].rcb.None? && state[fd].wcb.None?
      && Agree(pollfds[..n], state - {fd})
      && RegistryOf(state - {fd}) == RegistryOf(state)
  {
    var n := |pollfds| - 1;
    var fd := pollfds[n].fd;
    assert EntryOk(pollfds, state, n);
    var p', s' := pollfds[..n], state - {fd};
    forall j | 0 <= j < n ensures EntryOk(p', s', j) { assert EntryOk(pollfds, state, j); }
    forall f | f in s' ensures StateOk(p', s', f) { assert StateOk(pollfds, state, f); }
  }

  /** An inactive entry `i` is overwritten by the last one. */
  lemma MoveAgrees(pollfds: seq<PollFd>, state: map<Fd, FdState>, i: nat)
    requires Agree(pollfds, state) && i < |pollfds| - 1 && !Active(pollfds[i])
    ensures var n, fd, last := |pollfds| - 1, pollfds[i].fd, pollfds[|pollfds| - 1];
      && fd in state && state[fd].rcb.None? && state[fd].wcb.None?
      && last.fd in state && last.fd != fd
      && Agree(pollfds[i := last][..n], (state - {fd})[last.fd := state[last.fd].(idx := i)])
      && RegistryOf((state - {fd})[last.fd := state[last.fd].(idx := i)]) == RegistryOf(state)
  {
    var n, fd, last := |pollfds| - 1, pollfds[i].fd, pollfds[|pollfds| - 1];
    assert EntryOk(pollfds, state, i) && EntryOk(pollfds, state, n);
    var p', s' := pollfds[i := last][..n], (state - {fd})[last.fd := state[last.fd].(idx := i)];
    forall j | 0 <= j < n ensures EntryOk(p', s', j) { assert EntryOk(pollfds, state, j); }
    forall f | f in s' ensures StateOk(p', s', f) { assert StateOk(pollfds, state, f); }
    MoveRegistry(state, fd, last.fd, i);
  }

  /** Dropping a state without callbacks and renumbering another changes no callback. */
  lemma MoveRegistry(state: map<Fd, FdState>, fd: Fd, other: Fd, i: nat)
    requires fd in state && state[fd].rcb.None? && state[fd].wcb.None? && other in state && other != fd
    ensures RegistryOf((state - {fd})[other := state[other].(idx := i)]) == RegistryOf(state)
  {
  }

  // ----- what a round of poll does to the registry ----------------------------

  /** What each callback does when it runs: a sequence of fd_cb calls. */
  type Program = map<Cb, seq<Op>>

  datatype Outcome = Outcome(reg: Registry, ran: seq<Cb>)

  function Body(prog: Program, cb: Cb): seq<Op> { if cb in prog then prog[cb] else [] }

  /** The callback of `fd`, if it is set by the time its turn comes, runs; one that
      runs only once is removed first. */
  function Fire(o: Outcome, prog: Program, fd: Fd, dir: Dir, hit: bool): Outcome {
    if !hit || fd !in o.reg.Of(dir) then o
    else
      var g := o.reg.Of(dir)[fd];
      var reg := if g.once then Do(o.reg, ClearCb(fd, dir)) else o.reg;
      Outcome(DoAll(reg, Body(prog, g.cb)), o.ran + [g.cb])
  }

  /** A descriptor that poll(2) reported: first its Read callback, then its Write one. */
  function Serve(o: Outcome, prog: Program, fd: Fd, r: Ready): Outcome {
    Fire(Fire(o, prog, fd, Read, r.readable || r.error), prog, fd, Write, r.writable || r.error)
  }

  /** All the entries that were in the vector when poll(2) was called, in order. */
  function ServeAll(o: Outcome, prog: Program, polled: seq<PollFd>): Outcome {
    if polled == [] then o
    else Serve(ServeAll(o, prog, polled[..|polled| - 1]), prog, polled[|polled| - 1].fd, polled[|polled| - 1].revents)
  }

  /** The return value of poll(2). */
  function CountReady(polled: seq<PollFd>): nat {
    if polled == [] then 0 else (if polled[0].revents == NOTHING then 0 else 1) + CountReady(polled[1..])
  }

  lemma {:induction false} NextEntry(o: Outcome, prog: Program, polled: seq<PollFd>, i: nat)
    requires i < |polled|
    ensures ServeAll(o, prog, polled[..i + 1])
      == Serve(ServeAll(o, prog, polled[..i]), prog, polled[i].fd, polled[i].revents)
    ensures CountReady(polled[i..]) == (if polled[i].revents == NOTHING then 0 else 1) + CountReady(polled[i + 1..])
  {
    assert polled[..i + 1][..i] == polled[..i];
    assert polled[i..][1..] == polled[i + 1..];
  }

  /** Callbacks may append entries but leave the polled ones in place. */
  ghost predicate Grown(before: seq<PollFd>, after: seq<PollFd>) {
    && |before| <= |after|
    && forall i :: 0 <= i < |before| ==> after[i].fd == before[i].fd && after[i].revents == before[i].revents
  }

  class PollSet {
    var pollfds: seq<PollFd>
    var state: map<Fd, FdState>
    var ran: seq<Cb>   // callbacks run so far

    ghost predicate Valid()
      reads this
    {
      Agree(pollfds, state)
    }

    ghost function Registered(): Registry
      reads this
    {
      RegistryOf(state)
    }

    constructor ()
      ensures Valid() && Registered() == Registry(map[], map[]) && ran == []
    {
      pollfds, state, ran := [], map[], [];
    }

    /** fd_cb with a callback; a descriptor new to the table gets the last entry. */
    method Set(fd: Fd, dir: Dir, reg: Reg)
      requires Valid()
      modifies `pollfds, `state
      ensures Valid() && Registered() == Do(old(Registered()), SetCb(fd, dir, reg))
      ensures Grown(old(pollfds), pollfds)
    {
      if fd !in state {
        AppendAgrees(pollfds, state, fd);
        AppendRegistry(state, fd, |pollfds|);
        state := state[fd := FdState(None, None, |pollfds|)];
        pollfds := pollfds + [PollFd(fd, false, false, NOTHING)];
      }
      UpdateAgrees(pollfds, state, fd, dir, Some(reg));
      UpdateRegistry(state, fd, dir, Some(reg));
      var i := state[fd].idx;
      pollfds := pollfds[i := WithEvent(pollfds[i], dir, true)];
      state := state[fd := WithCallback(state[fd], dir, Some(reg))];
    }

    /** fd_cb with the null pointer: the entry stays until the table is compacted. */
    method Clear(fd: Fd, dir: Dir)
      requires Valid()
      modifies `pollfds, `state
      ensures Valid() && Registered() == Do(old(Registered()), ClearCb(fd, dir))
      ensures Grown(old(pollfds), pollfds)
    {
      if fd !in state {
        ClearAbsent(state, fd, dir);
        return;
      }
      UpdateAgrees(pollfds, state, fd, dir, None);
      UpdateRegistry(state, fd, dir, None);
      var i := state[fd].idx;
      pollfds := pollfds[i := WithEvent(pollfds[i], dir, false)];
      state := state[fd := WithCallback(state[fd], dir, None)];
    }

    /** A callback runs. */
    method Invoke(cb: Cb, prog: Program)
      requires Valid()
      modifies this
      ensures Valid() && Registered() == DoAll(old(Registered()), Body(prog, cb)) && ran == old(ran) + [cb]
      ensures Grown(old(pollfds), pollfds)
    {
      ran := ran + [cb];
      var ops := Body(prog, cb);
      var k := 0;
      while k < |ops|
        invariant 0 <= k <= |ops| && Valid() && ran == old(ran) + [cb]
        invariant Registered() == DoAll(old(Registered()), ops[..k])
        invariant Grown(old(pollfds), pollfds)
      {
        assert ops[..k + 1][..k] == ops[..k];
        match ops[k] {
          case SetCb(fd, dir, reg) => Set(fd, dir, reg);
          case ClearCb(fd, dir) => Clear(fd, dir);
        }
        k := k + 1;
      }
      assert ops[..k] == ops;
    }

    /** consolidate: inactive entries leave the table, active ones keep their callbacks.
        A state that is erased has no callback left, as its destructor asserts. */
    method Consolidate()
      requires Valid()
      modifies `pollfds, `state
      ensures Valid() && Registered() == old(Registered())
      ensures forall i :: 0 <= i < |pollfds| ==> Active(pollfds[i])
    {
      while pollfds != [] && !Active(pollfds[|pollfds| - 1])
        invariant Valid() && Registered() == old(Registered())
        decreases |pollfds|
      {
        DropAgrees(pollfds, state);
        var fd := pollfds[|pollfds| - 1].fd;
        assert state[fd].rcb.None? && state[fd].wcb.None?;
        state := state - {fd};
        pollfds := pollfds[..|pollfds| - 1];
      }
      var i := |pollfds|;
      if i < 2 {
        return;
      }
      i := i - 2;
      while i >= 0
        invariant -1 <= i <= |pollfds| - 2 && Valid() && Registered() == old(Registered())
        invariant forall j :: i < j < |pollfds| ==> Active(pollfds[j])
        decreases i
      {
        if !Active(pollfds[i]) {
          MoveAgrees(pollfds, state, i);
          var fd, last := pollfds[i].fd, pollfds[|pollfds| - 1];
          assert state[fd].rcb.None? && state[fd].wcb.None?;
          state := state - {fd};
          pollfds := pollfds[i := last];
          state := state[last.fd := state[last.fd].(idx := i)];
          pollfds := pollfds[..|pollfds| - 1];
        }
        i := i - 1;
      }
    }
 
    /** One of the two halves of the dispatch loop's body. */
    method FireEntry(i: nat, dir: Dir, hit: bool, prog: Program)
      requires Valid() && i < |pollfds|
      modifies this
      ensures Valid() && Grown(old(pollfds), pollfds)
      ensures Outcome(Registered(), ran) == Fire(old(Outcome(Registered(), ran)), prog, old(pollfds[i].fd), dir, hit)
    {
      assert EntryOk(pollfds, state, i);
      var fd := pollfds[i].fd;
      var c := Callback(state[fd], dir);
      RegistryAt(state, fd, dir);
      if hit && c.Some? {
        if c.value.once {
          Clear(fd, dir);
        }
        Invoke(c.value.cb, prog);
      }
    }

    /** The body of the dispatch loop. */
    method ServeEntry(i: nat, prog: Program)
      requires Valid() && i < |pollfds|
      modifies this
      ensures Valid() && Grown(old(pollfds), pollfds)
      ensures Outcome(Registered(), ran)
        == Serve(old(Outcome(Registered(), ran)), prog, old(pollfds[i].fd), old(pollfds[i].revents))
    {
      var revents := pollfds[i].revents;
      FireEntry(i, Read, revents.readable || revents.error, prog);
      FireEntry(i, Write, revents.writable || revents.error, prog);
    }

    /** The dispatch loop.  It stops once it has met as many reported entries as poll(2)
        counted, which skips none; every lookup in the index succeeds although the
        callbacks change the table. */
    method Dispatch(prog: Program)
      requires Valid()
      modifies this
      ensures Valid()
      ensures Outcome(Registered(), ran) == ServeAll(old(Outcome(Registered(), ran)), prog, old(pollfds))
    {
      ghost var start, polled := Outcome(Registered(), ran), pollfds;
      var r, maxpoll := CountReady(pollfds), |pollfds|;
      var i := 0;
      while r > 0 && i < maxpoll
        invariant 0 <= i <= maxpoll == |polled| && Valid() && Grown(polled, pollfds)
        invariant r == CountReady(polled[i..])
        invariant Outcome(Registered(), ran) == ServeAll(start, prog, polled[..i])
      {
        var revents := pollfds[i].revents;
        if revents != NOTHING {
          r := r - 1;
        }
        NextEntry(start, prog, polled, i);
        ServeEntry(i, prog);
        i := i + 1;
      }
      NothingLeft(start, prog, polled, i);
    }

    /** A round of poll, without timeouts and signals: poll(2) reports `ready`. */
    method Poll(ready: seq<Ready>, prog: Program)
      requires Valid() && |ready| == |pollfds|
      modifies this
      ensures Valid() && forall i :: 0 <= i < |pollfds| ==> Active(pollfds[i])
      ensures Outcome(Registered(), ran) == ServeAll(old(Outcome(Registered(), ran)), prog, old(Reported(pollfds, ready)))
    {
      ReportAgrees(pollfds, state, ready);
      pollfds := Reported(pollfds, ready);
      Dispatch(prog);
      Consolidate();
    }
  }

  lemma RegistryAt(state: map<Fd, FdState>, fd: Fd, dir: Dir)
    requires fd in state
    ensures fd in RegistryOf(state).Of(dir) <==> Callback(state[fd], dir).Some?
    ensures fd in RegistryOf(state).Of(dir) ==> RegistryOf(state).Of(dir)[fd] == Callback(state[fd], dir).value
  {
  }

  function Reported(pollfds: seq<PollFd>, ready: seq<Ready>): seq<PollFd>
    requires |ready| == |pollfds|
  {
    seq(|pollfds|, i requires 0 <= i < |pollfds| => pollfds[i].(revents := ready[i]))
  }

  lemma ReportAgrees(pollfds: seq<PollFd>, state: map<Fd, FdState>, ready: seq<Ready>)
    requires |ready| == |pollfds| && Agree(pollfds, state)
    ensures Agree(Reported(pollfds, ready), state)
  {
    var p' := Reported(pollfds, ready);
    forall i | 0 <= i < |p'| ensures EntryOk(p', state, i) { assert EntryOk(pollfds, state, i); }
    forall fd | fd in state ensures StateOk(p', state, fd) { assert StateOk(pollfds, state, fd); }
  }

  /** Entries with nothing reported are not served. */
  lemma {:induction false} NothingLeft(o: Outcome, prog: Program, polled: seq<PollFd>, i: nat)
    requires i <= |polled| && CountReady(polled[i..]) == 0
    ensures ServeAll(o, prog, polled) == ServeAll(o, prog, polled[..i])
    decreases |polled| - i
  {
    if i == |polled| {
      assert polled[..i] == polled;
    } else {
      assert polled[i..][1..] == polled[i + 1..];
      NothingLeft(o, prog, polled, i + 1);
      assert polled[..i + 1][..i] == polled[..i];
      assert polled[i..][0] == polled[i];
    }
  }
}

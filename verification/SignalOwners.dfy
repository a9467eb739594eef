/**
 Who owns a signal, told from the steps of a run alone (xdrpp/pollset.cc: signal_cb and
 erase_signal_cb).
 */
module SignalOwners {
  import opened Options
  import opened Signals

  /** Step `i` registers a callback of pollset `ps` for `sig`. */
  predicate Registers(acts: seq<Action>, i: int, ps: Ps, sig: Sig)
    requires 0 <= i < |acts|
  {
    acts[i] == ByOwner(Register(ps, sig))
  }

  /** Step `i` registers or removes the callback of `sig`. */
  predicate Touches(acts: seq<Action>, i: int, sig: Sig)
    requires 0 <= i < |acts|
  {
    acts[i].ByOwner? && Names(acts[i].o, sig)
  }

  predicate Names(o: OwnerAction, sig: Sig) {
    (o.Register? && o.sig == sig) || o == Erase(sig)
  }

  /** Step `i` is the last that touches `sig`, and registers it for `ps`. */
  ghost predicate LastRegistered(acts: seq<Action>, i: int, ps: Ps, sig: Sig)
    requires 0 <= i < |acts|
  {
    Registers(acts, i, ps, sig) && forall j :: i < j < |acts| ==> !Touches(acts, j, sig)
  }

  ghost predicate RegisteredBy(acts: seq<Action>, ps: Ps, sig: Sig) {
    exists i :: 0 <= i < |acts| && LastRegistered(acts, i, ps, sig)
  }

  ghost predicate EverRegistered(acts: seq<Action>, sig: Sig) {
    exists i, ps :: 0 <= i < |acts| && Registers(acts, i, ps, sig)
  }

  lemma LastOfMore(acts: seq<Action>, a: Action, ps: Ps, sig: Sig)
    ensures RegisteredBy(acts + [a], ps, sig) <==>
      if a == ByOwner(Register(ps, sig)) then true
      else !Touches([a], 0, sig) && RegisteredBy(acts, ps, sig)
  {
    var more, n := acts + [a], |acts|;
    if a == ByOwner(Register(ps, sig)) {
      assert LastRegistered(more, n, ps, sig);
    } else {
      if RegisteredBy(more, ps, sig) {
        var i :| 0 <= i < |more| && LastRegistered(more, i, ps, sig);
        assert i < n && !Touches(more, n, sig);
        forall j | i < j < n ensures !Touches(acts, j, sig) {
          assert !Touches(more, j, sig);
        }
        assert LastRegistered(acts, i, ps, sig);
      }
      if RegisteredBy(acts, ps, sig) && !Touches([a], 0, sig) {
        var i :| 0 <= i < |acts| && LastRegistered(acts, i, ps, sig);
        forall j | i < j < |more| ensures !Touches(more, j, sig) {
          if j < n {
            assert !Touches(acts, j, sig);
          }
        }
        assert LastRegistered(more, i, ps, sig);
      }
    }
  }

  lemma EverOfMore(acts: seq<Action>, a: Action, sig: Sig)
    ensures EverRegistered(acts + [a], sig) <==> EverRegistered(acts, sig) || (a.ByOwner? && a.o.Register? && a.o.sig == sig)
  {
    var more, n := acts + [a], |acts|;
    if EverRegistered(acts, sig) {
      var i, ps :| 0 <= i < |acts| && Registers(acts, i, ps, sig);
      assert Registers(more, i, ps, sig);
    }
    if a.ByOwner? && a.o.Register? && a.o.sig == sig {
      assert Registers(more, n, a.o.ps, sig);
    }
    if EverRegistered(more, sig) {
      var i, ps :| 0 <= i < |more| && Registers(more, i, ps, sig);
      if i < n {
        assert Registers(acts, i, ps, sig);
      }
    }
  }

  /** Only signal_cb and erase_signal_cb change owners or install the handler. */
  lemma HandlerOwners(d: Discipline, s: State, h: HandlerAction)
    requires HandlerEnabled(d, s, h)
    ensures HandlerStep(d, s, h).owners == s.owners && HandlerStep(d, s, h).installed == s.installed
  {
    match h
    case Start(_, _) =>
    case Publish(_) =>
    case ReadOwner(_) =>
    case Wake(_) =>
    case Finish(_) =>
  }

  lemma PollOwners(s: State, ps: Ps, p: PollAction)
    requires PollEnabled(s, ps, p)
    ensures PollStep(s, ps, p).owners == s.owners && PollStep(s, ps, p).installed == s.installed
  {
    match p
    case BeginDrain =>
    case SkipDrain =>
    case Read(_) =>
    case Empty =>
    case NoSignal =>
    case BeginScan =>
    case ScanOne(_) =>
    case ScanDone =>
  }

  lemma ServeOwners(s: State, ps: Ps, v: ServeAction)
    requires ServeEnabled(s, ps, v)
    ensures ServeStep(s, ps, v).owners == s.owners && ServeStep(s, ps, v).installed == s.installed
  {
    match v
    case SkipStolen(_) =>
    case SeeEven(_) =>
    case ClearFlag =>
    case Return =>
    case EndRound =>
  }

  lemma DoneOwners(s: State)
    requires OwnerEnabled(s, EraseDone)
    ensures OwnerStep(s, EraseDone).owners == s.owners && OwnerStep(s, EraseDone).installed == s.installed
  {
    FinishOwners(s, s.lock.sig);
  }

  lemma FinishOwners(s: State, sig: Sig)
    ensures FinishErase(s, sig).owners == s.owners && FinishErase(s, sig).installed == s.installed
  {
    if s.Flag(sig).Clear? {
    } else {
    }
  }

  lemma TestingOwners(s: State, o: OwnerAction)
    requires OwnerEnabled(s, o) && !o.Register? && !o.Erase?
    ensures OwnerStep(s, o).owners == s.owners && OwnerStep(s, o).installed == s.installed
  {
    if o.EraseDone? {
      DoneOwners(s);
    } else if o.Notify? {
    } else {
    }
  }

  lemma RegisterOwners(s: State, q: Ps, x: Sig, ps: Ps, sig: Sig)
    requires OwnerEnabled(s, Register(q, x))
    ensures OwnerStep(s, Register(q, x)).Owns(ps, sig) <==> if x == sig then q == ps else s.Owns(ps, sig)
  {
  }

  lemma EraseOwners(s: State, x: Sig, ps: Ps, sig: Sig)
    requires OwnerEnabled(s, Erase(x))
    ensures OwnerStep(s, Erase(x)).Owns(ps, sig) <==> x != sig && s.Owns(ps, sig)
  {
  }

  /** What they do to them. */
  lemma OwnerOwners(s: State, o: OwnerAction, ps: Ps, sig: Sig)
    requires OwnerEnabled(s, o)
    ensures OwnerStep(s, o).Owns(ps, sig) <==> o == Register(ps, sig) || (!Names(o, sig) && s.Owns(ps, sig))
  {
    if o.Register? {
      RegisterOwners(s, o.ps, o.sig, ps, sig);
    } else if o.Erase? {
      EraseOwners(s, o.sig, ps, sig);
    } else {
      TestingOwners(s, o);
    }
  }

  lemma OwnerInstalled(s: State, o: OwnerAction, sig: Sig)
    requires OwnerEnabled(s, o) && (sig in s.owners ==> sig in s.installed)
    ensures var s' := OwnerStep(s, o);
      && (sig in s'.installed <==> sig in s.installed || (o.Register? && o.sig == sig))
      && (sig in s'.owners ==> sig in s'.installed)
  {
    if !o.Register? && !o.Erase? {
      TestingOwners(s, o);
    } else if o.Register? {
    } else {
    }
  }

  /** What one step does to the owner of `sig`. */
  lemma StepOwner(d: Discipline, s: State, a: Action, ps: Ps, sig: Sig)
    requires Enabled(d, s, a)
    ensures Apply(d, s, a).Owns(ps, sig) <==>
      if a == ByOwner(Register(ps, sig)) then true
      else !Touches([a], 0, sig) && s.Owns(ps, sig)
  {
    match a
    case ByHandler(h) => HandlerOwners(d, s, h);
    case ByPoll(q, p) => PollOwners(s, q, p);
    case ByService(q, v) => ServeOwners(s, q, v);
    case ByOwner(o) => OwnerOwners(s, o, ps, sig);
  }

  /** What one step does to the signals whose handler is, or has been, installed, if the
      owned ones are among them. */
  lemma StepInstalled(d: Discipline, s: State, a: Action, sig: Sig)
    requires Enabled(d, s, a) && (sig in s.owners ==> sig in s.installed)
    ensures sig in Apply(d, s, a).installed <==> sig in s.installed || (a.ByOwner? && a.o.Register? && a.o.sig == sig)
    ensures sig in Apply(d, s, a).owners ==> sig in Apply(d, s, a).installed
  {
    match a
    case ByHandler(h) => HandlerOwners(d, s, h);
    case ByPoll(q, p) => PollOwners(s, q, p);
    case ByService(q, v) => ServeOwners(s, q, v);
    case ByOwner(o) => OwnerInstalled(s, o, sig);
  }

  /** In every run a pollset owns a signal exactly when it is the last that registered a
      callback for it and no removal came after: a registration takes the signal from
      whoever had it, and a removal from whoever has it. */
  lemma {:induction false} OwnerIsLastRegistrar(d: Discipline, acts: seq<Action>, ps: Ps, sig: Sig)
    requires Run(d, acts).Some?
    ensures Run(d, acts).value.Owns(ps, sig) <==> RegisteredBy(acts, ps, sig)
    decreases |acts|
  {
    if acts != [] {
      var before, a := acts[..|acts| - 1], acts[|acts| - 1];
      assert acts == before + [a];
      OwnerIsLastRegistrar(d, before, ps, sig);
      StepOwner(d, Run(d, before).value, a, ps, sig);
      LastOfMore(before, a, ps, sig);
    }
  }

  /** So a signal has an owner exactly when some registration has no removal after it. */
  lemma {:induction false} OwnedUnlessRemoved(d: Discipline, acts: seq<Action>, sig: Sig)
    requires Run(d, acts).Some?
    ensures sig in Run(d, acts).value.owners <==>
      exists i, ps :: 0 <= i < |acts| && Registers(acts, i, ps, sig) && forall j :: i < j < |acts| ==> acts[j] != ByOwner(Erase(sig))
  {
    var s := Run(d, acts).value;
    if sig in s.owners {
      var ps := s.owners[sig];
      OwnerIsLastRegistrar(d, acts, ps, sig);
      var i :| 0 <= i < |acts| && LastRegistered(acts, i, ps, sig);
      forall j | i < j < |acts| ensures acts[j] != ByOwner(Erase(sig)) {
        assert !Touches(acts, j, sig);
      }
      assert Registers(acts, i, ps, sig);
    }
    if i, ps :| 0 <= i < |acts| && Registers(acts, i, ps, sig) && forall j :: i < j < |acts| ==> acts[j] != ByOwner(Erase(sig)) {
      var k, q := LastFrom(acts, sig, i, ps);
      OwnerIsLastRegistrar(d, acts, q, sig);
    }
  }

  /** Of the registrations from `i` on, one is the last. */
  lemma {:induction false} LastFrom(acts: seq<Action>, sig: Sig, i: int, ps: Ps) returns (k: int, q: Ps)
    requires 0 <= i < |acts| && Registers(acts, i, ps, sig) && forall j :: i < j < |acts| ==> acts[j] != ByOwner(Erase(sig))
    ensures i <= k < |acts| && LastRegistered(acts, k, q, sig)
    decreases |acts| - i
  {
    if exists j :: i < j < |acts| && Touches(acts, j, sig) {
      var j :| i < j < |acts| && Touches(acts, j, sig);
      assert acts[j] != ByOwner(Erase(sig));
      assert Registers(acts, j, acts[j].o.ps, sig);
      k, q := LastFrom(acts, sig, j, acts[j].o.ps);
    } else {
      k, q := i, ps;
    }
  }

  /** A registration is possible whenever the lock is free, whoever owns the signal. */
  lemma RegistrationTakes(d: Discipline, acts: seq<Action>, ps: Ps, sig: Sig)
    requires Run(d, acts).Some? && Run(d, acts).value.lock.Free?
    ensures Run(d, acts + [ByOwner(Register(ps, sig))]).Some?
    ensures Run(d, acts + [ByOwner(Register(ps, sig))]).value.Owns(ps, sig)
  {
    var a := ByOwner(Register(ps, sig));
    Extend(d, acts, Run(d, acts).value, a);
    OwnerIsLastRegistrar(d, acts + [a], ps, sig);
    LastOfMore(acts, a, ps, sig);
  }

  /** The handler may be activated exactly for signals that were once registered. */
  lemma {:induction false} HandlerInstalled(d: Discipline, acts: seq<Action>, sig: Sig)
    requires Run(d, acts).Some?
    ensures sig in Run(d, acts).value.installed <==> EverRegistered(acts, sig)
    ensures sig in Run(d, acts).value.owners ==> sig in Run(d, acts).value.installed
    decreases |acts|
  {
    if acts != [] {
      var before, a := acts[..|acts| - 1], acts[|acts| - 1];
      assert acts == before + [a];
      HandlerInstalled(d, before, sig);
      StepInstalled(d, Run(d, before).value, a, sig);
      EverOfMore(before, a, sig);
    }
  }

  /** A pollset is about to clear the flag of a signal and run its callback only if its
      own registration is the last. */
  lemma {:induction false} OnlyOwnerServes(d: Discipline, acts: seq<Action>, ps: Ps, sig: Sig)
    requires Run(d, acts).Some? && ServeEnabled(Run(d, acts).value, ps, SeeEven(sig))
    ensures RegisteredBy(acts, ps, sig)
  {
    OwnerIsLastRegistrar(d, acts, ps, sig);
  }

  // ----- what a pollset remembers of its bytes ----------------------------------------------

  /** Step `i` reads a byte from the self-pipe of `ps`. */
  predicate ReadsByte(acts: seq<Action>, i: int, ps: Ps)
    requires 0 <= i < |acts|
  {
    acts[i].ByPoll? && acts[i].ps == ps && acts[i].p.Read?
  }

  /** `ps` has read a byte and not ended a round since. */
  ghost predicate ByteSinceRound(acts: seq<Action>, ps: Ps) {
    exists i :: 0 <= i < |acts| && ReadsByte(acts, i, ps) && forall j :: i < j < |acts| ==> acts[j] != ByService(ps, EndRound)
  }

  lemma ByteOfMore(acts: seq<Action>, a: Action, ps: Ps)
    ensures ByteSinceRound(acts + [a], ps) <==>
      ReadsByte([a], 0, ps) || (a != ByService(ps, EndRound) && ByteSinceRound(acts, ps))
  {
    var more, n := acts + [a], |acts|;
    if ReadsByte([a], 0, ps) {
      assert ReadsByte(more, n, ps);
    }
    if ByteSinceRound(more, ps) {
      var i :| 0 <= i < |more| && ReadsByte(more, i, ps) && forall j :: i < j < |more| ==> more[j] != ByService(ps, EndRound);
      if i < n {
        assert ReadsByte(acts, i, ps) && more[n] == a;
        assert forall j :: i < j < n ==> acts[j] == more[j];
      }
    }
    if a != ByService(ps, EndRound) && ByteSinceRound(acts, ps) {
      var i :| 0 <= i < |acts| && ReadsByte(acts, i, ps) && forall j :: i < j < |acts| ==> acts[j] != ByService(ps, EndRound);
      assert ReadsByte(more, i, ps);
      assert forall j :: i < j < |more| ==> more[j] == if j < n then acts[j] else a;
    }
  }

  lemma HandlerPending(d: Discipline, s: State, h: HandlerAction)
    requires HandlerEnabled(d, s, h)
    ensures HandlerStep(d, s, h).pending == s.pending
  {
    match h
    case Start(_, _) =>
    case Publish(_) =>
    case ReadOwner(_) =>
    case Wake(_) =>
    case Finish(_) =>
  }

  lemma PollPending(s: State, ps: Ps, p: PollAction)
    requires PollEnabled(s, ps, p)
    ensures PollStep(s, ps, p).pending == if p.Read? then s.pending + {ps} else s.pending
  {
    match p
    case BeginDrain =>
    case SkipDrain =>
    case Read(_) =>
    case Empty =>
    case NoSignal =>
    case BeginScan =>
    case ScanOne(_) =>
    case ScanDone =>
  }

  lemma ServePending(s: State, ps: Ps, v: ServeAction)
    requires ServeEnabled(s, ps, v)
    ensures ServeStep(s, ps, v).pending == if v.EndRound? then s.pending - {ps} else s.pending
  {
    match v
    case SkipStolen(_) =>
    case SeeEven(_) =>
    case ClearFlag =>
    case Return =>
    case EndRound =>
  }

  lemma OwnerPending(s: State, o: OwnerAction)
    requires OwnerEnabled(s, o)
    ensures OwnerStep(s, o).pending == s.pending
  {
    match o
    case Register(_, _) =>
    case TestFlag =>
    case Notify =>
    case Erase(_) =>
    case SeeEvenErased =>
    case EraseDone =>
  }

  lemma StepPending(d: Discipline, s: State, a: Action, ps: Ps)
    requires Enabled(d, s, a)
    ensures ps in Apply(d, s, a).pending <==> ReadsByte([a], 0, ps) || (a != ByService(ps, EndRound) && ps in s.pending)
  {
    match a
    case ByHandler(h) => HandlerPending(d, s, h);
    case ByPoll(q, p) => PollPending(s, q, p);
    case ByService(q, v) => ServePending(s, q, v);
    case ByOwner(o) => OwnerPending(s, o);
  }

  /** In every run signal_pending_ is set exactly from the read of a byte to the end of the
      next round: only then does a pollset look at its signals. */
  lemma {:induction false} PendingSinceRound(d: Discipline, acts: seq<Action>, ps: Ps)
    requires Run(d, acts).Some?
    ensures ps in Run(d, acts).value.pending <==> ByteSinceRound(acts, ps)
    decreases |acts|
  {
    if acts != [] {
      var before, a := acts[..|acts| - 1], acts[|acts| - 1];
      assert acts == before + [a];
      PendingSinceRound(d, before, ps);
      StepPending(d, Run(d, before).value, a, ps);
      ByteOfMore(before, a, ps);
    }
  }
}

/**
 The signal protocol of pollset_plus (xdrpp/pollset.cc): a handler that may run
 on any thread at any moment, a flag with three values per signal, an owner that
 other pollsets can steal, and a polling thread per pollset.  Every shared access
 is one step; steps of different parties interleave freely.
 */
module Signals {
  import opened Options

  type Sig = nat   // a signal number
  type Ps = nat    // a pollset_plus, with its polling thread

  /** signal_flags: clear, a handler is waking the owner, or waiting to be served. */
  datatype Flag = Clear | Waking | Set

  /** One activation of signal_handler, after its test of the flag.  It may have been
      delivered before the handler was removed. */
  datatype Handler = Handler(sig: Sig, pc: Pc)
  datatype Pc =
    | Checked                    // found the flag clear
    | Published                  // stored 1
    | Saw(owner: Option<Ps>)     // read signal_owners
    | Woken                      // called wake (or found no owner)

  /** A polling thread: where it is in poll and run_subtype_handlers. */
  datatype Runner =
    | Idle
    | Draining                                        // the read loop of run_pending_asyncs
    | Polled                                          // about to test signal_pending_
    | Scanning(todo: set<Sig>, found: set<Sig>)       // collecting, lock held
    | Serving(found: set<Sig>)                        // at the head of the loop, lock held
    | Clearing(sig: Sig, found: set<Sig>)             // saw an even flag, lock held
    | Calling(found: set<Sig>)                        // in a callback, lock released

  /** Who holds signal_owners_lock. */
  datatype Lock =
    | Free
    | ByRunner(ps: Ps)
    | Registering(ps: Ps, sig: Sig)   // has taken the signal, about to test the flag
    | Notifying(ps: Ps, sig: Sig)     // saw the flag set, about to wake its own pollset
    | Erasing(sig: Sig)               // has removed the owner, spins on an odd flag
    | Erased(sig: Sig)                // saw an even flag, about to test and clear it

  datatype State = State(
    flags: map<Sig, Flag>,          // absent: Clear
    owners: map<Sig, Ps>,           // absent: no owner; also the keys of each signal_cbs_
    installed: set<Sig>,            // signals whose action is, or has been, signal_handler
    pipe: map<Ps, nat>,             // unread Signal bytes in each self-pipe
    pending: set<Ps>,               // signal_pending_
    runners: map<Ps, Runner>,       // absent: Idle
    lock: Lock,
    handlers: map<nat, Handler>,    // activations in progress
    published: map<Sig, nat>,       // how often each signal was latched,
    served: map<Sig, nat>,          // ... cleared for its callback,
    raised: map<Sig, nat>)          // ... and raised again by a removal
  {
    function Flag(sig: Sig): Flag { if sig in flags then flags[sig] else Clear }
    function Pipe(ps: Ps): nat { if ps in pipe then pipe[ps] else 0 }
    function Runner(ps: Ps): Runner { if ps in runners then runners[ps] else Idle }
    predicate Owns(ps: Ps, sig: Sig) { sig in owners && owners[sig] == ps }
    function Owned(ps: Ps): set<Sig> { set sig | sig in owners && owners[sig] == ps }
  }

  function Count(m: map<Sig, nat>, sig: Sig): nat { if sig in m then m[sig] else 0 }

  function Bump(m: map<Sig, nat>, sig: Sig): (m': map<Sig, nat>)
    ensures forall x :: Count(m', x) == Count(m, x) + if x == sig then 1 else 0
  {
    m[sig := Count(m, sig) + 1]
  }

  const START := State(map[], map[], {}, map[], {}, map[], Free, map[], map[], map[], map[])

  datatype HandlerAction =
    | Start(id: nat, sig: Sig) | Publish(id: nat) | ReadOwner(id: nat) | Wake(id: nat) | Finish(id: nat)
  datatype PollAction =
    | BeginDrain | SkipDrain | Read(n: nat) | Empty | NoSignal | BeginScan | ScanOne(sig: Sig) | ScanDone
  datatype ServeAction =
    | SkipStolen(sig: Sig) | SeeEven(sig: Sig) | ClearFlag | Return | EndRound
  datatype OwnerAction =
    | Register(ps: Ps, sig: Sig) | TestFlag | Notify | Erase(sig: Sig) | SeeEvenErased | EraseDone
  datatype Action =
    | ByHandler(h: HandlerAction) | ByPoll(ps: Ps, p: PollAction) | ByService(ps: Ps, v: ServeAction) | ByOwner(o: OwnerAction)

  /** What the environment may do.  `overlap`: two activations of the handler for one
      signal may be in progress at once.  `race`: an activation may store 1 while the
      lock holder is between seeing an even flag and clearing it. */
  datatype Discipline = Discipline(overlap: bool, race: bool)

  ghost predicate Busy(s: State, sig: Sig) {
    exists id :: id in s.handlers && s.handlers[id].sig == sig
  }

  /** The lock holder has seen an even flag of `sig` and is going to clear it. */
  predicate Window(s: State, sig: Sig) {
    || s.lock == Erased(sig)
    || (s.lock.ByRunner? && s.Runner(s.lock.ps).Clearing? && s.Runner(s.lock.ps).sig == sig)
  }

  ghost predicate HandlerEnabled(d: Discipline, s: State, a: HandlerAction) {
    match a
    case Start(id, sig) => id !in s.handlers && sig in s.installed && s.Flag(sig).Clear? && (d.overlap || !Busy(s, sig))
    case Publish(id) => id in s.handlers && s.handlers[id].pc.Checked? && (d.race || !Window(s, s.handlers[id].sig))
    case ReadOwner(id) => id in s.handlers && s.handlers[id].pc.Published?
    case Wake(id) => id in s.handlers && s.handlers[id].pc.Saw?
    case Finish(id) => id in s.handlers && s.handlers[id].pc.Woken?
  }

  /** wake(wake_type::Signal): one more byte in the self-pipe of `ps`. */
  function Poke(s: State, ps: Ps): State { s.(pipe := s.pipe[ps := s.Pipe(ps) + 1]) }

  /** signal_handler. */
  ghost function HandlerStep(d: Discipline, s: State, a: HandlerAction): (s': State)
    requires HandlerEnabled(d, s, a)
    ensures s'.runners == s.runners && s'.lock == s.lock && s'.owners == s.owners
  {
    match a
    case Start(id, sig) => s.(handlers := s.handlers[id := Handler(sig, Checked)])
    case Publish(id) =>
      var sig := s.handlers[id].sig;
      s.(handlers := s.handlers[id := Handler(sig, Published)], flags := s.flags[sig := Waking],
         published := Bump(s.published, sig))
    case ReadOwner(id) =>
      var sig := s.handlers[id].sig;
      s.(handlers := s.handlers[id := Handler(sig, Saw(if sig in s.owners then Some(s.owners[sig]) else None))])
    case Wake(id) =>
      var h := s.handlers[id];
      var s' := s.(handlers := s.handlers[id := h.(pc := Woken)]);
      if h.pc.owner.None? then s' else Poke(s', h.pc.owner.value)
    case Finish(id) => s.(handlers := s.handlers - {id}, flags := s.flags[s.handlers[id].sig := Set])
  }

  predicate PollEnabled(s: State, ps: Ps, a: PollAction) {
    var r := s.Runner(ps);
    match a
    case BeginDrain => r.Idle?
    case SkipDrain => r.Idle?
    case Read(n) => r.Draining? && 1 <= n <= s.Pipe(ps)
    case Empty => r.Draining? && s.Pipe(ps) == 0
    case NoSignal => r.Polled? && ps !in s.pending
    case BeginScan => r.Polled? && ps in s.pending && s.lock.Free?
    case ScanOne(sig) => r.Scanning? && sig in r.todo
    case ScanDone => r.Scanning? && r.todo == {}
  }

  function At(s: State, ps: Ps, r: Runner): State { s.(runners := s.runners[ps := r]) }

  /** The read loop of run_pending_asyncs and the first half of run_subtype_handlers. */
  function PollStep(s: State, ps: Ps, a: PollAction): (s': State)
    requires PollEnabled(s, ps, a)
    ensures s'.handlers == s.handlers && s'.flags == s.flags
  {
    var r := s.Runner(ps);
    match a
    case BeginDrain => At(s, ps, Draining)
    case SkipDrain => At(s, ps, Polled)
    case Read(n) => s.(pipe := s.pipe[ps := s.Pipe(ps) - n], pending := s.pending + {ps})
    case Empty => At(s, ps, Polled)
    case NoSignal => At(s, ps, Idle)
    case BeginScan => At(s, ps, Scanning(s.Owned(ps), {})).(lock := ByRunner(ps))
    case ScanOne(sig) => At(s, ps, Scanning(r.todo - {sig}, if s.Flag(sig).Clear? then r.found else r.found + {sig}))
    case ScanDone => At(s, ps, Serving(r.found))
  }

  predicate ServeEnabled(s: State, ps: Ps, a: ServeAction) {
    var r := s.Runner(ps);
    match a
    case SkipStolen(sig) => r.Serving? && sig in r.found && !s.Owns(ps, sig)
    case SeeEven(sig) => r.Serving? && sig in r.found && s.Owns(ps, sig) && !s.Flag(sig).Waking?
    case ClearFlag => r.Clearing?
    case Return => r.Calling? && s.lock.Free?
    case EndRound => r.Serving? && r.found == {}
  }

  /** The second half of run_subtype_handlers. */
  function ServeStep(s: State, ps: Ps, a: ServeAction): (s': State)
    requires ServeEnabled(s, ps, a)
    ensures s'.handlers == s.handlers && s'.pipe == s.pipe
  {
    var r := s.Runner(ps);
    match a
    case SkipStolen(sig) => At(s, ps, Serving(r.found - {sig}))
    case SeeEven(sig) => At(s, ps, Clearing(sig, r.found - {sig}))
    case ClearFlag =>
      At(s, ps, Calling(r.found)).(lock := Free, flags := s.flags[r.sig := Clear],
        served := if s.Flag(r.sig).Clear? then s.served else Bump(s.served, r.sig))
    case Return => At(s, ps, Serving(r.found)).(lock := ByRunner(ps))
    case EndRound => At(s, ps, Idle).(lock := Free, pending := s.pending - {ps})
  }

  predicate OwnerEnabled(s: State, a: OwnerAction) {
    match a
    case Register(ps, sig) => s.lock.Free?
    case TestFlag => s.lock.Registering?
    case Notify => s.lock.Notifying?
    case Erase(sig) => s.lock.Free?
    case SeeEvenErased => s.lock.Erasing? && !s.Flag(s.lock.sig).Waking?
    case EraseDone => s.lock.Erased?
  }

  /** The end of erase_signal_cb: a flag that is set is cleared and the signal raised. */
  function FinishErase(s: State, sig: Sig): (s': State)
    ensures s'.lock.Free? && s'.owners == s.owners && s'.handlers == s.handlers
    ensures s'.pipe == s.pipe && s'.pending == s.pending && s'.runners == s.runners
  {
    if s.Flag(sig).Clear? then s.(lock := Free)
    else s.(lock := Free, flags := s.flags[sig := Clear], raised := Bump(s.raised, sig))
  }

  /** signal_cb and erase_signal_cb. */
  function OwnerStep(s: State, a: OwnerAction): (s': State)
    requires OwnerEnabled(s, a)
    ensures s'.handlers == s.handlers && s'.runners == s.runners
  {
    match a
    case Register(ps, sig) =>
      if s.Owns(ps, sig) then s
      else s.(owners := s.owners[sig := ps], installed := s.installed + {sig}, lock := Registering(ps, sig))
    case TestFlag => s.(lock := if s.Flag(s.lock.sig).Clear? then Free else Notifying(s.lock.ps, s.lock.sig))
    case Notify => Poke(s, s.lock.ps).(lock := Free)
    case Erase(sig) =>
      if sig !in s.owners then s
      else s.(owners := s.owners - {sig}, lock := Erasing(sig))
    case SeeEvenErased => s.(lock := Erased(s.lock.sig))
    case EraseDone => FinishErase(s, s.lock.sig)
  }

  ghost predicate Enabled(d: Discipline, s: State, a: Action) {
    match a
    case ByHandler(h) => HandlerEnabled(d, s, h)
    case ByPoll(ps, p) => PollEnabled(s, ps, p)
    case ByService(ps, v) => ServeEnabled(s, ps, v)
    case ByOwner(o) => OwnerEnabled(s, o)
  }

  ghost function Apply(d: Discipline, s: State, a: Action): State
    requires Enabled(d, s, a)
  {
    match a
    case ByHandler(h) => HandlerStep(d, s, h)
    case ByPoll(ps, p) => PollStep(s, ps, p)
    case ByService(ps, v) => ServeStep(s, ps, v)
    case ByOwner(o) => OwnerStep(s, o)
  }

  // ----- the invariant --------------------------------------------------------

  /** The round that `ps` is in will still look at the flag of `sig`. */
  predicate WillLook(r: Runner, sig: Sig) {
    match r
    case Idle => true
    case Draining => true
    case Polled => true
    case Scanning(todo, found) => sig in todo || sig in found
    case Serving(found) => sig in found
    case Clearing(sig', found) => sig == sig' || sig in found
    case Calling(found) => sig in found
  }

  /** `ps` is bound to look at the flag of `sig`: it has an unread byte, or has seen
      one and will still look, or a registrar is about to test the flag or to wake it. */
  predicate Notified(s: State, ps: Ps, sig: Sig) {
    || s.Pipe(ps) > 0
    || (ps in s.pending && WillLook(s.Runner(ps), sig))
    || s.lock == Registering(ps, sig)
    || s.lock == Notifying(ps, sig)
  }

  /** No signal is lost: one that waits and has an owner is one the owner will see. */
  ghost predicate NoneLost(s: State) {
    forall sig :: sig in s.owners && s.Flag(sig).Set? ==> Notified(s, s.owners[sig], sig)
  }

  /** Activation `id` agrees with the flag of its signal. */
  ghost predicate FlagAgrees(s: State, id: nat)
    requires id in s.handlers
  {
    s.Flag(s.handlers[id].sig) == if s.handlers[id].pc.Checked? then Clear else Waking
  }

  /** Activation `id` is past the point where it could still wake the present owner. */
  ghost predicate PastWaking(s: State, id: nat)
    requires id in s.handlers
  {
    var h := s.handlers[id];
    h.pc.Woken? || (h.pc.Saw? && h.sig in s.owners && h.pc.owner != Some(s.owners[h.sig]))
  }

  ghost predicate HandlerOk(s: State, id: nat)
    requires id in s.handlers
  {
    && FlagAgrees(s, id)
    && (s.handlers[id].sig in s.owners && PastWaking(s, id) ==> Notified(s, s.owners[s.handlers[id].sig], s.handlers[id].sig))
  }

  predicate HoldsLock(r: Runner) { r.Scanning? || r.Serving? || r.Clearing? }

  ghost predicate LockAgrees(s: State, ps: Ps) {
    HoldsLock(s.Runner(ps)) ==> s.lock == ByRunner(ps)
  }

  /** Every latched signal was served, raised again, or still waits. */
  ghost predicate Conserved(s: State, sig: Sig) {
    Count(s.published, sig) == Count(s.served, sig) + Count(s.raised, sig) + if s.Flag(sig).Clear? then 0 else 1
  }

  ghost predicate SigOk(s: State, sig: Sig) {
    && (Window(s, sig) ==> !s.Flag(sig).Waking?)
    && (sig in s.owners && s.Flag(sig).Set? ==> Notified(s, s.owners[sig], sig))
    && Conserved(s, sig)
  }

  ghost predicate OnePerSignal(s: State) {
    forall i, j :: i in s.handlers && j in s.handlers && s.handlers[i].sig == s.handlers[j].sig ==> i == j
  }

  ghost predicate Inv(s: State) {
    && OnePerSignal(s)
    && (forall id :: id in s.handlers ==> HandlerOk(s, id))
    && (forall ps :: LockAgrees(s, ps))
    && (forall sig :: SigOk(s, sig))
  }

  lemma StartInv()
    ensures Inv(START)
  {
  }

  const STRICT := Discipline(false, false)

  /** A byte can only help, and it notifies its pollset of every signal. */
  lemma PokeNotifies(s: State, p: Ps, ps: Ps, sig: Sig)
    ensures Notified(s, ps, sig) ==> Notified(Poke(s, p), ps, sig)
    ensures Notified(Poke(s, p), p, sig)
  {
  }

  lemma PokeKeepsSig(s: State, p: Ps, sig: Sig)
    requires SigOk(s, sig)
    ensures SigOk(Poke(s, p), sig)
  {
    if sig in s.owners {
      PokeNotifies(s, p, s.owners[sig], sig);
    }
  }

  lemma PokeKeepsHandler(s: State, p: Ps, id: nat)
    requires id in s.handlers && HandlerOk(s, id)
    ensures HandlerOk(Poke(s, p), id)
  {
    if s.handlers[id].sig in s.owners {
      PokeNotifies(s, p, s.owners[s.handlers[id].sig], s.handlers[id].sig);
    }
  }

  lemma EarlyStepKeepsSig(s: State, a: HandlerAction, sig: Sig)
    requires HandlerEnabled(STRICT, s, a) && SigOk(s, sig) && (a.Start? || a.Publish? || a.ReadOwner?)
    requires a.id in s.handlers ==> HandlerOk(s, a.id)
    ensures SigOk(HandlerStep(STRICT, s, a), sig)
  {
  }

  lemma WakeKeepsSig(s: State, id: nat, sig: Sig)
    requires HandlerEnabled(STRICT, s, Wake(id)) && SigOk(s, sig)
    ensures SigOk(HandlerStep(STRICT, s, Wake(id)), sig)
  {
    var h := s.handlers[id];
    var s' := s.(handlers := s.handlers[id := h.(pc := Woken)]);
    assert SigOk(s', sig);
    if h.pc.owner.Some? {
      PokeKeepsSig(s', h.pc.owner.value, sig);
    }
  }

  lemma FinishKeepsSig(s: State, id: nat, sig: Sig)
    requires HandlerEnabled(STRICT, s, Finish(id)) && SigOk(s, sig) && HandlerOk(s, id)
    ensures SigOk(HandlerStep(STRICT, s, Finish(id)), sig)
  {
  }

  lemma EarlyStepKeepsHandler(s: State, a: HandlerAction, id: nat)
    requires HandlerEnabled(STRICT, s, a) && id in HandlerStep(STRICT, s, a).handlers && (a.Start? || a.Publish? || a.ReadOwner?)
    requires id in s.handlers ==> HandlerOk(s, id)
    requires a.id in s.handlers ==> HandlerOk(s, a.id)
    requires id in s.handlers && a.id in s.handlers && s.handlers[id].sig == s.handlers[a.id].sig ==> id == a.id
    ensures HandlerOk(HandlerStep(STRICT, s, a), id)
  {
  }

  lemma WakeKeepsHandler(s: State, i: nat, id: nat)
    requires HandlerEnabled(STRICT, s, Wake(i)) && id in s.handlers && HandlerOk(s, id)
    ensures HandlerOk(HandlerStep(STRICT, s, Wake(i)), id)
  {
    var h := s.handlers[i];
    var s' := s.(handlers := s.handlers[i := h.(pc := Woken)]);
    if id != i {
      assert HandlerOk(s', id);
      if h.pc.owner.Some? {
        PokeKeepsHandler(s', h.pc.owner.value, id);
      }
    } else if h.sig in s.owners && h.pc.owner == Some(s.owners[h.sig]) {
      PokeNotifies(s', s.owners[h.sig], s.owners[h.sig], h.sig);
    } else {
      assert HandlerOk(s', id);
      if h.pc.owner.Some? {
        PokeKeepsHandler(s', h.pc.owner.value, id);
      }
    }
  }

  lemma FinishKeepsHandler(s: State, i: nat, id: nat)
    requires HandlerEnabled(STRICT, s, Finish(i)) && id in s.handlers && id != i && HandlerOk(s, id)
    requires s.handlers[id].sig != s.handlers[i].sig
    ensures HandlerOk(HandlerStep(STRICT, s, Finish(i)), id)
  {
  }

  lemma HandlerStepKeepsOne(s: State, a: HandlerAction)
    requires HandlerEnabled(STRICT, s, a) && OnePerSignal(s)
    ensures OnePerSignal(HandlerStep(STRICT, s, a))
  {
    var s' := HandlerStep(STRICT, s, a);
    forall i, j | i in s'.handlers && j in s'.handlers && s'.handlers[i].sig == s'.handlers[j].sig ensures i == j {
      if a.Start? && (i == a.id || j == a.id) {
        assert i != j ==> Busy(s, a.sig);
      } else {
        assert i in s.handlers && s.handlers[i].sig == s'.handlers[i].sig;
        assert j in s.handlers && s.handlers[j].sig == s'.handlers[j].sig;
      }
    }
  }

  lemma HandlerStepKeepsSig(s: State, a: HandlerAction, sig: Sig)
    requires HandlerEnabled(STRICT, s, a) && SigOk(s, sig)
    requires a.id in s.handlers ==> HandlerOk(s, a.id)
    ensures SigOk(HandlerStep(STRICT, s, a), sig)
  {
    match a
    case Wake(i) => WakeKeepsSig(s, i, sig);
    case Finish(i) => FinishKeepsSig(s, i, sig);
    case _ => EarlyStepKeepsSig(s, a, sig);
  }

  lemma HandlerStepKeepsHandler(s: State, a: HandlerAction, id: nat)
    requires HandlerEnabled(STRICT, s, a) && id in HandlerStep(STRICT, s, a).handlers
    requires id in s.handlers ==> HandlerOk(s, id)
    requires a.id in s.handlers ==> HandlerOk(s, a.id)
    requires id in s.handlers && a.id in s.handlers && s.handlers[id].sig == s.handlers[a.id].sig ==> id == a.id
    ensures HandlerOk(HandlerStep(STRICT, s, a), id)
  {
    match a
    case Wake(i) => WakeKeepsHandler(s, i, id);
    case Finish(i) => FinishKeepsHandler(s, i, id);
    case _ => EarlyStepKeepsHandler(s, a, id);
  }

  lemma HandlerStepKeeps(s: State, a: HandlerAction)
    requires Inv(s) && HandlerEnabled(STRICT, s, a)
    ensures Inv(HandlerStep(STRICT, s, a))
  {
    var s' := HandlerStep(STRICT, s, a);
    HandlerStepKeepsOne(s, a);
    forall ps ensures LockAgrees(s', ps) { assert LockAgrees(s, ps); }
    forall sig ensures SigOk(s', sig) { assert SigOk(s, sig); HandlerStepKeepsSig(s, a, sig); }
    forall id | id in s'.handlers ensures HandlerOk(s', id) { HandlerStepKeepsHandler(s, a, id); }
  }

  lemma PollStepKeepsSig(s: State, ps: Ps, a: PollAction, sig: Sig)
    requires PollEnabled(s, ps, a) && SigOk(s, sig) && LockAgrees(s, ps)
    ensures SigOk(PollStep(s, ps, a), sig)
  {
  }

  lemma PollStepKeepsHandler(s: State, ps: Ps, a: PollAction, id: nat)
    requires PollEnabled(s, ps, a) && id in s.handlers && HandlerOk(s, id) && LockAgrees(s, ps)
    ensures HandlerOk(PollStep(s, ps, a), id)
  {
  }

  lemma PollStepKeeps(s: State, ps: Ps, a: PollAction)
    requires Inv(s) && PollEnabled(s, ps, a)
    ensures Inv(PollStep(s, ps, a))
  {
    var s' := PollStep(s, ps, a);
    assert LockAgrees(s, ps);
    forall q ensures LockAgrees(s', q) { assert LockAgrees(s, q); }
    forall sig ensures SigOk(s', sig) { assert SigOk(s, sig); PollStepKeepsSig(s, ps, a, sig); }
    forall id | id in s'.handlers ensures HandlerOk(s', id) { PollStepKeepsHandler(s, ps, a, id); }
  }

  lemma ServeStepKeepsSig(s: State, ps: Ps, a: ServeAction, sig: Sig)
    requires ServeEnabled(s, ps, a) && SigOk(s, sig) && LockAgrees(s, ps)
    ensures SigOk(ServeStep(s, ps, a), sig)
  {
  }

  lemma ServeStepKeepsHandler(s: State, ps: Ps, a: ServeAction, id: nat)
    requires ServeEnabled(s, ps, a) && id in s.handlers && HandlerOk(s, id) && LockAgrees(s, ps)
    requires SigOk(s, s.handlers[id].sig)
    ensures HandlerOk(ServeStep(s, ps, a), id)
  {
  }

  lemma ServeStepKeeps(s: State, ps: Ps, a: ServeAction)
    requires Inv(s) && ServeEnabled(s, ps, a)
    ensures Inv(ServeStep(s, ps, a))
  {
    var s' := ServeStep(s, ps, a);
    assert LockAgrees(s, ps);
    forall q ensures LockAgrees(s', q) { assert LockAgrees(s, q); }
    forall sig ensures SigOk(s', sig) { assert SigOk(s, sig); ServeStepKeepsSig(s, ps, a, sig); }
    forall id | id in s'.handlers ensures HandlerOk(s', id) {
      assert SigOk(s, s.handlers[id].sig);
      ServeStepKeepsHandler(s, ps, a, id);
    }
  }

  lemma TakingKeepsSig(s: State, a: OwnerAction, sig: Sig)
    requires OwnerEnabled(s, a) && SigOk(s, sig) && (a.Register? || a.Erase?)
    ensures SigOk(OwnerStep(s, a), sig)
  {
  }

  lemma TestingKeepsSig(s: State, a: OwnerAction, sig: Sig)
    requires OwnerEnabled(s, a) && SigOk(s, sig) && (a.TestFlag? || a.SeeEvenErased?)
    ensures SigOk(OwnerStep(s, a), sig)
  {
  }

  lemma SameNotice(s: State, s': State, ps: Ps, sig: Sig)
    requires s'.pipe == s.pipe && s'.pending == s.pending && s'.runners == s.runners
    requires !s.lock.Registering? && !s.lock.Notifying? && Notified(s, ps, sig)
    ensures Notified(s', ps, sig)
  {
  }

  lemma EraseConserves(s: State, gone: Sig, sig: Sig)
    requires Conserved(s, sig)
    ensures Conserved(FinishErase(s, gone), sig)
  {
    if s.Flag(gone).Clear? {
    } else if gone == sig {
    } else {
    }
  }

  lemma EraseKeepsNotice(s: State, gone: Sig, sig: Sig)
    requires s.lock.Erased? && (sig in s.owners && s.Flag(sig).Set? ==> Notified(s, s.owners[sig], sig))
    ensures var s' := FinishErase(s, gone);
      sig in s'.owners && s'.Flag(sig).Set? ==> Notified(s', s'.owners[sig], sig)
  {
    var s' := FinishErase(s, gone);
    EraseSetsNothing(s, gone, sig);
    if sig in s.owners && s.Flag(sig).Set? {
      SameNotice(s, s', s.owners[sig], sig);
    }
  }

  lemma EraseSetsNothing(s: State, gone: Sig, sig: Sig)
    ensures FinishErase(s, gone).Flag(sig).Set? ==> s.Flag(sig).Set?
  {
    if s.Flag(gone).Clear? {
    } else if gone == sig {
    } else {
    }
  }

  lemma EraseDoneKeepsSig(s: State, sig: Sig)
    requires s.lock.Erased? && SigOk(s, sig)
    ensures SigOk(FinishErase(s, s.lock.sig), sig)
  {
    EraseConserves(s, s.lock.sig, sig);
    EraseKeepsNotice(s, s.lock.sig, sig);
    assert FinishErase(s, s.lock.sig).lock.Free?;
  }

  lemma OwnerStepKeepsLock(s: State, a: OwnerAction, ps: Ps)
    requires OwnerEnabled(s, a) && LockAgrees(s, ps)
    ensures LockAgrees(OwnerStep(s, a), ps)
  {
  }

  lemma NotifyKeepsSig(s: State, sig: Sig)
    requires s.lock.Notifying? && SigOk(s, sig)
    ensures SigOk(OwnerStep(s, Notify), sig)
  {
    PokeNotifies(s, s.lock.ps, s.lock.ps, sig);
    PokeKeepsSig(s, s.lock.ps, sig);
  }

  lemma TakingKeepsHandler(s: State, a: OwnerAction, id: nat)
    requires OwnerEnabled(s, a) && id in s.handlers && HandlerOk(s, id) && (a.Register? || a.Erase?)
    requires SigOk(s, s.handlers[id].sig)
    ensures HandlerOk(OwnerStep(s, a), id)
  {
  }

  lemma TestingKeepsHandler(s: State, a: OwnerAction, id: nat)
    requires OwnerEnabled(s, a) && id in s.handlers && HandlerOk(s, id)
    requires SigOk(s, s.handlers[id].sig) && (a.TestFlag? || a.SeeEvenErased?)
    ensures HandlerOk(OwnerStep(s, a), id)
  {
  }

  /** The flag that a removal clears is not one that an activation relies on. */
  lemma EraseKeepsFlag(s: State, id: nat)
    requires s.lock.Erased? && id in s.handlers && FlagAgrees(s, id)
    requires s.lock.sig == s.handlers[id].sig ==> !s.Flag(s.lock.sig).Waking?
    ensures id in FinishErase(s, s.lock.sig).handlers && FlagAgrees(FinishErase(s, s.lock.sig), id)
  {
    if s.lock.sig == s.handlers[id].sig {
    } else {
    }
  }

  lemma EraseDoneKeepsHandler(s: State, id: nat)
    requires s.lock.Erased? && id in s.handlers && HandlerOk(s, id) && SigOk(s, s.handlers[id].sig)
    ensures id in FinishErase(s, s.lock.sig).handlers && HandlerOk(FinishErase(s, s.lock.sig), id)
  {
    var sig, s' := s.handlers[id].sig, FinishErase(s, s.lock.sig);
    EraseKeepsFlag(s, id);
    if sig in s.owners && PastWaking(s, id) {
      SameNotice(s, s', s.owners[sig], sig);
    }
  }

  lemma NotifyKeepsHandler(s: State, id: nat)
    requires s.lock.Notifying? && id in s.handlers && HandlerOk(s, id)
    ensures HandlerOk(OwnerStep(s, Notify), id)
  {
    PokeNotifies(s, s.lock.ps, s.lock.ps, s.handlers[id].sig);
    PokeKeepsHandler(s, s.lock.ps, id);
  }

  lemma OwnerStepKeepsSig(s: State, a: OwnerAction, sig: Sig)
    requires OwnerEnabled(s, a) && SigOk(s, sig)
    ensures SigOk(OwnerStep(s, a), sig)
  {
    match a
    case Register(_, _) => TakingKeepsSig(s, a, sig);
    case Erase(_) => TakingKeepsSig(s, a, sig);
    case Notify => NotifyKeepsSig(s, sig);
    case EraseDone => EraseDoneKeepsSig(s, sig);
    case _ => TestingKeepsSig(s, a, sig);
  }

  lemma OwnerStepKeepsHandler(s: State, a: OwnerAction, id: nat)
    requires OwnerEnabled(s, a) && id in s.handlers && HandlerOk(s, id) && SigOk(s, s.handlers[id].sig)
    ensures id in OwnerStep(s, a).handlers && HandlerOk(OwnerStep(s, a), id)
  {
    match a
    case Register(_, _) => TakingKeepsHandler(s, a, id);
    case Erase(_) => TakingKeepsHandler(s, a, id);
    case Notify => NotifyKeepsHandler(s, id);
    case EraseDone => EraseDoneKeepsHandler(s, id);
    case _ => TestingKeepsHandler(s, a, id);
  }

  lemma OwnerStepKeeps(s: State, a: OwnerAction)
    requires Inv(s) && OwnerEnabled(s, a)
    ensures Inv(OwnerStep(s, a))
  {
    var s' := OwnerStep(s, a);
    forall q ensures LockAgrees(s', q) { assert LockAgrees(s, q); OwnerStepKeepsLock(s, a, q); }
    forall sig ensures SigOk(s', sig) { assert SigOk(s, sig); OwnerStepKeepsSig(s, a, sig); }
    forall id | id in s'.handlers ensures HandlerOk(s', id) {
      assert SigOk(s, s.handlers[id].sig);
      OwnerStepKeepsHandler(s, a, id);
    }
  }

  lemma StepKeeps(s: State, a: Action)
    requires Inv(s) && Enabled(STRICT, s, a)
    ensures Inv(Apply(STRICT, s, a))
  {
    match a
    case ByHandler(h) => HandlerStepKeeps(s, h);
    case ByPoll(ps, p) => PollStepKeeps(s, ps, p);
    case ByService(ps, v) => ServeStepKeeps(s, ps, v);
    case ByOwner(o) => OwnerStepKeeps(s, o);
  }

  // ----- whole runs -----------------------------------------------------------

  /** The state after a sequence of steps from the start, if each was possible. */
  ghost function Run(d: Discipline, acts: seq<Action>): Option<State> {
    if acts == [] then Some(START)
    else
      var before := Run(d, acts[..|acts| - 1]);
      var a := acts[|acts| - 1];
      if before.Some? && Enabled(d, before.value, a) then Some(Apply(d, before.value, a)) else None
  }

  lemma {:induction false} RunKeepsInv(acts: seq<Action>)
    requires Run(STRICT, acts).Some?
    ensures Inv(Run(STRICT, acts).value)
  {
    if acts == [] {
      StartInv();
    } else {
      RunKeepsInv(acts[..|acts| - 1]);
      StepKeeps(Run(STRICT, acts[..|acts| - 1]).value, acts[|acts| - 1]);
    }
  }

  lemma {:induction false} Extend(d: Discipline, acts: seq<Action>, s: State, a: Action)
    requires Run(d, acts) == Some(s) && Enabled(d, s, a)
    ensures Run(d, acts + [a]) == Some(Apply(d, s, a))
  {
    assert (acts + [a])[..|acts|] == acts;
  }

  /** In every run without overlap or race, no signal is lost, and every latched
      signal was served, raised again by a removal, or is still latched. */
  lemma {:induction false} NoSignalLost(acts: seq<Action>)
    requires Run(STRICT, acts).Some?
    ensures NoneLost(Run(STRICT, acts).value)
    ensures forall sig :: Conserved(Run(STRICT, acts).value, sig)
  {
    RunKeepsInv(acts);
    var s := Run(STRICT, acts).value;
    forall sig ensures SigOk(s, sig) {
    }
    forall sig ensures Conserved(s, sig) {
      assert SigOk(s, sig);
    }
    forall sig | sig in s.owners && s.Flag(sig).Set? ensures Notified(s, s.owners[sig], sig) {
      assert SigOk(s, sig);
    }
  }

  lemma Do(d: Discipline, acts: seq<Action>, s: State, a: Action, s': State) returns (acts': seq<Action>)
    requires Run(d, acts) == Some(s) && Enabled(d, s, a) && Apply(d, s, a) == s'
    ensures acts' == acts + [a] && Run(d, acts') == Some(s')
  {
    Extend(d, acts, s, a);
    acts' := acts + [a];
  }

  /** Pollset 0 owns signal 1 and nothing else has happened. */
  const OWNED := START.(owners := map[1 := 0], installed := {1})

  lemma OwnedRun(d: Discipline) returns (acts: seq<Action>)
    ensures Run(d, acts) == Some(OWNED)
  {
    var s := START.(owners := map[1 := 0], installed := {1}, lock := Registering(0, 1));
    acts := Do(d, [], START, ByOwner(Register(0, 1)), s);
    acts := Do(d, acts, s, ByOwner(TestFlag), OWNED);
  }

  const RACED := OWNED.(owners := map[], lock := Erased(1), flags := map[1 := Waking],
                        published := map[1 := 1], handlers := map[7 := Handler(1, Saw(None))])

  const ERASED := OWNED.(owners := map[], lock := Erased(1), handlers := map[7 := Handler(1, Checked)])

  lemma EraseBegins(d: Discipline) returns (acts: seq<Action>)
    ensures Run(d, acts) == Some(ERASED)
  {
    acts := OwnedRun(d);
    var s1 := OWNED.(handlers := map[7 := Handler(1, Checked)]);
    var s2 := s1.(owners := map[], lock := Erasing(1));
    assert !Busy(OWNED, 1);
    acts := Do(d, acts, OWNED, ByHandler(Start(7, 1)), s1);
    acts := Do(d, acts, s1, ByOwner(Erase(1)), s2);
    acts := Do(d, acts, s2, ByOwner(SeeEvenErased), ERASED);
  }

  lemma RaceBegins(d: Discipline) returns (acts: seq<Action>)
    requires d.race
    ensures Run(d, acts) == Some(RACED)
  {
    acts := EraseBegins(d);
    var s := ERASED.(handlers := map[7 := Handler(1, Published)], flags := map[1 := Waking], published := map[1 := 1]);
    acts := Do(d, acts, ERASED, ByHandler(Publish(7)), s);
    acts := Do(d, acts, s, ByHandler(ReadOwner(7)), RACED);
  }

  /** The signal is clear and has no owner, but one activation that found none is
      still on its way to its last store. */
  ghost predicate Straggler(s: State) {
    && s.lock.Free? && s.flags == map[1 := Clear] && s.owners == map[] && s.pipe == map[] && s.pending == {}
    && s.handlers == map[7 := Handler(1, Saw(None))]
  }

  /** From there the signal, owned again, ends up latched with nobody to look at it. */
  lemma StragglerLatches(d: Discipline, acts: seq<Action>, s: State) returns (acts': seq<Action>)
    requires Run(d, acts) == Some(s) && Straggler(s)
    ensures Run(d, acts').Some? && !NoneLost(Run(d, acts').value)
  {
    var s1 := s.(owners := map[1 := 0], installed := s.installed + {1}, lock := Registering(0, 1));
    var s2 := s1.(lock := Free);
    acts' := Do(d, acts, s, ByOwner(Register(0, 1)), s1);
    acts' := Do(d, acts', s1, ByOwner(TestFlag), s2);
    acts' := StragglerFinishes(d, acts', s2);
  }

  /** The last steps of that activation, which saw no owner. */
  lemma StragglerFinishes(d: Discipline, acts: seq<Action>, s: State) returns (acts': seq<Action>)
    requires Run(d, acts) == Some(s) && Straggler(s.(owners := map[])) && s.owners == map[1 := 0]
    ensures Run(d, acts').Some? && !NoneLost(Run(d, acts').value)
  {
    var s1 := s.(handlers := map[7 := Handler(1, Woken)]);
    var s2 := s1.(handlers := map[], flags := map[1 := Set]);
    acts' := Do(d, acts, s, ByHandler(Wake(7)), s1);
    acts' := Do(d, acts', s1, ByHandler(Finish(7)), s2);
    assert s2.Flag(1).Set? && 1 in s2.owners && !Notified(s2, s2.owners[1], 1);
  }

  /** A removal sees a clear flag, an activation that started before stores 1, and the
      removal clears it although the activation has not finished. */
  lemma RaceLosesSignal(d: Discipline) returns (acts: seq<Action>)
    requires d.race
    ensures Run(d, acts).Some? && !NoneLost(Run(d, acts).value)
  {
    acts := RaceBegins(d);
    var s := RACED.(lock := Free, flags := map[1 := Clear], raised := map[1 := 1]);
    acts := Do(d, acts, RACED, ByOwner(EraseDone), s);
    acts := StragglerLatches(d, acts, s);
  }

  /** Two activations are in progress and a removal has begun. */
  const TWO_ACTIVE := START.(installed := {1}, lock := Erasing(1), flags := map[1 := Waking], published := map[1 := 1],
                             handlers := map[7 := Handler(1, Published), 8 := Handler(1, Checked)])

  lemma OverlapBegins(d: Discipline) returns (acts: seq<Action>)
    requires d.overlap
    ensures Run(d, acts) == Some(TWO_ACTIVE)
  {
    acts := OwnedRun(d);
    var s1 := OWNED.(handlers := map[7 := Handler(1, Checked)]);
    var s2 := OWNED.(handlers := map[7 := Handler(1, Checked), 8 := Handler(1, Checked)]);
    var s3 := OWNED.(handlers := map[7 := Handler(1, Published), 8 := Handler(1, Checked)], flags := map[1 := Waking],
                     published := map[1 := 1]);
    acts := Do(d, acts, OWNED, ByHandler(Start(7, 1)), s1);
    acts := Do(d, acts, s1, ByHandler(Start(8, 1)), s2);
    acts := Do(d, acts, s2, ByHandler(Publish(7)), s3);
    acts := Do(d, acts, s3, ByOwner(Erase(1)), TWO_ACTIVE);
  }

  const TWO_LATE := TWO_ACTIVE.(published := map[1 := 2], handlers := map[7 := Handler(1, Saw(None)), 8 := Handler(1, Saw(None))])

  lemma OverlapContinues(d: Discipline) returns (acts: seq<Action>)
    requires d.overlap
    ensures Run(d, acts) == Some(TWO_LATE)
  {
    acts := OverlapBegins(d);
    var s1 := TWO_ACTIVE.(published := map[1 := 2], handlers := map[7 := Handler(1, Published), 8 := Handler(1, Published)]);
    var s2 := TWO_ACTIVE.(published := map[1 := 2], handlers := map[7 := Handler(1, Saw(None)), 8 := Handler(1, Published)]);
    acts := Do(d, acts, TWO_ACTIVE, ByHandler(Publish(8)), s1);
    acts := Do(d, acts, s1, ByHandler(ReadOwner(7)), s2);
    acts := Do(d, acts, s2, ByHandler(ReadOwner(8)), TWO_LATE);
  }

  const ONE_LATE := TWO_LATE.(handlers := map[7 := Handler(1, Saw(None))], flags := map[1 := Set])

  lemma OneFinishes(d: Discipline) returns (acts: seq<Action>)
    requires d.overlap
    ensures Run(d, acts) == Some(ONE_LATE)
  {
    acts := OverlapContinues(d);
    var s := TWO_LATE.(handlers := map[7 := Handler(1, Saw(None)), 8 := Handler(1, Woken)]);
    acts := Do(d, acts, TWO_LATE, ByHandler(Wake(8)), s);
    acts := Do(d, acts, s, ByHandler(Finish(8)), ONE_LATE);
  }

  /** Two overlapping activations: one finishes, the removal takes its even flag for the
      end of both, and the other one latches the signal for good. */
  lemma OverlapLosesSignal(d: Discipline) returns (acts: seq<Action>)
    requires d.overlap
    ensures Run(d, acts).Some? && !NoneLost(Run(d, acts).value)
  {
    acts := OneFinishes(d);
    var s1 := ONE_LATE.(lock := Erased(1));
    var s2 := s1.(lock := Free, flags := map[1 := Clear], raised := map[1 := 1]);
    acts := Do(d, acts, ONE_LATE, ByOwner(SeeEvenErased), s1);
    acts := Do(d, acts, s1, ByOwner(EraseDone), s2);
    acts := StragglerLatches(d, acts, s2);
  }

  /** No signal is ever lost exactly when the activations of one signal never overlap
      and none stores 1 inside the check-then-clear window of a lock holder. */
  lemma {:induction false} NoSignalLostExactlyWhen(d: Discipline)
    ensures (forall acts :: Run(d, acts).Some? ==> NoneLost(Run(d, acts).value)) <==> !d.overlap && !d.race
  {
    if d.overlap {
      var acts := OverlapLosesSignal(d);
    } else if d.race {
      var acts := RaceLosesSignal(d);
    } else {
      assert d == STRICT;
      forall acts | Run(d, acts).Some? ensures NoneLost(Run(d, acts).value) {
        NoSignalLost(acts);
      }
    }
  }

  // ----- progress -------------------------------------------------------------

  /** The state after a sequence of steps from `s`, if each was possible. */
  ghost function RunFrom(s: State, acts: seq<Action>): Option<State>
    decreases |acts|
  {
    if acts == [] then Some(s)
    else if Enabled(STRICT, s, acts[0]) then RunFrom(Apply(STRICT, s, acts[0]), acts[1..])
    else None
  }

  /** Only the polling thread of `ps` takes steps. */
  predicate Alone(ps: Ps, acts: seq<Action>) {
    forall i :: 0 <= i < |acts| ==> (acts[i].ByPoll? || acts[i].ByService?) && acts[i].ps == ps
  }

  /** `acts` lead from `s` to a state in which the callback of `sig` is about to run. */
  ghost predicate Serves(s: State, ps: Ps, sig: Sig, acts: seq<Action>) {
    var t := RunFrom(s, acts);
    && Alone(ps, acts) && t.Some?
    && t.value.Runner(ps).Calling? && t.value.Flag(sig).Clear?
    && Count(t.value.served, sig) == Count(s.served, sig) + 1
  }

  lemma ServesBefore(s: State, ps: Ps, sig: Sig, a: Action, acts: seq<Action>)
    requires (a.ByPoll? || a.ByService?) && a.ps == ps && Enabled(STRICT, s, a)
    requires Serves(Apply(STRICT, s, a), ps, sig, acts) && Count(Apply(STRICT, s, a).served, sig) == Count(s.served, sig)
    ensures Serves(s, ps, sig, [a] + acts)
  {
    assert ([a] + acts)[1..] == acts;
  }

  /** From seeing the flag of `sig` to its callback. */
  lemma ServeNow(s: State, ps: Ps, sig: Sig) returns (acts: seq<Action>)
    requires s.Runner(ps).Clearing? && s.Runner(ps).sig == sig && s.Flag(sig).Set?
    ensures Serves(s, ps, sig, acts)
  {
    acts := [ByService(ps, ClearFlag)];
    assert acts[1..] == [];
    assert RunFrom(s, acts) == Some(Apply(STRICT, s, acts[0]));
  }

  lemma FoundServes(s: State, ps: Ps, sig: Sig) returns (acts: seq<Action>)
    requires s.Runner(ps).Serving? && sig in s.Runner(ps).found && s.Owns(ps, sig) && s.Flag(sig).Set?
    ensures Serves(s, ps, sig, acts)
  {
    var a := ByService(ps, SeeEven(sig));
    acts := ServeNow(Apply(STRICT, s, a), ps, sig);
    ServesBefore(s, ps, sig, a, acts);
    acts := [a] + acts;
  }

  lemma {:induction false} ScanServes(s: State, ps: Ps, sig: Sig) returns (acts: seq<Action>)
    requires s.Runner(ps).Scanning? && s.Owns(ps, sig) && s.Flag(sig).Set?
    requires sig in s.Runner(ps).todo || sig in s.Runner(ps).found
    ensures Serves(s, ps, sig, acts)
    decreases |s.Runner(ps).todo|
  {
    var r := s.Runner(ps);
    if r.todo != {} {
      var x :| x in r.todo;
      var a := ByPoll(ps, ScanOne(x));
      assert |r.todo - {x}| < |r.todo|;
      acts := ScanServes(Apply(STRICT, s, a), ps, sig);
      ServesBefore(s, ps, sig, a, acts);
      acts := [a] + acts;
    } else {
      var a := ByPoll(ps, ScanDone);
      acts := FoundServes(Apply(STRICT, s, a), ps, sig);
      ServesBefore(s, ps, sig, a, acts);
      acts := [a] + acts;
    }
  }

  lemma PolledServes(s: State, ps: Ps, sig: Sig) returns (acts: seq<Action>)
    requires s.Runner(ps).Polled? && ps in s.pending && s.lock.Free? && s.Owns(ps, sig) && s.Flag(sig).Set?
    ensures Serves(s, ps, sig, acts)
  {
    var a := ByPoll(ps, BeginScan);
    acts := ScanServes(Apply(STRICT, s, a), ps, sig);
    ServesBefore(s, ps, sig, a, acts);
    acts := [a] + acts;
  }

  lemma DrainServes(s: State, ps: Ps, sig: Sig) returns (acts: seq<Action>)
    requires s.Runner(ps).Draining? && (s.Pipe(ps) > 0 || ps in s.pending)
    requires s.lock.Free? && s.Owns(ps, sig) && s.Flag(sig).Set?
    ensures Serves(s, ps, sig, acts)
    decreases s.Pipe(ps)
  {
    var a := if s.Pipe(ps) > 0 then ByPoll(ps, Read(s.Pipe(ps))) else ByPoll(ps, Empty);
    if s.Pipe(ps) > 0 {
      acts := DrainServes(Apply(STRICT, s, a), ps, sig);
    } else {
      acts := PolledServes(Apply(STRICT, s, a), ps, sig);
    }
    ServesBefore(s, ps, sig, a, acts);
    acts := [a] + acts;
  }

  /** In every reachable state, the owner of a waiting signal serves it in its next round
      of polling, once nobody else holds the lock. */
  lemma OwnerServes(before: seq<Action>, s: State, ps: Ps, sig: Sig) returns (acts: seq<Action>)
    requires Run(STRICT, before) == Some(s)
    requires s.Owns(ps, sig) && s.Flag(sig).Set? && s.lock.Free? && s.Runner(ps).Idle?
    ensures Serves(s, ps, sig, acts)
  {
    RunKeepsInv(before);
    assert SigOk(s, sig);
    var a := ByPoll(ps, BeginDrain);
    acts := DrainServes(Apply(STRICT, s, a), ps, sig);
    ServesBefore(s, ps, sig, a, acts);
    acts := [a] + acts;
  }
}

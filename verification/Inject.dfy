/**
 Callbacks injected from other threads (xdrpp/pollset.h inject_cb,
 xdrpp/pollset.cc run_pending_asyncs): a queue under a lock, a pending flag and a
 wake-up byte that is drained outside the lock.
 */
module Inject {
  type Cb = nat

  /** Where the polling thread is in run_pending_asyncs. */
  datatype Runner =
    | Idle
    | Draining                  // the read loop
    | Drained                   // read found the pipe empty, about to take the lock
    | Running(rest: seq<Cb>)    // has swapped the queue out

  /** Who holds async_cbs_lock_: an injecting thread that has pushed its callback, or
      one that has also set the pending flag and is about to write the byte. */
  datatype Lock = Free | Pushed | Marked

  datatype State = State(
    queue: seq<Cb>,       // async_cbs_
    pending: bool,        // async_pending_
    pipe: nat,            // unread bytes in the self-pipe
    runner: Runner,
    lock: Lock,
    injected: seq<Cb>,    // every callback injected so far
    ran: seq<Cb>)         // every callback run so far

  const START := State([], false, 0, Idle, Free, [], [])

  datatype Action =
    | Push(cb: Cb) | Mark | Write    // the three steps of inject_cb under the lock
    | Noise                          // a byte written for another reason
    | Wakeup | Read(n: nat) | Empty | Swap | RunOne | Finish

  predicate Enabled(s: State, a: Action) {
    match a
    case Push(_) => s.lock.Free?
    case Mark => s.lock.Pushed?
    case Write => s.lock.Marked?
    case Noise => true
    case Wakeup => s.runner.Idle? && 0 < s.pipe
    case Read(n) => s.runner.Draining? && 1 <= n <= s.pipe
    case Empty => s.runner.Draining? && s.pipe == 0
    case Swap => s.runner.Drained? && s.lock.Free?
    case RunOne => s.runner.Running? && s.runner.rest != []
    case Finish => s.runner.Running? && s.runner.rest == []
  }

  function Apply(s: State, a: Action): State
    requires Enabled(s, a)
  {
    match a
    case Push(cb) => s.(queue := s.queue + [cb], injected := s.injected + [cb], lock := Pushed)
    case Mark => if s.pending then s.(lock := Free) else s.(pending := true, lock := Marked)
    case Write => s.(pipe := s.pipe + 1, lock := Free)
    case Noise => s.(pipe := s.pipe + 1)
    case Wakeup => s.(runner := Draining)
    case Read(n) => s.(pipe := s.pipe - n)
    case Empty => s.(runner := Drained)
    case Swap => s.(pending := false, queue := [], runner := Running(s.queue))
    case RunOne => s.(ran := s.ran + [s.runner.rest[0]], runner := Running(s.runner.rest[1..]))
    case Finish => s.(runner := Idle)
  }

  /** The runner has been woken and has not yet taken the queue. */
  predicate BeforeSwap(r: Runner) { r.Draining? || r.Drained? }

  /** A queue that is not empty will be taken: the runner is on its way to it, has an
      unread byte, or an injecting thread is still to write one. */
  predicate Noticed(s: State) {
    s.queue != [] ==> s.pipe > 0 || BeforeSwap(s.runner) || !s.lock.Free?
  }

  function Batch(r: Runner): seq<Cb> { if r.Running? then r.rest else [] }

  predicate Inv(s: State) {
    && s.injected == s.ran + Batch(s.runner) + s.queue
    && (s.pending ==> s.pipe > 0 || BeforeSwap(s.runner) || s.lock.Marked?)
    && (s.lock.Marked? ==> s.pending)
    && (s.queue != [] ==> s.pending || s.lock.Pushed?)
  }

  lemma StepKeeps(s: State, a: Action)
    requires Inv(s) && Enabled(s, a)
    ensures Inv(Apply(s, a))
  {
    match a
    case RunOne =>
      var r := s.runner.rest;
      assert s.ran + r + s.queue == (s.ran + [r[0]]) + r[1..] + s.queue;
    case _ =>
  }

  function Run(acts: seq<Action>, s: State): (r: (bool, State))
    decreases |acts|
  {
    if acts == [] then (true, s)
    else if !Enabled(s, acts[0]) then (false, s)
    else Run(acts[1..], Apply(s, acts[0]))
  }

  /** In every interleaving a non-empty queue will be noticed, and the callbacks that
      have run are a prefix of those injected: each once, in order.  Once everything
      is quiet all of them have run. */
  lemma {:induction false} EveryRun(acts: seq<Action>, s: State)
    requires Inv(s) && Run(acts, s).0
    ensures var t := Run(acts, s).1;
      && Inv(t) && Noticed(t)
      && t.ran <= t.injected
      && (t.pipe == 0 && t.runner.Idle? && t.lock.Free? ==> t.ran == t.injected)
    decreases |acts|
  {
    if acts != [] {
      StepKeeps(s, acts[0]);
      EveryRun(acts[1..], Apply(s, acts[0]));
    }
  }

  /** The callbacks that the steps inject, in order. */
  function Injected(acts: seq<Action>): seq<Cb> {
    if acts == [] then []
    else if acts[0].Push? then [acts[0].cb] + Injected(acts[1..])
    else Injected(acts[1..])
  }

  lemma {:induction false} InjectedByRun(acts: seq<Action>, s: State)
    requires Run(acts, s).0
    ensures Run(acts, s).1.injected == s.injected + Injected(acts)
    decreases |acts|
  {
    if acts != [] {
      InjectedByRun(acts[1..], Apply(s, acts[0]));
      if acts[0].Push? {
        assert (s.injected + [acts[0].cb]) + Injected(acts[1..]) == s.injected + ([acts[0].cb] + Injected(acts[1..]));
      }
    }
  }

  /** The same for every run from the start: the callbacks run so far are the first of
      those that the steps of the run inject. */
  lemma {:induction false} EveryRunFromStart(acts: seq<Action>)
    requires Run(acts, START).0
    ensures var t := Run(acts, START).1;
      && Inv(t) && Noticed(t) && t.injected == Injected(acts) && t.ran <= Injected(acts)
      && (t.pipe == 0 && t.runner.Idle? && t.lock.Free? ==> t.ran == Injected(acts))
  {
    EveryRun(acts, START);
    InjectedByRun(acts, START);
  }

  // ----- nothing gets stuck ---------------------------------------------------

  /** The polling thread alone, from any reachable state in which no injecting thread
      holds the lock, runs every callback injected so far. */
  lemma Drains(s: State) returns (acts: seq<Action>)
    requires Inv(s) && s.lock.Free?
    ensures Run(acts, s).0 && Run(acts, s).1.ran == s.injected && Run(acts, s).1.runner.Idle?
  {
    acts := [];
    var t := s;
    if t.runner.Running? {
      acts, t := FinishBatch(t);
    }
    if t.queue != [] || !t.runner.Idle? {
      var more, u := TakeQueue(t);
      RunAppend(acts, more, s);
      acts, t := acts + more, u;
      more, u := FinishBatch(t);
      RunAppend(acts, more, s);
      acts, t := acts + more, u;
    }
  }

  lemma {:induction false} RunAppend(a: seq<Action>, b: seq<Action>, s: State)
    requires Run(a, s).0
    ensures Run(a + b, s) == Run(b, Run(a, s).1)
    decreases |a|
  {
    if a == [] {
      assert a + b == b;
    } else {
      assert (a + b)[1..] == a[1..] + b;
      RunAppend(a[1..], b, Apply(s, a[0]));
    }
  }

  /** Running out the batch in hand. */
  lemma {:induction false} FinishBatch(s: State) returns (acts: seq<Action>, t: State)
    requires s.runner.Running?
    ensures Run(acts, s) == (true, t) && t == s.(ran := s.ran + s.runner.rest, runner := Idle)
    decreases |s.runner.rest|
  {
    var r := s.runner.rest;
    if r == [] {
      acts, t := [Finish], s.(runner := Idle);
      assert acts[1..] == [];
      assert s.ran + r == s.ran;
    } else {
      var s' := Apply(s, RunOne);
      var rest;
      rest, t := FinishBatch(s');
      acts := [RunOne] + rest;
      assert acts[1..] == rest;
      assert (s.ran + [r[0]]) + r[1..] == s.ran + r;
    }
  }

  /** From being woken to holding the queue. */
  lemma TakeQueue(s: State) returns (acts: seq<Action>, t: State)
    requires Inv(s) && s.lock.Free? && !s.runner.Running?
    requires s.queue != [] || !s.runner.Idle?
    ensures Run(acts, s) == (true, t)
    ensures t == s.(pipe := t.pipe, pending := false, queue := [], runner := Running(s.queue))
  {
    acts, t := [], s;
    if t.runner.Idle? {
      acts, t := Then(acts, s, t, Wakeup);
    }
    if t.runner.Draining? {
      if t.pipe > 0 {
        acts, t := Then(acts, s, t, Read(t.pipe));
      }
      acts, t := Then(acts, s, t, Empty);
    }
    acts, t := Then(acts, s, t, Swap);
  }

  lemma Then(acts: seq<Action>, s: State, t: State, a: Action) returns (acts': seq<Action>, t': State)
    requires Run(acts, s) == (true, t) && Enabled(t, a)
    ensures Run(acts', s) == (true, t') && t' == Apply(t, a)
  {
    RunAppend(acts, [a], s);
    acts', t' := acts + [a], Apply(t, a);
    assert [a][1..] == [];
  }
}

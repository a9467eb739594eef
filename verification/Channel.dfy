/**
 Two ends of a connection: everything put into a Sender, over every pattern of
 partial writes, partial reads and EAGAINs, comes out of the Receiver in order.
 */
module Channel {
  import opened Bytes
  import opened Framing
  import opened Sequences
  import MsgSock
  import SendQueue

  datatype Step =
    | Put(m: Message, w: SendQueue.WriteResult)                    // putmsg at the sender
    | Writable(w: SendQueue.WriteResult)                           // its Write callback runs
    | Readable(results: seq<MsgSock.ReadResult>, killAt: nat)      // input at the receiver

  /** Messages the receiver may refuse are not put; input makes three reads. */
  ghost predicate Allowed(step: Step, max: nat) {
    match step
    case Put(m, _) => |m| < LAST_FRAGMENT && |m| <= max
    case Writable(_) => true
    case Readable(results, _) => |results| == 3
  }

  predicate Fails(step: Step) {
    match step
    case Put(_, w) => w.Failed? || w == SendQueue.Wrote(0)
    case Writable(w) => w.Failed? || w == SendQueue.Wrote(0)
    case Readable(_, _) => false
  }

  /** No write ever fails. */
  predicate Fine(steps: seq<Step>) {
    forall i :: 0 <= i < |steps| ==> !Fails(steps[i])
  }

  /** No write fails, none finds an idle socket not ready, and no callback deletes the
      receiver. */
  predicate Smooth(steps: seq<Step>) {
    forall i :: 0 <= i < |steps| ==> SmoothStep(steps[i])
  }

  predicate SmoothStep(step: Step) {
    && !Fails(step)
    && (step.Put? ==> !step.w.Again?)
    && (step.Readable? ==> step.killAt == 0)
  }

  lemma SmoothIsFine(steps: seq<Step>)
    requires Smooth(steps)
    ensures Fine(steps)
  {
    forall i | 0 <= i < |steps| ensures !Fails(steps[i]) {
      assert SmoothStep(steps[i]);
    }
  }

  /** The messages put in a run. */
  function PutIn(steps: seq<Step>): seq<Message> {
    if steps == [] then []
    else PutIn(steps[..|steps| - 1]) + if steps[|steps| - 1].Put? then [steps[|steps| - 1].m] else []
  }

  lemma PutInSnoc(steps: seq<Step>, i: nat)
    requires i < |steps|
    ensures PutIn(steps[..i + 1]) == PutIn(steps[..i]) + if steps[i].Put? then [steps[i].m] else []
  {
    assert steps[..i + 1][..i] == steps[..i];
  }

  /** The bytes a sequence of messages is sent as. */
  ghost function Stream(ms: seq<Message>): seq<Byte>
    requires forall i :: 0 <= i < |ms| ==> |ms[i]| < LAST_FRAGMENT
  {
    Concat(Raws(ms))
  }

  /** Every write takes something. */
  predicate Writing(writes: seq<SendQueue.WriteResult>) {
    forall i :: 0 <= i < |writes| ==> writes[i].Wrote? && writes[i].n > 0
  }

  /** Writes and reads that are bound to bring everything across. */
  ghost predicate Enough(puts: seq<Message>, writes: seq<SendQueue.WriteResult>, inputs: seq<seq<MsgSock.ReadResult>>) {
    && (forall i :: 0 <= i < |puts| ==> |puts[i]| < LAST_FRAGMENT)
    && Writing(writes) && |writes| >= |Stream(puts)|
    && MsgSock.Eager(inputs) && |inputs| >= |Stream(puts)|
  }

  /** The first `crossed` bytes of what was put have reached the receiver, and it
      has reported `got`. */
  ghost predicate InOrder(puts: seq<Message>, got: seq<Message>, crossed: nat, destroyed: bool, max: nat) {
    && Acceptable(puts, max) && crossed <= |Stream(puts)|
    && got <= puts
    && (!destroyed ==> got == Parse(Stream(puts)[..crossed], max).msgs)
    && (!destroyed && crossed == |Stream(puts)| ==> got == puts)
  }

  lemma Delivered(s: SendQueue.Sender, r: MsgSock.Receiver, used: nat)
    requires s.Valid() && r.Valid() && Acceptable(s.puts, r.maxmsglen)
    requires used <= |s.written| && r.consumed == s.written[..used]
    ensures InOrder(s.puts, MsgSock.Messages(r.log), used, r.destroyed, r.maxmsglen)
    ensures used == |s.written| && s.wsize == 0 && !s.wfail ==> used == |Stream(s.puts)|
  {
    var all := Stream(s.puts);
    assert s.written <= all;
    assert r.consumed == all[..used];
    ParsePrefix(s.puts, used, r.maxmsglen);
    MsgSock.ReportedIsParsed(r);
  }

  /** `puts` are the messages put in the steps, unless a write failed on the way. */
  ghost predicate PutAs(puts: seq<Message>, steps: seq<Step>, failed: bool) {
    puts <= PutIn(steps) && (!failed ==> puts == PutIn(steps))
  }

  lemma PutsSoFar(steps: seq<Step>, i: nat, before: seq<Message>, puts: seq<Message>, failed: bool, failed': bool)
    requires i < |steps| && PutAs(before, steps[..i], failed) && (failed ==> failed')
    requires puts == if steps[i].Put? && !failed then before + [steps[i].m] else before
    ensures PutAs(puts, steps[..i + 1], failed')
  {
    PutInSnoc(steps, i);
  }

  lemma SamePrefix(a: seq<Byte>, b: seq<Byte>, k: nat)
    requires a <= b && k <= |a|
    ensures b[..k] == a[..k]
  {
  }

  class Connection {
    const s: SendQueue.Sender
    const r: MsgSock.Receiver
    var puts: seq<Message>   // messages put before any write failure
    var used: nat            // bytes that have reached the receiver

    ghost predicate Valid()
      reads this, s, r
    {
      Agrees()
    }

    /** Both ends are sound, and what has arrived is the front of what was written. */
    ghost predicate Agrees()
      reads this, s, r
    {
      && s.Valid() && r.Valid()
      && puts == s.puts && Acceptable(puts, r.maxmsglen)
      && used <= |s.written| && r.consumed == s.written[..used]
    }

    constructor (max: nat)
      ensures Valid() && fresh(s) && fresh(r) && r.maxmsglen == max && puts == []
      ensures !s.wfail && !s.Stalled() && !r.destroyed
    {
      s := new SendQueue.Sender();
      r := new MsgSock.Receiver(max);
      puts, used := [], 0;
    }

    method Put(m: Message, w: SendQueue.WriteResult)
      requires Valid() && |m| < LAST_FRAGMENT && |m| <= r.maxmsglen
      modifies this, s
      ensures Valid()
      ensures s.wfail ==> old(s.wfail) || w.Failed? || w == SendQueue.Wrote(0)
      ensures old(s.wfail) ==> s.wfail
      ensures puts == if old(s.wfail) then old(puts) else old(puts) + [m]
      ensures old(!s.Stalled()) && !w.Again? ==> !s.Stalled()
    {
      if !s.wfail {
        puts := puts + [m];
      }
      assert Acceptable(puts, r.maxmsglen);
      s.PutMsg(m, w);
      SamePrefix(old(s.written), s.written, used);
    }

    method Writable(w: SendQueue.WriteResult)
      requires Valid()
      modifies s
      ensures Valid() && puts == old(puts)
      ensures s.wfail ==> old(s.wfail) || w.Failed? || w == SendQueue.Wrote(0)
      ensures old(s.wfail) ==> s.wfail
      ensures old(!s.Stalled()) ==> !s.Stalled()
      ensures |s.written| >= old(|s.written|)
      ensures old(s.writeCb && !s.wfail) && w.Wrote? && w.n > 0 ==> |s.written| > old(|s.written|)
    {
      if s.writeCb {
        s.Output(true, w);
      }
    }

    method Readable(results: seq<MsgSock.ReadResult>, killAt: nat)
      requires Valid() && |results| == 3
      modifies `used, r
      ensures Valid() && used >= old(used)
      ensures killAt == 0 ==> r.destroyed == old(r.destroyed)
      ensures old(used < |s.written| && r.readCb && !r.destroyed && !r.Stuck()) && results[0].Chunk? && results[0].n > 0
        ==> used > old(used)
    {
      if r.readCb && !r.destroyed {
        var n := r.Input(From(s.written, used), results, killAt);
        FrontAndFrom(s.written, used, n);
        used := used + n;
      }
    }

    method Take(step: Step)
      requires Valid() && Allowed(step, r.maxmsglen)
      modifies this, s, r
      ensures Valid()
      ensures s.wfail ==> old(s.wfail) || Fails(step)
      ensures old(s.wfail) ==> s.wfail
      ensures puts == if step.Put? && !old(s.wfail) then old(puts) + [step.m] else old(puts)
      ensures SmoothStep(step) && old(!s.Stalled() && !r.destroyed) ==> !s.Stalled() && !r.destroyed
    {
      match step {
        case Put(m, w) => Put(m, w);
        case Writable(w) => Writable(w);
        case Readable(results, killAt) => Readable(results, killAt);
      }
    }

    /** Writes until nothing is unsent. */
    method WriteAll() returns (steps: seq<Step>)
      requires Valid() && !s.wfail && !s.Stalled()
      modifies s
      ensures Valid() && puts == old(puts) && !s.wfail && s.wsize == 0
      ensures forall i :: 0 <= i < |steps| ==> steps[i].Writable?
    {
      steps := [];
      while s.wsize > 0
        invariant Valid() && puts == old(puts) && used == old(used) && !s.wfail && !s.Stalled()
        invariant forall i :: 0 <= i < |steps| ==> steps[i].Writable?
        decreases |Stream(puts)| - |s.written|
      {
        assert |s.written| <= |Stream(puts)|;
        steps := steps + [Step.Writable(SendQueue.Wrote(s.wsize))];
        Writable(SendQueue.Wrote(s.wsize));
        assert |s.written| <= |Stream(puts)|;
      }
    }

    /** The receiver of acceptable messages never gets stuck. */
    lemma NeverStuck()
      requires Valid()
      ensures !r.Stuck()
    {
      var all := Stream(puts);
      assert s.written <= all;
      assert r.consumed == all[..used];
      ParsePrefix(puts, used, r.maxmsglen);
      if r.Stuck() {
        MsgSock.StuckIsBroken(r);
        assert false;
      }
    }

    /** Reads until everything written has arrived. */
    method ReadAll() returns (steps: seq<Step>)
      requires Valid() && !r.destroyed
      modifies `used, r
      ensures Valid() && !r.destroyed && used == |s.written|
      ensures forall i :: 0 <= i < |steps| ==> steps[i].Readable?
    {
      steps := [];
      var results := [MsgSock.Chunk(4), MsgSock.Again, MsgSock.Again];
      while used < |s.written|
        invariant Valid() && !r.destroyed && used <= |s.written|
        invariant forall i :: 0 <= i < |steps| ==> steps[i].Readable?
        decreases |s.written| - used
      {
        NeverStuck();
        steps := steps + [Step.Readable(results, 0)];
        Readable(results, 0);
      }
    }

    /** From any state without failure, stall or destruction, the two ends alone bring
        everything across: some writes and reads lead to all the messages put. */
    method Drain() returns (steps: seq<Step>, got: seq<Message>)
      requires Valid() && !s.wfail && !s.Stalled() && !r.destroyed
      modifies this, s, r
      ensures Valid() && puts == old(puts) && got == puts && got == MsgSock.Messages(r.log)
      ensures forall i :: 0 <= i < |steps| ==> !steps[i].Put?
    {
      var writes := WriteAll();
      var receipts := ReadAll();
      steps := writes + receipts;
      Delivered(s, r, used);
      got := MsgSock.Messages(r.log);
    }

    /** Runs of the Write callback, whatever writev does. */
    method WriteOn(writes: seq<SendQueue.WriteResult>)
      requires Valid()
      modifies s
      ensures Valid() && puts == old(puts) && used == old(used)
      ensures old(!s.wfail && !s.Stalled()) && Writing(writes) && |writes| >= |Stream(puts)| ==> !s.wfail && s.wsize == 0
    {
      for i := 0 to |writes|
        invariant Valid() && puts == old(puts) && used == old(used)
        invariant old(!s.wfail && !s.Stalled()) && Writing(writes) ==>
          !s.wfail && !s.Stalled() && (s.wsize == 0 || |s.written| >= i)
      {
        Writable(writes[i]);
      }
      assert !s.wfail ==> |s.written| + s.wsize == |Stream(puts)|;
    }

    /** Runs of the Read callback, whatever read and readv do. */
    method ReadOn(inputs: seq<seq<MsgSock.ReadResult>>)
      requires Valid() && forall i :: 0 <= i < |inputs| ==> |inputs[i]| == 3
      modifies `used, r
      ensures Valid() && r.destroyed == old(r.destroyed)
      ensures !r.destroyed && MsgSock.Eager(inputs) && |inputs| >= |s.written| ==> used == |s.written|
    {
      for i := 0 to |inputs|
        invariant Valid() && r.destroyed == old(r.destroyed)
        invariant !r.destroyed && MsgSock.Eager(inputs) ==> used == |s.written| || used >= i
      {
        NeverStuck();
        Readable(inputs[i], 0);
      }
    }

    /** The state after the first `i` steps of a run. */
    ghost predicate Along(steps: seq<Step>, i: nat)
      requires i <= |steps|
      reads this, s, r
    {
      && Valid() && PutAs(puts, steps[..i], s.wfail)
      && (Fine(steps) ==> !s.wfail)
      && (Smooth(steps) ==> !s.Stalled() && !r.destroyed)
    }

    /** Step number `i` of a run. */
    method TakeNext(steps: seq<Step>, i: nat)
      requires i < |steps| && Allowed(steps[i], r.maxmsglen) && Along(steps, i)
      modifies this, s, r
      ensures Along(steps, i + 1)
    {
      ghost var before, failed := puts, s.wfail;
      Take(steps[i]);
      PutsSoFar(steps, i, before, puts, failed, s.wfail);
    }

    /** A whole run from the beginning. */
    method TakeAll(steps: seq<Step>)
      requires Valid() && puts == [] && !s.wfail && !s.Stalled() && !r.destroyed
      requires forall i :: 0 <= i < |steps| ==> Allowed(steps[i], r.maxmsglen)
      modifies this, s, r
      ensures Along(steps, |steps|)
    {
      for i := 0 to |steps|
        invariant Along(steps, i)
      {
        TakeNext(steps, i);
      }
    }

    /** A whole run, and some writes and reads at the end. */
    method TakeAllAndMore(steps: seq<Step>, writes: seq<SendQueue.WriteResult>, inputs: seq<seq<MsgSock.ReadResult>>)
      requires Valid() && puts == [] && !s.wfail && !s.Stalled() && !r.destroyed
      requires forall i :: 0 <= i < |steps| ==> Allowed(steps[i], r.maxmsglen)
      requires forall i :: 0 <= i < |inputs| ==> |inputs[i]| == 3
      modifies this, s, r
      ensures Valid() && puts <= PutIn(steps)
      ensures Fine(steps) ==> puts == PutIn(steps)
      ensures Smooth(steps) ==> !r.destroyed
      ensures Smooth(steps) && Enough(puts, writes, inputs) ==> used == |s.written| && s.wsize == 0 && !s.wfail
    {
      TakeAll(steps);
      assert steps[..|steps|] == steps;
      BringAcross(writes, inputs);
    }

    /** Some writes and reads, which bring everything across if there are enough. */
    method BringAcross(writes: seq<SendQueue.WriteResult>, inputs: seq<seq<MsgSock.ReadResult>>)
      requires Valid() && forall i :: 0 <= i < |inputs| ==> |inputs[i]| == 3
      modifies this, s, r
      ensures Valid() && puts == old(puts) && r.destroyed == old(r.destroyed)
      ensures old(!s.wfail && !s.Stalled() && !r.destroyed) && Enough(puts, writes, inputs) ==>
        used == |s.written| && s.wsize == 0 && !s.wfail
    {
      WriteOn(writes);
      ReadOn(inputs);
    }

    /** What both ends have to show for the run so far. */
    method Report() returns (got: seq<Message>)
      requires Valid()
      ensures InOrder(puts, got, used, r.destroyed, r.maxmsglen) && got == MsgSock.Messages(r.log)
      ensures used == |s.written| && s.wsize == 0 && !s.wfail ==> used == |Stream(puts)|
    {
      Delivered(s, r, used);
      got := MsgSock.Messages(r.log);
    }
  }

  /** Every run of a connection, with some writes and reads at the end: `puts` is what was
      put (up to a write failure), `got` is what was delivered once `crossed` bytes have
      reached the receiver.  If the run is smooth and there are as many writes and reads as
      bytes, each of which moves some, everything that was put is delivered. */
  method Run(max: nat, steps: seq<Step>, writes: seq<SendQueue.WriteResult>, inputs: seq<seq<MsgSock.ReadResult>>)
    returns (puts: seq<Message>, got: seq<Message>, crossed: nat, destroyed: bool)
    requires forall i :: 0 <= i < |steps| ==> Allowed(steps[i], max)
    requires forall i :: 0 <= i < |inputs| ==> |inputs[i]| == 3
    ensures puts <= PutIn(steps)
    ensures Fine(steps) ==> puts == PutIn(steps)
    ensures InOrder(puts, got, crossed, destroyed, max)
    ensures Smooth(steps) ==> !destroyed
    ensures Smooth(steps) && Enough(PutIn(steps), writes, inputs) ==> got == PutIn(steps)
  {
    var c := new Connection(max);
    c.TakeAllAndMore(steps, writes, inputs);
    got := c.Report();
    puts, crossed, destroyed := c.puts, c.used, c.r.destroyed;
    if Smooth(steps) {
      SmoothIsFine(steps);
    }
  }
}

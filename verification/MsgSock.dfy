/**
 Delimited messages over a non-blocking stream socket (xdrpp/msgsock.cc,
 class msg_sock).  Reads and writes take their results from the environment:
 every pattern of short counts, EAGAIN and errors is covered.
 */
module MsgSock {
  import opened Options
  import opened Bytes
  import opened Framing
  import opened Sequences

  /** One invocation of the receive callback: a message or the null pointer. */
  datatype Event = Got(msg: Message) | Null

  /** The messages among the events, in order. */
  function Messages(log: seq<Event>): seq<Message> {
    if log == [] then []
    else
      var before := Messages(log[..|log| - 1]);
      if log[|log| - 1].Got? then Both(before, [log[|log| - 1].msg]) else before
  }

  /** `log` has one event, `e`, more than `before`. */
  predicate Reported(before: seq<Event>, log: seq<Event>, e: Event) {
    |log| == |before| + 1 && before <= log && log[|before|] == e
  }

  lemma {:induction false} MessagesReported(before: seq<Event>, log: seq<Event>, e: Event)
    requires Reported(before, log, e)
    ensures Messages(log) == if e.Got? then Both(Messages(before), [e.msg]) else Messages(before)
  {
    assert log[..|before|] == before;
  }

  /** What a read is going to do: `Chunk(n)` delivers up to `n` bytes. */
  datatype ReadResult = Again | Eof | Failed | Chunk(n: nat)

  function Min(a: nat, b: nat): nat { if a < b then a else b }

  /** The result of a read for `request` bytes when `available` have arrived. */
  function Actual(r: ReadResult, request: nat, available: nat): (a: ReadResult)
    ensures a.Chunk? ==> 0 < a.n <= request && a.n <= available
    ensures a.Chunk? <==> r.Chunk? && 0 < r.n && 0 < request && 0 < available
  {
    if r.Chunk? then
      var k := Min(r.n, Min(request, available));
      if k == 0 then Again else Chunk(k)
    else r
  }

  // ----- what the receiver's fields say about the bytes consumed so far -------

  /** The events report every complete message of `consumed` except those that
      `header`, the bytes read since the last message, completes. */
  ghost predicate Pending(consumed: seq<Byte>, max: nat, ms: seq<Message>, header: seq<Byte>) {
    var q := Parse(header, max);
    Parse(consumed, max) == q.(msgs := Both(ms, q.msgs))
  }

  /** A message of `size` bytes is being read, `have` are its bytes so far. */
  ghost predicate InBody(consumed: seq<Byte>, max: nat, ms: seq<Message>, header: seq<Byte>, size: nat, have: seq<Byte>) {
    && |header| == 4 && !Refused(header, max) && BodyLength(header, max) == size
    && 1 <= size && |have| < size
    && Parse(consumed, max) == Parsed(ms, header + have, false)
  }

  /** What is read after `consumed` is parsed behind its leftover. */
  lemma {:induction false} Resumed(consumed: seq<Byte>, max: nat, ms: seq<Message>, rest: seq<Byte>, chunk: seq<Byte>)
    requires Parse(consumed, max) == Parsed(ms, rest, false)
    ensures Pending(consumed + chunk, max, ms, rest + chunk)
  {
    ParseResumes(consumed, chunk, max);
    BothIsAppend(ms, Parse(rest + chunk, max).msgs);
  }

  lemma {:induction false} PendingMore(consumed: seq<Byte>, max: nat, ms: seq<Message>, header: seq<Byte>, chunk: seq<Byte>)
    requires Pending(consumed, max, ms, header) && |header| < 4
    ensures Pending(consumed + chunk, max, ms, header + chunk)
  {
    BothNothing(ms);
    Resumed(consumed, max, ms, header, chunk);
  }

  lemma {:induction false} BodyMore(consumed: seq<Byte>, max: nat, ms: seq<Message>, header: seq<Byte>, size: nat, have: seq<Byte>, chunk: seq<Byte>)
    requires InBody(consumed, max, ms, header, size, have) && |have| + |chunk| < size
    ensures InBody(consumed + chunk, max, ms, header, size, have + chunk)
  {
    Resumed(consumed, max, ms, header + have, chunk);
    Grouped(header, have, chunk);
    ParseIncomplete(header, have + chunk, max);
    BothNothing(ms);
  }

  lemma {:induction false} BodyDone(consumed: seq<Byte>, max: nat, ms: seq<Message>, header: seq<Byte>, size: nat, have: seq<Byte>,
                                    chunk: seq<Byte>, body: Message, extra: seq<Byte>)
    requires InBody(consumed, max, ms, header, size, have)
    requires have + chunk == body + extra && |body| == size
    ensures Pending(consumed + chunk, max, Both(ms, [body]), extra)
  {
    Resumed(consumed, max, ms, header + have, chunk);
    Grouped(header, have, chunk);
    ParseBody(header, body, extra, max);
    Regroup(ms, body, Parse(extra, max).msgs);
  }

  lemma Grouped(header: seq<Byte>, have: seq<Byte>, chunk: seq<Byte>)
    ensures (header + have) + chunk == header + (have + chunk)
  {
  }

  lemma BothNothing(ms: seq<Message>)
    ensures Both(ms, []) == ms
  {
  }

  /** `chunk` read into `buf` at `at`. */
  function Overlaid(buf: seq<Byte>, at: nat, chunk: seq<Byte>): (r: seq<Byte>)
    requires at + |chunk| <= |buf|
    ensures |r| == |buf| && r[..at + |chunk|] == buf[..at] + chunk
  {
    seq(|buf|, i requires 0 <= i < |buf| => if at <= i < at + |chunk| then chunk[i - at] else buf[i])
  }

  /** `chunk` read into the front of `buf`. */
  function Front(buf: seq<Byte>, chunk: seq<Byte>): (r: seq<Byte>)
    requires |chunk| <= |buf|
    ensures |r| == |buf| && r[..|chunk|] == chunk
  {
    seq(|buf|, i requires 0 <= i < |buf| => if i < |chunk| then chunk[i] else buf[i])
  }

  lemma SplitChunk(have: seq<Byte>, chunk: seq<Byte>, k: nat)
    requires k <= |chunk|
    ensures have + chunk == (have + chunk[..k]) + From(chunk, k)
  {
    FromIsSlice(chunk, k);
  }

  /** The first `k` bytes of `chunk` complete a body. */
  lemma {:induction false} BodySplit(
    consumed: seq<Byte>, max: nat, ms: seq<Message>, header: seq<Byte>, size: nat, have: seq<Byte>, chunk: seq<Byte>, k: nat)
    requires InBody(consumed, max, ms, header, size, have) && k <= |chunk| && |have| + k == size
    ensures Pending(consumed + chunk, max, Both(ms, [have + chunk[..k]]), From(chunk, k))
  {
    SplitChunk(have, chunk, k);
    BodyDone(consumed, max, ms, header, size, have, chunk, have + chunk[..k], From(chunk, k));
  }

  lemma Regroup(a: seq<Message>, m: Message, b: seq<Message>)
    ensures Both(a, [m] + b) == Both(Both(a, [m]), b)
  {
  }

  /** A complete header that announces a body. */
  lemma HeaderOpensBody(consumed: seq<Byte>, max: nat, ms: seq<Message>, header: seq<Byte>)
    requires |header| == 4 && !Refused(header, max) && BodyLength(header, max) > 0
    requires Pending(consumed, max, ms, header)
    ensures InBody(consumed, max, ms, header, BodyLength(header, max), [])
  {
    ParseHeader(header, max);
    assert header + [] == header;
  }

  /** A complete header that announces an empty message. */
  lemma HeaderIsMessage(consumed: seq<Byte>, max: nat, ms: seq<Message>, header: seq<Byte>)
    requires |header| == 4 && !Refused(header, max) && BodyLength(header, max) == 0
    requires Pending(consumed, max, ms, header)
    ensures Pending(consumed, max, Both(ms, [[]]), [])
  {
    ParseHeader(header, max);
    assert Both(Both(ms, [[]]), []) == Both(ms, [[]]);
  }

  /** The part of msg_sock that `input` works on. */
  class Receiver {
    const maxmsglen: nat
    var nextlen: seq<Byte>        // the raw bytes of the length word
    var rdmsg: Option<Message>    // buffer of the message being read, at its full size
    var rdpos: nat                // bytes read into it, or into the length word
    var readCb: bool              // whether a Read callback is registered
    var destroyed: bool           // set when a callback deletes the socket
    var log: seq<Event>           // invocations of the receive callback
    ghost var consumed: seq<Byte> // every byte read so far

    ghost predicate Valid()
      reads this
    {
      Reading()
    }

    /** Between calls the fields are those of a parse of all bytes consumed. */
    ghost predicate Reading()
      reads this
    {
      && |nextlen| == 4
      && (rdmsg.None? ==> rdpos <= 4 && Pending(consumed, maxmsglen, Messages(log), nextlen[..rdpos]))
      && (rdmsg.None? && rdpos == 4 && !destroyed ==> Refused(nextlen, maxmsglen) && Null in log)
      && (rdmsg.Some? ==>
            && rdpos < |rdmsg.value|
            && InBody(consumed, maxmsglen, Messages(log), nextlen, |rdmsg.value|, rdmsg.value[..rdpos]))
      && (readCb || destroyed || Stuck())
    }

    /** A refused length word is not read past. */
    ghost predicate Stuck()
      reads this
    {
      |nextlen| == 4 && rdmsg.None? && rdpos == 4 && Refused(nextlen, maxmsglen)
    }

    constructor (maxmsglen: nat)
      ensures Valid() && this.maxmsglen == maxmsglen
      ensures consumed == [] && log == [] && readCb && !destroyed && rdmsg == None && rdpos == 0
    {
      this.maxmsglen := maxmsglen;
      nextlen, rdmsg, rdpos, readCb, destroyed, log := [0, 0, 0, 0], None, 0, true, false, [];
      consumed := [];
    }

    /** A call of rcb_; the callback that reports event number `killAt` deletes the socket. */
    method Report(e: Event, killAt: nat)
      modifies `log, `destroyed, `readCb
      ensures Reported(old(log), log, e)
      ensures Messages(log) == if e.Got? then Both(old(Messages(log)), [e.msg]) else old(Messages(log))
      ensures destroyed == (old(destroyed) || |log| == killAt)
      ensures readCb == (old(readCb) && |log| != killAt)
    {
      log := log + [e];
      MessagesReported(old(log), log, e);
      if |log| == killAt {
        destroyed, readCb := true, false;
      }
    }

    /** A length word that is refused is reported and kept. */
    method Refuse(killAt: nat)
      requires |nextlen| == 4 && rdmsg.None? && rdpos == 4 && Pending(consumed, maxmsglen, Messages(log), nextlen)
      requires Refused(nextlen, maxmsglen)
      modifies `log, `destroyed, `readCb
      ensures Valid() && old(log) <= log && (readCb ==> old(readCb))
      ensures destroyed == (old(destroyed) || old(|log|) < killAt <= |log|)
    {
      Report(Null, killAt);
      RefusedIsValid();
    }

    lemma RefusedIsValid()
      requires Stuck() && Pending(consumed, maxmsglen, Messages(log), nextlen) && Null in log
      ensures Valid()
    {
      assert nextlen[..4] == nextlen;
    }

    /** An empty message. */
    method TakeEmpty(killAt: nat)
      requires |nextlen| == 4 && rdmsg.None? && rdpos == 4 && Pending(consumed, maxmsglen, Messages(log), nextlen)
      requires !Refused(nextlen, maxmsglen) && BodyLength(nextlen, maxmsglen) == 0 && (readCb || destroyed)
      modifies `rdpos, `log, `destroyed, `readCb
      ensures Valid() && old(log) <= log
      ensures destroyed == (old(destroyed) || old(|log|) < killAt <= |log|)
    {
      HeaderIsMessage(consumed, maxmsglen, Messages(log), nextlen);
      rdpos := 0;
      Report(Got([]), killAt);
      assert nextlen[..0] == [];
    }

    /** A message with a body, for which there is now a buffer. */
    method OpenBody()
      requires |nextlen| == 4 && rdmsg.None? && rdpos == 4 && Pending(consumed, maxmsglen, Messages(log), nextlen)
      requires !Refused(nextlen, maxmsglen) && BodyLength(nextlen, maxmsglen) > 0 && (readCb || destroyed)
      modifies `rdmsg, `rdpos
      ensures Valid()
    {
      HeaderOpensBody(consumed, maxmsglen, Messages(log), nextlen);
      rdmsg, rdpos := Some(seq(BodyLength(nextlen, maxmsglen), _ => 0)), 0;
      assert rdmsg.value[..0] == [];
    }

    /** The length word is complete; `proceed` says that the loop goes on. */
    method TakeHeader(killAt: nat) returns (proceed: bool)
      requires |nextlen| == 4 && rdmsg.None? && rdpos == 4 && Pending(consumed, maxmsglen, Messages(log), nextlen)
      requires readCb || destroyed || Stuck()
      modifies `rdmsg, `rdpos, `log, `destroyed, `readCb
      ensures Valid() && old(log) <= log
      ensures destroyed == (old(destroyed) || old(|log|) < killAt <= |log|)
      ensures Refused(nextlen, maxmsglen) ==> rdmsg.None? && rdpos == 4
      ensures Refused(nextlen, maxmsglen) && FromBe32(nextlen) >= LAST_FRAGMENT ==> !readCb
    {
      var len := FromBe32(nextlen);
      if len < LAST_FRAGMENT {
        Refuse(killAt);
        return false;
      }
      len := len - LAST_FRAGMENT;
      if len == 0 {
        TakeEmpty(killAt);
      } else if len <= maxmsglen {
        OpenBody();
      } else {
        readCb := false;
        Refuse(killAt);
      }
      return true;
    }

    /** A complete length word waits to be looked at. */
    ghost predicate HeaderWaits()
      reads this
    {
      && |nextlen| == 4 && rdmsg.None? && rdpos == 4 && Pending(consumed, maxmsglen, Messages(log), nextlen)
      && (readCb || destroyed)
    }

    /** Part of the body has arrived. */
    method StorePart(chunk: seq<Byte>)
      requires Valid() && rdmsg.Some? && rdpos + |chunk| < |rdmsg.value|
      modifies `rdmsg, `rdpos, `consumed
      ensures Valid() && consumed == old(consumed) + chunk
    {
      BodyMore(consumed, maxmsglen, Messages(log), nextlen, |rdmsg.value|, rdmsg.value[..rdpos], chunk);
      rdmsg, rdpos := Some(Overlaid(rdmsg.value, rdpos, chunk)), rdpos + |chunk|;
      consumed := consumed + chunk;
    }

    /** The body is complete, with up to four bytes of the next length word. */
    method StoreBody(chunk: seq<Byte>) returns (body: Message)
      requires Valid() && rdmsg.Some? && |rdmsg.value| <= rdpos + |chunk| <= |rdmsg.value| + 4
      modifies `nextlen, `rdmsg, `rdpos, `consumed
      ensures consumed == old(consumed) + chunk && |nextlen| == 4 && rdmsg.None? && rdpos <= 4
      ensures Pending(consumed, maxmsglen, Both(Messages(log), [body]), nextlen[..rdpos]) && (readCb || destroyed)
    {
      var k := |rdmsg.value| - rdpos;
      BodySplit(consumed, maxmsglen, Messages(log), nextlen, |rdmsg.value|, rdmsg.value[..rdpos], chunk, k);
      body := rdmsg.value[..rdpos] + chunk[..k];
      nextlen := Front(nextlen, From(chunk, k));
      rdmsg, rdpos := None, |chunk| - k;
      consumed := consumed + chunk;
    }

    lemma BetweenMessages()
      requires |nextlen| == 4 && rdmsg.None? && rdpos <= 4 && Pending(consumed, maxmsglen, Messages(log), nextlen[..rdpos])
      requires (readCb || destroyed) && (destroyed || rdpos < 4)
      ensures Valid()
    {
    }

    lemma FullHeader()
      requires |nextlen| == 4 && rdmsg.None? && rdpos == 4 && Pending(consumed, maxmsglen, Messages(log), nextlen[..rdpos])
      requires readCb || destroyed
      ensures HeaderWaits()
    {
      assert nextlen[..rdpos] == nextlen;
    }

    /** The body is reported. */
    method ReportBody(body: Message, killAt: nat)
      requires |nextlen| == 4 && rdmsg.None? && rdpos <= 4 && (readCb || destroyed)
      requires Pending(consumed, maxmsglen, Both(Messages(log), [body]), nextlen[..rdpos])
      modifies `log, `destroyed, `readCb
      ensures Reported(old(log), log, Got(body))
      ensures rdpos == 4 ==> HeaderWaits()
      ensures destroyed || rdpos < 4 ==> Valid()
      ensures destroyed == (old(destroyed) || old(|log|) < killAt <= |log|)
    {
      Report(Got(body), killAt);
      if destroyed || rdpos < 4 {
        BetweenMessages();
      }
      if rdpos == 4 {
        FullHeader();
      }
    }

    method StoreLast(chunk: seq<Byte>, killAt: nat)
      requires Valid() && rdmsg.Some? && |rdmsg.value| <= rdpos + |chunk| <= |rdmsg.value| + 4
      modifies this
      ensures consumed == old(consumed) + chunk && old(log) <= log && rdpos <= 4
      ensures rdpos == 4 ==> HeaderWaits()
      ensures destroyed || rdpos < 4 ==> Valid()
      ensures destroyed == (old(destroyed) || old(|log|) < killAt <= |log|)
    {
      var body := StoreBody(chunk);
      ReportBody(body, killAt);
    }

    /** The end of the stream or an error: the fields stay as they are. */
    method ReportFailure(a: ReadResult, killAt: nat)
      requires Valid() && !a.Chunk?
      modifies `log, `destroyed, `readCb
      ensures Valid() && if a.Again? then log == old(log) else Reported(old(log), log, Null)
      ensures destroyed == (old(destroyed) || old(|log|) < killAt <= |log|)
    {
      if !a.Again? {
        Report(Null, killAt);
      }
    }

    method NothingRead(wire: seq<Byte>, a: ReadResult, killAt: nat)
      requires Valid() && !a.Chunk?
      modifies `log, `destroyed, `readCb
      ensures Valid() && old(log) <= log && consumed + wire[..0] == consumed
      ensures if a.Again? then log == old(log) else Reported(old(log), log, Null)
      ensures destroyed == (old(destroyed) || old(|log|) < killAt <= |log|)
    {
      ReportFailure(a, killAt);
      assert wire[..0] == [];
    }

    /** Bytes for the body, and perhaps for the next length word. */
    method StoreChunk(chunk: seq<Byte>, killAt: nat) returns (complete: bool)
      requires Valid() && rdmsg.Some? && |chunk| <= |rdmsg.value| - rdpos + 4
      modifies this
      ensures consumed == old(consumed) + chunk && old(log) <= log
      ensures complete ==> HeaderWaits() && !destroyed
      ensures destroyed == (old(destroyed) || old(|log|) < killAt <= |log|)
      ensures !complete ==> Valid()
    {
      complete := false;
      if rdpos + |chunk| < |rdmsg.value| {
        StorePart(chunk);
      } else {
        StoreLast(chunk, killAt);
        complete := !destroyed && rdpos == 4;
      }
    }

    /** readv into the message buffer and, past its end, into the length word. */
    method ReadBody(wire: seq<Byte>, r: ReadResult, killAt: nat) returns (used: nat, complete: bool)
      requires Valid() && rdmsg.Some?
      modifies this
      ensures used <= |wire| && consumed == old(consumed) + wire[..used] && old(log) <= log
      ensures complete ==> HeaderWaits() && !destroyed
      ensures destroyed == (old(destroyed) || old(|log|) < killAt <= |log|)
      ensures !complete ==> Valid()
      ensures r.Chunk? && 0 < r.n && wire != [] ==> used > 0
      ensures r.Eof? || r.Failed? ==> used == 0 && !complete && Reported(old(log), log, Null)
      ensures r.Again? ==> used == 0 && !complete && log == old(log)
    {
      var a := Actual(r, |rdmsg.value| - rdpos + 4, |wire|);
      if a.Chunk? {
        used := a.n;
        complete := StoreChunk(wire[..used], killAt);
      } else {
        used, complete := 0, false;
        NothingRead(wire, a, killAt);
      }
    }

    /** Bytes for the length word. */
    method StoreHeader(chunk: seq<Byte>) returns (complete: bool)
      requires Valid() && rdmsg.None? && rdpos + |chunk| <= 4 && chunk != []
      modifies `nextlen, `rdpos, `consumed
      ensures consumed == old(consumed) + chunk
      ensures complete ==> HeaderWaits()
      ensures !complete ==> Valid()
    {
      PendingMore(consumed, maxmsglen, Messages(log), nextlen[..rdpos], chunk);
      nextlen, rdpos := Overlaid(nextlen, rdpos, chunk), rdpos + |chunk|;
      consumed := consumed + chunk;
      assert rdpos == 4 ==> nextlen[..rdpos] == nextlen;
      complete := rdpos == 4;
    }

    /** read into the length word. */
    method ReadHeader(wire: seq<Byte>, r: ReadResult, killAt: nat) returns (used: nat, complete: bool)
      requires Valid() && rdmsg.None? && rdpos < 4
      modifies this
      ensures used <= |wire| && consumed == old(consumed) + wire[..used] && old(log) <= log
      ensures complete ==> HeaderWaits() && destroyed == old(destroyed)
      ensures destroyed == (old(destroyed) || old(|log|) < killAt <= |log|)
      ensures !complete ==> Valid()
      ensures r.Chunk? && 0 < r.n && wire != [] ==> used > 0
      ensures r.Eof? || r.Failed? ==> used == 0 && !complete && Reported(old(log), log, Null)
      ensures r.Again? ==> used == 0 && !complete && log == old(log)
    {
      var a := Actual(r, 4 - rdpos, |wire|);
      if a.Chunk? {
        used := a.n;
        complete := StoreHeader(wire[..used]);
      } else {
        used, complete := 0, false;
        NothingRead(wire, a, killAt);
      }
    }

    /** One round of the loop in msg_sock::input; `proceed` says that it goes on. */
    method Round(wire: seq<Byte>, r: ReadResult, killAt: nat) returns (used: nat, proceed: bool)
      requires Valid() && !destroyed
      modifies this
      ensures Valid() && used <= |wire| && consumed == old(consumed) + wire[..used] && old(log) <= log
      ensures destroyed == (old(destroyed) || old(|log|) < killAt <= |log|)
      ensures old(rdmsg.Some? || rdpos < 4) && wire != [] && r.Chunk? && r.n > 0 ==> used > 0
      ensures old(rdmsg.Some? || rdpos < 4) && (r.Eof? || r.Failed?) ==> used == 0 && !proceed && Reported(old(log), log, Null)
      ensures old(rdmsg.Some? || rdpos < 4) && r.Again? ==> used == 0 && !proceed && log == old(log)
    {
      var complete := true;
      used := 0;
      if rdmsg.Some? {
        used, complete := ReadBody(wire, r, killAt);
      } else if rdpos < 4 {
        used, complete := ReadHeader(wire, r, killAt);
      } else {
        assert nextlen[..4] == nextlen;
        assert wire[..0] == [];
      }
      proceed := complete;
      if complete {
        proceed := TakeHeader(killAt);
      }
    }

    /** msg_sock::input: at most three rounds, one read each.  In a broken state it
        reads nothing and reports null again. */
    method Input(wire: seq<Byte>, results: seq<ReadResult>, killAt: nat) returns (used: nat)
      requires Valid() && |results| == 3
      modifies this
      ensures Valid() && used <= |wire| && consumed == old(consumed) + wire[..used] && old(log) <= log
      ensures destroyed == (old(destroyed) || old(|log|) < killAt <= |log|)
      ensures old(!destroyed && !Stuck()) && wire != [] && results[0].Chunk? && results[0].n > 0 ==> used > 0
      ensures old(!destroyed && !Stuck()) && (results[0].Eof? || results[0].Failed?) ==> used == 0 && Reported(old(log), log, Null)
      ensures old(!destroyed && !Stuck()) && results[0].Again? ==> used == 0 && log == old(log)
    {
      used := 0;
      var i := 0;
      while i < 3 && !destroyed
        invariant 0 <= i <= 3 && Valid()
        invariant used <= |wire| && consumed == old(consumed) + wire[..used] && old(log) <= log
        invariant destroyed == (old(destroyed) || old(|log|) < killAt <= |log|)
        invariant i == 0 ==> destroyed == old(destroyed) && rdmsg == old(rdmsg) && rdpos == old(rdpos)
        invariant i == 0 ==> used == 0 && log == old(log)
        invariant i > 0 && old(rdmsg.Some? || rdpos < 4) ==> results[0].Chunk?
        invariant i > 0 && old(rdmsg.Some? || rdpos < 4) && wire != [] && results[0].Chunk? && results[0].n > 0 ==> used > 0
      {
        var n, proceed := Round(From(wire, used), results[i], killAt);
        ReadOn(old(consumed), wire, used, n);
        used := used + n;
        if !proceed {
          return;
        }
        i := i + 1;
      }
    }
  }

  lemma ReadOn(c: seq<Byte>, wire: seq<Byte>, used: nat, n: nat)
    requires used + n <= |wire|
    ensures c + wire[..used] + From(wire, used)[..n] == c + wire[..used + n]
  {
    FrontAndFrom(wire, used, n);
    assert c + wire[..used] + From(wire, used)[..n] == c + (wire[..used] + From(wire, used)[..n]);
  }

  /** Between calls the messages reported are those of a one-shot parse of all the
      bytes consumed, however they were split. */
  lemma ReportedIsParsed(r: Receiver)
    requires r.Valid()
    ensures Messages(r.log) <= Parse(r.consumed, r.maxmsglen).msgs
    ensures !r.destroyed ==> Messages(r.log) == Parse(r.consumed, r.maxmsglen).msgs
    ensures !r.destroyed && Parse(r.consumed, r.maxmsglen).broken ==> Null in r.log
  {
    if r.rdmsg.None? {
      if r.rdpos == 4 {
        assert r.nextlen[..4] == r.nextlen;
        ParseHeader(r.nextlen, r.maxmsglen);
      }
    }
  }

  lemma StuckIsBroken(r: Receiver)
    requires r.Valid() && r.Stuck()
    ensures Parse(r.consumed, r.maxmsglen).broken
  {
    assert r.nextlen[..4] == r.nextlen;
    ParseHeader(r.nextlen, r.maxmsglen);
  }

  /** Every call gets at least one byte on its first read, if there is one. */
  predicate Eager(calls: seq<seq<ReadResult>>) {
    forall i :: 0 <= i < |calls| ==> calls[i] != [] && calls[i][0].Chunk? && calls[i][0].n > 0
  }

  /** As far as the stream has been read after `n` calls. */
  ghost predicate Far(wire: seq<Byte>, used: nat, max: nat, n: nat)
    requires used <= |wire|
  {
    used == |wire| || used >= n || Parse(wire[..used], max).broken
  }

  /** A broken stream stays broken. */
  lemma {:induction false} StillBroken(wire: seq<Byte>, used: nat, more: nat, max: nat)
    requires used <= more <= |wire| && Parse(wire[..used], max).broken
    ensures Parse(wire[..more], max).broken && Parse(wire[..more], max).msgs == Parse(wire[..used], max).msgs
  {
    RefusedForGood(wire[..used], wire[used..more], max);
    assert wire[..used] + wire[used..more] == wire[..more];
  }

  /** Any number of calls of `input` on one byte stream: how it is cut into reads
      makes no difference to the messages, and with as many calls as bytes, each of
      which gets some, they are all the messages of the stream.  The callback of event
      number `killAt`, if there is one, deletes the socket. */
  method Receive(maxmsglen: nat, wire: seq<Byte>, calls: seq<seq<ReadResult>>, killAt: nat)
    returns (log: seq<Event>, used: nat)
    requires forall i :: 0 <= i < |calls| ==> |calls[i]| == 3
    ensures used <= |wire|
    ensures Messages(log) <= Parse(wire[..used], maxmsglen).msgs
    ensures !(0 < killAt <= |log|) ==> Messages(log) == Parse(wire[..used], maxmsglen).msgs
    ensures !(0 < killAt <= |log|) && Parse(wire[..used], maxmsglen).broken ==> Null in log
    ensures !(0 < killAt <= |log|) && Eager(calls) && |calls| >= |wire| ==> Messages(log) == Parse(wire, maxmsglen).msgs
  {
    var r := new Receiver(maxmsglen);
    used := 0;
    var i := 0;
    while i < |calls|
      invariant 0 <= i <= |calls| && fresh(r) && r.Valid() && r.maxmsglen == maxmsglen
      invariant used <= |wire| && r.consumed == wire[..used]
      invariant r.destroyed == (0 < killAt <= |r.log|)
      invariant !r.destroyed && Eager(calls) ==> Far(wire, used, maxmsglen, i)
    {
      used := Call(r, wire, used, calls[i], killAt, i);
      i := i + 1;
    }
    ReportedIsParsed(r);
    if Parse(wire[..used], maxmsglen).broken {
      StillBroken(wire, used, |wire|, maxmsglen);
    }
    assert wire[..|wire|] == wire;
    log := r.log;
  }

  /** Call number `i`. */
  method Call(r: Receiver, wire: seq<Byte>, used: nat, results: seq<ReadResult>, killAt: nat, ghost i: nat) returns (more: nat)
    requires r.Valid() && used <= |wire| && r.consumed == wire[..used] && |results| == 3
    requires r.destroyed == (0 < killAt <= |r.log|)
    modifies r
    ensures r.Valid() && used <= more <= |wire| && r.consumed == wire[..more]
    ensures r.destroyed == (0 < killAt <= |r.log|)
    ensures old(!r.destroyed && Far(wire, used, r.maxmsglen, i)) && results[0].Chunk? && results[0].n > 0 ==>
      Far(wire, more, r.maxmsglen, i + 1)
    ensures old(r.destroyed) ==> r.destroyed
  {
    if !r.destroyed && r.Stuck() {
      StuckIsBroken(r);
    }
    var n := r.Input(From(wire, used), results, killAt);
    FrontAndFrom(wire, used, n);
    more := used + n;
    if Parse(wire[..used], r.maxmsglen).broken {
      StillBroken(wire, used, more, r.maxmsglen);
    }
  }
}

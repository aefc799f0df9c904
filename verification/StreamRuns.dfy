/**
 * What every run of calls on a stream keeps: no acknowledged byte is lost, duplicated or reordered,
 * every WRTE gets one OKAY, and writing is stop-and-wait.
 */
module StreamRuns {
  import opened Bytes
  import opened Adb
  import opened StreamSpec

  datatype Call = CallRead(n: nat) | CallWrite(data: seq<byte>)

  function Do(s: State, c: Call): State {
    match c
    case CallRead(n) => Read(s, n).s
    case CallWrite(data) => Write(s, data).s
  }

  function Run(s: State, calls: seq<Call>): State
    decreases |calls|
  {
    if calls == [] then s else Run(Do(s, calls[0]), calls[1..])
  }

  // ----- What a trace adds up to -----

  /** The payload bytes of a trace. */
  datatype Account = Account(
    routed: seq<byte>,        // payloads of the WRTEs taken from the channel
    kept: seq<byte>,          // those of them that were acknowledged
    handed: seq<byte>,        // bytes given to the caller
    due: seq<byte>,           // payload of the latest WRTE taken
    dataIn: nat,              // WRTEs taken
    acksOut: nat,             // OKAYs sent
    acksLost: nat)            // OKAYs that could not be sent

  function Credit(t: Account, a: Action): Account {
    match a
    case Recv(m, _) =>
      if m.command == A_WRTE then t.(routed := t.routed + m.data, due := m.data, dataIn := t.dataIn + 1) else t
    case Sent(m) =>
      if m.command == A_OKAY then t.(kept := t.kept + t.due, acksOut := t.acksOut + 1) else t
    case SendFailed(m, _) =>
      if m.command == A_OKAY then t.(acksLost := t.acksLost + 1) else t
    case Gave(data) => t.(handed := t.handed + data)
    case GaveUp(_) => t
    case HungUp(_) => t
  }

  function Sum(trace: seq<Action>): Account {
    if trace == [] then Account([], [], [], [], 0, 0, 0) else Credit(Sum(trace[..|trace| - 1]), trace[|trace| - 1])
  }

  lemma SumSnoc(trace: seq<Action>, a: Action)
    ensures Sum(trace + [a]) == Credit(Sum(trace), a)
  {
    assert (trace + [a])[..|trace|] == trace;
  }

  /** The pacing of a trace's writes. */
  datatype Pace = Pace(
    chunks: seq<seq<byte>>,   // payloads of the WRTEs sent
    acksIn: nat,              // OKAYs taken
    swallowed: nat,           // OKAYs taken by a read
    abandoned: nat,           // writes that gave up on their OKAY and left the stream open
    peak: int,                // most WRTEs ever unanswered
    honest: bool)             // no OKAY ever came without a WRTE to answer
  {
    function Unanswered(): int { |chunks| - acksIn }
  }

  function Advance(t: Pace, a: Action): Pace {
    match a
    case Recv(m, writing) =>
      if m.command == A_OKAY then
        t.(acksIn := t.acksIn + 1,
           swallowed := if writing then t.swallowed else t.swallowed + 1,
           honest := t.honest && t.acksIn < |t.chunks|)
      else
        t
    case Sent(m) =>
      if m.command == A_WRTE then
        t.(chunks := t.chunks + [m.data], peak := Max(t.peak, t.Unanswered() + 1))
      else
        t
    case SendFailed(m, writing) =>
      if m.command == A_OKAY && writing then t.(abandoned := t.abandoned + 1) else t
    case Gave(_) => t
    case GaveUp(writing) => if writing then t.(abandoned := t.abandoned + 1) else t
    case HungUp(_) => t
  }

  function Paced(trace: seq<Action>): Pace {
    if trace == [] then Pace([], 0, 0, 0, 0, true) else Advance(Paced(trace[..|trace| - 1]), trace[|trace| - 1])
  }

  lemma PacedSnoc(trace: seq<Action>, a: Action)
    ensures Paced(trace + [a]) == Advance(Paced(trace), a)
  {
    assert (trace + [a])[..|trace|] == trace;
  }

  /** The payloads still waiting in the channel. */
  function Arrivals(events: seq<Event>): seq<byte> {
    if events == [] then []
    else (if events[0].Msg? && events[0].m.command == A_WRTE then events[0].m.data else []) + Arrivals(events[1..])
  }

  // ----- Conservation -----

  /** `all` is everything that was ever routed to the stream. */
  ghost predicate Conserved(s: State, all: seq<byte>) {
    var t := Sum(s.trace);
    && t.kept == t.handed + s.unread
    && t.dataIn == t.acksOut + t.acksLost
    && (t.acksLost == 0 ==> t.kept == t.routed)
    && t.routed + Arrivals(s.incoming) == all
  }

  ghost predicate Answers(e: Event, a: Action) {
    match e
    case Msg(m) => a.Recv? && a.m == m
    case Timeout => a.GaveUp?
    case Hangup => a.HungUp?
  }

  lemma ArrivalsSkip(events: seq<Event>)
    ensures events != [] && !(events[0].Msg? && events[0].m.command == A_WRTE) ==>
              Arrivals(events) == Arrivals(Tail(events))
  {
    if events != [] {
      assert [] + Arrivals(events[1..]) == Arrivals(events[1..]);
    }
  }

  /** Taking anything but a WRTE moves no payload. */
  lemma PopConserves(s: State, a: Action, all: seq<byte>)
    requires Conserved(s, all) && !s.closed
    requires Answers(NextEvent(s), a) && (a.Recv? ==> a.m.command != A_WRTE)
    ensures Conserved(Pop(s, a), all) && Conserved(Pop(s, a).(closed := true), all)
  {
    SumSnoc(s.trace, a);
    ArrivalsSkip(s.incoming);
  }

  /** Taking a WRTE keeps its payload if and only if the OKAY could be sent. */
  lemma AcceptConserves(s: State, m: Message, writing: bool, all: seq<byte>)
    requires Conserved(s, all) && !s.closed
    requires NextEvent(s) == Msg(m) && m.command == A_WRTE
    ensures var s1 := Pop(s, Recv(m, writing)); var ack := Send(s1, OkayMessage(s1), writing);
            && !ack.s.closed
            && Conserved(if ack.r.Ok? then ack.s.(unread := s.unread + m.data) else ack.s, all)
  {
    var s1 := Pop(s, Recv(m, writing));
    var t := Sum(s.trace);
    SumSnoc(s.trace, Recv(m, writing));
    SumSnoc(s1.trace, Sent(OkayMessage(s1)));
    SumSnoc(s1.trace, SendFailed(OkayMessage(s1), writing));
    assert (t.routed + m.data) + Arrivals(s.incoming[1..]) == t.routed + Arrivals(s.incoming);
    assert (t.handed + s.unread) + m.data == t.handed + (s.unread + m.data);
  }

  lemma {:induction false} ReceiveConserves(s: State, all: seq<byte>)
    requires Conserved(s, all) && !s.closed && s.unread == []
    ensures Conserved(Receive(s).s, all)
    ensures Receive(s).r == Ok(true) ==> !Receive(s).s.closed
    decreases |s.incoming|
  {
    match NextEvent(s) {
      case Timeout => PopConserves(s, GaveUp(false), all);
      case Hangup => PopConserves(s, HungUp(false), all);
      case Msg(m) =>
        if m.command == A_WRTE {
          AcceptConserves(s, m, false, all);
          assert [] + m.data == m.data;
        } else {
          PopConserves(s, Recv(m, false), all);
          if m.command != A_CLSE {
            ReceiveConserves(Pop(s, Recv(m, false)), all);
          }
        }
    }
  }

  lemma {:induction false} AwaitConserves(s: State, k: nat, all: seq<byte>)
    requires Conserved(s, all) && !s.closed
    ensures Conserved(AwaitOkay(s, k).s, all)
    decreases |s.incoming|
  {
    match NextEvent(s) {
      case Timeout => PopConserves(s, GaveUp(true), all);
      case Hangup => PopConserves(s, HungUp(true), all);
      case Msg(m) =>
        var s1 := Pop(s, Recv(m, true));
        if m.command == A_WRTE {
          AcceptConserves(s, m, true, all);
          var ack := Send(s1, OkayMessage(s1), true);
          if ack.r.Ok? {
            AwaitConserves(ack.s.(unread := s.unread + m.data), k, all);
          }
        } else {
          PopConserves(s, Recv(m, true), all);
          if m.command != A_CLSE && m.command != A_OKAY {
            AwaitConserves(s1, k, all);
          }
        }
    }
  }

  lemma GiveConserves(s: State, n: nat, all: seq<byte>)
    requires Conserved(s, all) && !s.closed
    ensures Conserved(Give(s, n).s, all)
  {
    var k := Min(n, |s.unread|);
    SumSnoc(s.trace, Gave(s.unread[..k]));
    assert s.unread == s.unread[..k] + s.unread[k..];
    assert Sum(s.trace).handed + (s.unread[..k] + s.unread[k..]) == (Sum(s.trace).handed + s.unread[..k]) + s.unread[k..];
  }

  lemma ReadConserves(s: State, n: nat, all: seq<byte>)
    requires Conserved(s, all) && !s.closed
    ensures Conserved(Read(s, n).s, all)
  {
    if s.unread != [] {
      GiveConserves(s, n, all);
    } else {
      ReceiveConserves(s, all);
      if Receive(s).r == Ok(true) {
        GiveConserves(Receive(s).s, n, all);
      }
    }
  }

  /** Sending a WRTE moves no payload either way. */
  lemma SendConserves(s: State, m: Message, all: seq<byte>)
    requires Conserved(s, all) && m.command == A_WRTE
    ensures Conserved(Send(s, m, true).s, all)
  {
    SumSnoc(s.trace, Sent(m));
    SumSnoc(s.trace, SendFailed(m, true));
  }

  lemma CallConserves(s: State, c: Call, all: seq<byte>)
    requires Conserved(s, all)
    ensures Conserved(Do(s, c), all)
  {
    if !s.closed {
      match c {
        case CallRead(n) => ReadConserves(s, n, all);
        case CallWrite(data) =>
          var m := WrteMessage(s, data[..Min(|data|, s.maxPayload)]);
          SendConserves(s, m, all);
          if Send(s, m, true).r.Ok? {
            AwaitConserves(Send(s, m, true).s, |m.data|, all);
          }
      }
    }
  }

  lemma {:induction false} RunConserves(s: State, calls: seq<Call>, all: seq<byte>)
    requires Conserved(s, all)
    ensures Conserved(Run(s, calls), all)
    decreases |calls|
  {
    if calls != [] {
      CallConserves(s, calls[0], all);
      RunConserves(Do(s, calls[0]), calls[1..], all);
    }
  }

  predicate Fresh(s: State) {
    s.unread == [] && !s.closed && s.trace == []
  }

  /**
   * Duplex conservation, over every interleaving of reads, writes and arrivals: the acknowledged
   * bytes are those handed out followed by those unread; every WRTE was answered by one OKAY unless
   * the interface refused it; and when none was refused, nothing routed to the stream is missing,
   * repeated or out of order.
   */
  lemma DuplexConservation(s0: State, calls: seq<Call>)
    requires Fresh(s0)
    ensures var s := Run(s0, calls); var t := Sum(s.trace);
            && t.kept == t.handed + s.unread
            && t.dataIn == t.acksOut + t.acksLost
            && (t.acksLost == 0 ==> t.handed + s.unread + Arrivals(s.incoming) == Arrivals(s0.incoming))
  {
    assert [] + Arrivals(s0.incoming) == Arrivals(s0.incoming);
    RunConserves(s0, calls, Arrivals(s0.incoming));
  }

  /** A reply and CLSE that both arrive while a write waits leave the reply unreadable. */
  lemma WriteCanStrand(b: byte, n: nat)
    ensures var reply := Message(A_WRTE, 9, 1, [b]);
            var s0 := State(1, 9, 4096, [], false, [Msg(reply), Msg(Message(A_CLSE, 9, 1, []))], [], []);
            var s := Run(s0, [CallWrite([b])]);
            s.unread == [b] && Read(s, n).r == Ok([]) && Sum(s.trace).kept == [b] && Sum(s.trace).handed == []
  {
    var reply, close := Message(A_WRTE, 9, 1, [b]), Message(A_CLSE, 9, 1, []);
    var s0 := State(1, 9, 4096, [], false, [Msg(reply), Msg(close)], [], []);
    assert [b][..1] == [b];
    var s1 := Send(s0, WrteMessage(s0, [b]), true).s;
    var s2 := Send(Pop(s1, Recv(reply, true)), OkayMessage(s1), true).s.(unread := [b]);
    assert s1.unread + [b] == [b];
    assert AwaitOkay(s1, 1) == AwaitOkay(s2, 1);
    assert NextEvent(s2) == Msg(close);
    var s := Pop(s2, Recv(close, true)).(closed := true);
    assert Run(s0, [CallWrite([b])]) == Run(s, []);
    SumSnoc(s0.trace, Sent(WrteMessage(s0, [b])));
    SumSnoc(s1.trace, Recv(reply, true));
    SumSnoc(Pop(s1, Recv(reply, true)).trace, Sent(OkayMessage(s1)));
    SumSnoc(s2.trace, Recv(close, true));
    assert [] + [b] == [b];
  }

  // ----- Stop-and-wait -----

  /** The device answers each WRTE once and no write gave up on its answer. */
  predicate FairSoFar(t: Pace) {
    t.honest && t.abandoned == 0
  }

  /** Between calls. */
  ghost predicate Settled(trace: seq<Action>, closed: bool) {
    var t := Paced(trace);
    FairSoFar(t) ==> t.swallowed == 0 && t.peak <= 1 && 0 <= t.Unanswered() <= 1 && (!closed ==> t.Unanswered() == 0)
  }

  /** While a write waits for its OKAY, `bad` writes having been abandoned before it. */
  ghost predicate Waiting(trace: seq<Action>, bad: nat) {
    var t := Paced(trace);
    && t.abandoned == bad
    && (FairSoFar(t) ==> t.swallowed == 0 && t.peak <= 1 && t.Unanswered() == 1)
  }

  /** After a write that had sent its WRTE. */
  ghost predicate Concluded(trace: seq<Action>, closed: bool, ok: bool, bad: nat) {
    var t := Paced(trace);
    && Settled(trace, closed)
    && (bad == 0 && t.honest && !closed ==>
          if ok then t.abandoned == 0 && t.Unanswered() == 0 else t.abandoned == 1 && t.Unanswered() == 1)
  }

  /** A read's receive on a settled stream. */
  lemma TakeSettles(s: State, a: Action)
    requires Settled(s.trace, false) && Answers(NextEvent(s), a) && !a.writing
    ensures Settled(Pop(s, a).trace, false) && Settled(Pop(s, a).trace, true)
  {
    PacedSnoc(s.trace, a);
  }

  lemma AckSettles(s: State)
    requires Settled(s.trace, false)
    ensures Settled(Send(s, OkayMessage(s), false).s.trace, false)
  {
    PacedSnoc(s.trace, Sent(OkayMessage(s)));
    PacedSnoc(s.trace, SendFailed(OkayMessage(s), false));
  }

  lemma {:induction false} ReceiveSettles(s: State)
    requires Settled(s.trace, false) && !s.closed
    ensures Settled(Receive(s).s.trace, Receive(s).s.closed)
    decreases |s.incoming|
  {
    match NextEvent(s) {
      case Timeout => TakeSettles(s, GaveUp(false));
      case Hangup => TakeSettles(s, HungUp(false));
      case Msg(m) =>
        TakeSettles(s, Recv(m, false));
        if m.command == A_WRTE {
          AckSettles(Pop(s, Recv(m, false)));
        } else if m.command != A_CLSE {
          ReceiveSettles(Pop(s, Recv(m, false)));
        }
    }
  }

  /** An awaiting write's receive. */
  lemma TakeAwaits(s: State, a: Action, bad: nat)
    requires Waiting(s.trace, bad) && Answers(NextEvent(s), a) && a.writing
    ensures var trace := Pop(s, a).trace;
            && Settled(trace, true)
            && (a.GaveUp? ==> Concluded(trace, false, false, bad))
            && (a.Recv? && a.m.command == A_OKAY ==> Concluded(trace, false, true, bad))
            && (a.Recv? && a.m.command != A_OKAY ==> Waiting(trace, bad))
  {
    PacedSnoc(s.trace, a);
  }

  /** Its acknowledgement of data that came meanwhile. */
  lemma AckAwaits(s: State, bad: nat)
    requires Waiting(s.trace, bad)
    ensures var ack := Send(s, OkayMessage(s), true);
            if ack.r.Ok? then Waiting(ack.s.trace, bad) else Concluded(ack.s.trace, false, false, bad)
  {
    PacedSnoc(s.trace, Sent(OkayMessage(s)));
    PacedSnoc(s.trace, SendFailed(OkayMessage(s), true));
  }

  lemma {:induction false} AwaitConcludes(s: State, k: nat, bad: nat)
    requires Waiting(s.trace, bad) && !s.closed
    ensures var st := AwaitOkay(s, k); Concluded(st.s.trace, st.s.closed, st.r.Ok?, bad)
    decreases |s.incoming|
  {
    match NextEvent(s) {
      case Timeout => TakeAwaits(s, GaveUp(true), bad);
      case Hangup => TakeAwaits(s, HungUp(true), bad);
      case Msg(m) =>
        TakeAwaits(s, Recv(m, true), bad);
        var s1 := Pop(s, Recv(m, true));
        if m.command == A_WRTE {
          AckAwaits(s1, bad);
          var ack := Send(s1, OkayMessage(s1), true);
          if ack.r.Ok? {
            AwaitConcludes(ack.s.(unread := s.unread + m.data), k, bad);
          }
        } else if m.command != A_CLSE && m.command != A_OKAY {
          AwaitConcludes(s1, k, bad);
        }
    }
  }

  /** Whether the interface takes the WRTE of `Write(s, data)`. */
  function SendsChunk(s: State, data: seq<byte>): (r: Step<()>) {
    Send(s, WrteMessage(s, data[..Min(|data|, s.maxPayload)]), true)
  }

  lemma WriteConcludes(s: State, data: seq<byte>)
    requires Settled(s.trace, s.closed)
    ensures var st := Write(s, data);
            && Settled(st.s.trace, st.s.closed)
            && (!s.closed && SendsChunk(s, data).r.Ok? ==>
                  Concluded(st.s.trace, st.s.closed, st.r.Ok?, Paced(s.trace).abandoned))
            && (!s.closed && SendsChunk(s, data).r.Err? ==> st.r.Err? && Paced(st.s.trace) == Paced(s.trace))
  {
    if !s.closed {
      var m := WrteMessage(s, data[..Min(|data|, s.maxPayload)]);
      PacedSnoc(s.trace, Sent(m));
      PacedSnoc(s.trace, SendFailed(m, true));
      if SendsChunk(s, data).r.Ok? {
        AwaitConcludes(SendsChunk(s, data).s, |m.data|, Paced(s.trace).abandoned);
      }
    }
  }

  lemma ReadSettles(s: State, n: nat)
    requires Settled(s.trace, s.closed)
    ensures Settled(Read(s, n).s.trace, Read(s, n).s.closed)
  {
    if !s.closed {
      PacedSnoc(s.trace, Gave(s.unread[..Min(n, |s.unread|)]));
      if s.unread == [] {
        ReceiveSettles(s);
        var got := Receive(s).s;
        PacedSnoc(got.trace, Gave(got.unread[..Min(n, |got.unread|)]));
      }
    }
  }

  lemma {:induction false} RunSettles(s: State, calls: seq<Call>)
    requires Settled(s.trace, s.closed)
    ensures Settled(Run(s, calls).trace, Run(s, calls).closed)
    decreases |calls|
  {
    if calls != [] {
      match calls[0] {
        case CallRead(n) => ReadSettles(s, n);
        case CallWrite(data) => WriteConcludes(s, data);
      }
      RunSettles(Do(s, calls[0]), calls[1..]);
    }
  }

  /**
   * Stop-and-wait: against a device that sends one OKAY per WRTE, and as long as no write gave up on
   * its OKAY, there is never more than one unanswered WRTE, none between calls on an open stream,
   * and no read takes an OKAY.
   */
  lemma StopAndWait(s0: State, calls: seq<Call>)
    requires Fresh(s0)
    ensures var s := Run(s0, calls); var t := Paced(s.trace);
            t.honest && t.abandoned == 0 ==>
              t.peak <= 1 && t.swallowed == 0 && (!s.closed ==> |t.chunks| == t.acksIn)
  {
    RunSettles(s0, calls);
  }

  /**
   * One write on a settled stream that stays open leaves nothing unanswered if and only if it returns Ok
   * or its WRTE was never sent; and an unanswered one is an abandoned one.
   */
  lemma WriteSettles(s0: State, calls: seq<Call>, data: seq<byte>)
    requires Fresh(s0)
    ensures var s := Run(s0, calls); var st := Write(s, data); var t := Paced(st.s.trace);
            FairSoFar(Paced(s.trace)) && t.honest && !st.s.closed ==>
              && (t.Unanswered() == 0 <==> st.r.Ok? || SendsChunk(s, data).r.Err?)
              && (t.Unanswered() == 0 <==> t.abandoned == 0)
  {
    RunSettles(s0, calls);
    WriteConcludes(Run(s0, calls), data);
  }

  /**
   * After a write timed out the guarantee is gone: the late OKAY is taken for the next WRTE's, whose
   * write returns Ok although it was never answered.
   */
  lemma LateOkayAnswersTheWrongWrite(a: byte, b: byte)
    ensures var s0 := State(1, 9, 4096, [], false, [Timeout, Msg(Message(A_OKAY, 9, 1, []))], [], []);
            var s1 := Run(s0, [CallWrite([a])]);
            var second := Write(s1, [b]); var t := Paced(second.s.trace);
            t.honest && second.r == Ok(1) && t.chunks == [[a], [b]] && t.acksIn == 1 && t.peak == 2
  {
    var okay := Message(A_OKAY, 9, 1, []);
    var s0 := State(1, 9, 4096, [], false, [Timeout, Msg(okay)], [], []);
    assert [a][..1] == [a] && [b][..1] == [b];
    var sent := Send(s0, WrteMessage(s0, [a]), true).s;
    var s1 := Pop(sent, GaveUp(true));
    assert Run(s0, [CallWrite([a])]) == Run(s1, []);
    PacedSnoc(s0.trace, Sent(WrteMessage(s0, [a])));
    PacedSnoc(sent.trace, GaveUp(true));
    var s2 := Send(s1, WrteMessage(s1, [b]), true).s;
    PacedSnoc(s1.trace, Sent(WrteMessage(s1, [b])));
    assert NextEvent(s2) == Msg(okay);
    PacedSnoc(s2.trace, Recv(okay, true));
    assert [[a]] + [[b]] == [[a], [b]];
  }
}

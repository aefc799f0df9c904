/** Exactly when stop-and-wait flow control holds: what must lie ahead of a write. */
module StreamPacing {
  import opened Bytes
  import opened Adb
  import opened StreamSpec
  import opened StreamRuns
  import opened StreamEnds
  import L = StreamLoops

  /** A timeout, or data that cannot be acknowledged, comes before any OKAY, CLSE or hang-up. */
  predicate GivesUpFirst(events: seq<Event>, sends: seq<SendOutcome>) {
    events == [] ||
    match events[0]
    case Timeout => true
    case Hangup => false
    case Msg(m) =>
      if m.command == A_OKAY || m.command == A_CLSE then false
      else if m.command == A_WRTE then !Takes(sends) || GivesUpFirst(events[1..], Tail(sends))
      else GivesUpFirst(events[1..], sends)
  }

  /** A write that starts now is going to send its WRTE and give up on the answer. */
  predicate WriteGivesUp(s: State) {
    !s.closed && Takes(s.sends) && GivesUpFirst(s.incoming, Tail(s.sends))
  }

  ghost function Abandoned(s: State): nat {
    Paced(s.trace).abandoned
  }

  lemma PopAbandons(s: State, a: Action)
    requires a.Recv? || a.GaveUp? || a.HungUp?
    ensures Abandoned(Pop(s, a)) == Abandoned(s) + if a == GaveUp(true) then 1 else 0
  {
    PacedSnoc(s.trace, a);
  }

  lemma AckAbandons(s: State, writing: bool)
    ensures var ack := Send(s, OkayMessage(s), writing);
            && (ack.r.Ok? <==> Takes(s.sends)) && ack.s.sends == Tail(s.sends)
            && Abandoned(ack.s) == Abandoned(s) + if writing && !Takes(s.sends) then 1 else 0
  {
    PacedSnoc(s.trace, Sent(OkayMessage(s)));
    PacedSnoc(s.trace, SendFailed(OkayMessage(s), writing));
  }

  /** Given up, closed or answered: what lies ahead decides. */
  lemma {:induction false} AwaitGivesUp(s: State, k: nat)
    requires !s.closed
    ensures var st := AwaitOkay(s, k);
            && Abandoned(st.s) == Abandoned(s) + (if GivesUpFirst(s.incoming, s.sends) then 1 else 0)
            && (GivesUpFirst(s.incoming, s.sends) <==> st.r.Err? && !st.s.closed)
    decreases |s.incoming|
  {
    match NextEvent(s) {
      case Timeout => PopAbandons(s, GaveUp(true));
      case Hangup => PopAbandons(s, HungUp(true));
      case Msg(m) =>
        var s1 := Pop(s, Recv(m, true));
        PopAbandons(s, Recv(m, true));
        if m.command == A_WRTE {
          AckAbandons(s1, true);
          var ack := Send(s1, OkayMessage(s1), true);
          if ack.r.Ok? {
            AwaitGivesUp(ack.s.(unread := s.unread + m.data), k);
          }
        } else if m.command != A_CLSE && m.command != A_OKAY {
          AwaitGivesUp(s1, k);
        }
    }
  }

  lemma {:induction false} ReceiveAbandonsNothing(s: State)
    ensures Abandoned(Receive(s).s) == Abandoned(s)
    decreases |s.incoming|
  {
    match NextEvent(s) {
      case Timeout => PopAbandons(s, GaveUp(false));
      case Hangup => PopAbandons(s, HungUp(false));
      case Msg(m) =>
        var s1 := Pop(s, Recv(m, false));
        PopAbandons(s, Recv(m, false));
        if m.command == A_WRTE {
          AckAbandons(s1, false);
        } else if m.command != A_CLSE {
          ReceiveAbandonsNothing(s1);
        }
    }
  }

  lemma GiveAbandonsNothing(s: State, n: nat)
    ensures Abandoned(Give(s, n).s) == Abandoned(s)
  {
    PacedSnoc(s.trace, Gave(s.unread[..Min(n, |s.unread|)]));
  }

  lemma ReadAbandonsNothing(s: State, n: nat)
    ensures Abandoned(Read(s, n).s) == Abandoned(s)
  {
    ReceiveAbandonsNothing(s);
    GiveAbandonsNothing(if s.unread != [] then s else Receive(s).s, n);
  }

  /** Exactly the writes that give up are abandoned. */
  lemma CallAbandons(s: State, c: Call)
    ensures Abandoned(Do(s, c)) == Abandoned(s) + if c.CallWrite? && WriteGivesUp(s) then 1 else 0
  {
    match c {
      case CallRead(n) => ReadAbandonsNothing(s, n);
      case CallWrite(data) =>
        if !s.closed {
          WriteAbandons(s, data);
        }
    }
  }

  lemma WriteAbandons(s: State, data: seq<byte>)
    requires !s.closed
    ensures var st := Write(s, data);
            && Abandoned(st.s) == Abandoned(s) + (if WriteGivesUp(s) then 1 else 0)
            && (WriteGivesUp(s) ==> st.r.Err? && !st.s.closed)
            && (st.r.Err? && !st.s.closed ==> WriteGivesUp(s) || SendsChunk(s, data).r.Err?)
  {
    var m := WrteMessage(s, data[..Min(|data|, s.maxPayload)]);
    PacedSnoc(s.trace, Sent(m));
    PacedSnoc(s.trace, SendFailed(m, true));
    var out := Send(s, m, true);
    if out.r.Ok? {
      AwaitGivesUp(out.s, |m.data|);
    }
  }

  /** No write of a run gives up. */
  predicate NoGivingUp(s: State, calls: seq<Call>)
    decreases |calls|
  {
    calls == [] || (!(calls[0].CallWrite? && WriteGivesUp(s)) && NoGivingUp(Do(s, calls[0]), calls[1..]))
  }

  lemma {:induction false} RunAbandons(s: State, calls: seq<Call>)
    ensures var s1 := Run(s, calls);
            Abandoned(s1) >= Abandoned(s) && (Abandoned(s1) == Abandoned(s) <==> NoGivingUp(s, calls))
    decreases |calls|
  {
    if calls != [] {
      CallAbandons(s, calls[0]);
      RunAbandons(Do(s, calls[0]), calls[1..]);
    }
  }

  /**
   * Exactly when one write leaves nothing unanswered on a stream that stays open, against a device that
   * answers each WRTE once: if and only if no timeout and no unsendable acknowledgement comes before the
   * answer.
   */
  lemma WriteSettlesExactly(s0: State, calls: seq<Call>, data: seq<byte>)
    requires Fresh(s0)
    ensures var s := Run(s0, calls); var st := Write(s, data); var t := Paced(st.s.trace);
            FairSoFar(Paced(s.trace)) && t.honest && !st.s.closed ==>
              (t.Unanswered() == 0 <==> !WriteGivesUp(s))
  {
    var s := Run(s0, calls);
    WriteSettles(s0, calls, data);
    if !s.closed {
      WriteAbandons(s, data);
    }
  }

  /** Honesty at the end is honesty all along. */
  lemma {:induction false} HonestBefore(trace: seq<Action>, more: seq<Action>)
    requires Paced(trace + more).honest
    ensures Paced(trace).honest
    decreases |more|
  {
    if more == [] {
      assert trace + more == trace;
    } else {
      var init, last := more[..|more| - 1], more[|more| - 1];
      assert trace + more == (trace + init) + [last];
      PacedSnoc(trace + init, last);
      HonestBefore(trace, init);
    }
  }

  lemma {:induction false} ReceiveExtends(s: State)
    ensures s.trace <= Receive(s).s.trace
    decreases |s.incoming|
  {
    if NextEvent(s).Msg? && NextEvent(s).m.command != A_WRTE && NextEvent(s).m.command != A_CLSE {
      ReceiveExtends(Pop(s, Recv(NextEvent(s).m, false)));
    }
  }

  lemma {:induction false} AwaitExtends(s: State, k: nat)
    ensures s.trace <= AwaitOkay(s, k).s.trace
    decreases |s.incoming|
  {
    if NextEvent(s).Msg? {
      var m := NextEvent(s).m;
      var s1 := Pop(s, Recv(m, true));
      if m.command == A_WRTE {
        AwaitExtends(Send(s1, OkayMessage(s1), true).s.(unread := s.unread + m.data), k);
      } else if m.command != A_CLSE && m.command != A_OKAY {
        AwaitExtends(s1, k);
      }
    }
  }

  lemma CallExtends(s: State, c: Call)
    ensures s.trace <= Do(s, c).trace
  {
    match c {
      case CallRead(n) => ReceiveExtends(s);
      case CallWrite(data) =>
        var chunk := data[..Min(|data|, s.maxPayload)];
        AwaitExtends(Send(s, WrteMessage(s, chunk), true).s, |chunk|);
    }
  }

  lemma {:induction false} RunExtends(s: State, calls: seq<Call>)
    ensures s.trace <= Run(s, calls).trace
    decreases |calls|
  {
    if calls != [] {
      CallExtends(s, calls[0]);
      RunExtends(Do(s, calls[0]), calls[1..]);
    }
  }

  /** After each call that leaves the stream open, every WRTE sent so far has been answered. */
  ghost predicate SettledThroughout(s0: State, calls: seq<Call>) {
    forall p: nat | p <= |calls| :: SettledAfter(s0, calls, p)
  }

  ghost predicate SettledAfter(s0: State, calls: seq<Call>, p: nat)
    requires p <= |calls|
  {
    var s := Run(s0, calls[..p]); !s.closed ==> Paced(s.trace).Unanswered() == 0
  }

  lemma RunSplits(s0: State, calls: seq<Call>, p: nat)
    requires p <= |calls|
    ensures Run(s0, calls) == Run(Run(s0, calls[..p]), calls[p..])
  {
    assert calls[..p] + calls[p..] == calls;
    L.RunAppend(s0, calls[..p], calls[p..]);
  }

  lemma HonestPrefix(s0: State, calls: seq<Call>, p: nat)
    requires p <= |calls| && Paced(Run(s0, calls).trace).honest
    ensures Paced(Run(s0, calls[..p]).trace).honest
  {
    RunSplits(s0, calls, p);
    var s := Run(s0, calls[..p]);
    RunExtends(s, calls[p..]);
    var end := Run(s0, calls).trace;
    assert end == s.trace + end[|s.trace|..];
    HonestBefore(s.trace, end[|s.trace|..]);
  }

  lemma {:induction false} NoGivingUpPrefix(s: State, calls: seq<Call>, p: nat)
    requires p <= |calls| && NoGivingUp(s, calls)
    ensures NoGivingUp(s, calls[..p])
    decreases p
  {
    if p > 0 {
      assert calls[..p][1..] == calls[1..][..p - 1];
      NoGivingUpPrefix(Do(s, calls[0]), calls[1..], p - 1);
    }
  }

  /** The first write that gives up. */
  lemma {:induction false} FirstGivingUp(s: State, calls: seq<Call>) returns (i: nat)
    requires !NoGivingUp(s, calls)
    ensures i < |calls| && NoGivingUp(s, calls[..i])
    ensures calls[i].CallWrite? && WriteGivesUp(Run(s, calls[..i]))
    decreases |calls|
  {
    if calls[0].CallWrite? && WriteGivesUp(s) {
      i := 0;
      assert calls[..0] == [];
    } else {
      i := FirstGivingUp(Do(s, calls[0]), calls[1..]);
      assert calls[..i + 1][1..] == calls[1..][..i];
      i := i + 1;
    }
  }

  /**
   * Over whole runs against a device that answers each WRTE once: nothing is ever left unanswered on the
   * open stream exactly if no write meets a timeout, or an acknowledgement it cannot send, before its
   * answer.
   */
  lemma StopAndWaitExactly(s0: State, calls: seq<Call>)
    requires Fresh(s0) && Paced(Run(s0, calls).trace).honest
    ensures SettledThroughout(s0, calls) <==> NoGivingUp(s0, calls)
  {
    if NoGivingUp(s0, calls) {
      forall p: nat | p <= |calls| ensures SettledAfter(s0, calls, p) {
        NoGivingUpPrefix(s0, calls, p);
        RunAbandons(s0, calls[..p]);
        HonestPrefix(s0, calls, p);
        StopAndWait(s0, calls[..p]);
      }
    } else {
      var i := FirstGivingUp(s0, calls);
      GivingUpUnsettles(s0, calls, i);
      assert !SettledAfter(s0, calls, i + 1);
    }
  }

  lemma GivingUpUnsettles(s0: State, calls: seq<Call>, i: nat)
    requires Fresh(s0) && Paced(Run(s0, calls).trace).honest
    requires i < |calls| && NoGivingUp(s0, calls[..i])
    requires calls[i].CallWrite? && WriteGivesUp(Run(s0, calls[..i]))
    ensures !SettledAfter(s0, calls, i + 1)
  {
    var s, data := Run(s0, calls[..i]), calls[i].data;
    RunAbandons(s0, calls[..i]);
    HonestPrefix(s0, calls, i);
    HonestPrefix(s0, calls, i + 1);
    RunSplits(s0, calls[..i + 1], i);
    assert calls[..i + 1][..i] == calls[..i] && calls[..i + 1][i..] == [calls[i]];
    assert Run(s, [calls[i]]) == Run(Do(s, calls[i]), []);
    WriteSettlesExactly(s0, calls[..i], data);
    WriteAbandons(s, data);
  }
}

/** What a stream can still deliver, how it ends, and what its ending leaves behind. */
module StreamEnds {
  import opened Bytes
  import opened Adb
  import opened StreamSpec
  import opened StreamRuns
  import opened StreamLoops

  // ----- What is deliverable -----

  /** The payloads ahead of the first CLSE or hang-up; timeouts and empty payloads do not end them. */
  function Deliverable(events: seq<Event>): seq<byte> {
    if events == [] then []
    else
      match events[0]
      case Timeout => Deliverable(events[1..])
      case Hangup => []
      case Msg(m) =>
        if m.command == A_WRTE then m.data + Deliverable(events[1..])
        else if m.command == A_CLSE then []
        else Deliverable(events[1..])
  }

  /** The bytes a stream holds or may yet be sent; of a closed one, those it holds. */
  function Left(s: State): seq<byte> {
    if s.closed then s.unread else s.unread + Deliverable(s.incoming)
  }

  lemma {:induction false} ReceiveLeft(s: State)
    requires !s.closed && s.unread == [] && Accepting(s)
    ensures var st := Receive(s);
            && Accepting(st.s) && Left(st.s) == Left(s)
            && (st.r.Ok? ==> st.s.closed == !st.r.value)
            && (st.r != Ok(true) ==> st.s.unread == [])
            && |st.s.incoming| <= |s.incoming| && (s.incoming != [] ==> |st.s.incoming| < |s.incoming|)
    decreases |s.incoming|
  {
    if NextEvent(s).Msg? {
      var m := NextEvent(s).m;
      if m.command != A_WRTE && m.command != A_CLSE {
        ReceiveLeft(Pop(s, Recv(m, false)));
      }
    }
  }

  lemma {:induction false} AwaitLeft(s: State, k: nat)
    requires !s.closed && Accepting(s)
    ensures Accepting(AwaitOkay(s, k).s) && Left(AwaitOkay(s, k).s) == Left(s)
    decreases |s.incoming|
  {
    if NextEvent(s).Msg? {
      var m := NextEvent(s).m;
      var s1 := Pop(s, Recv(m, true));
      if m.command == A_WRTE {
        Assoc(s.unread, m.data, Deliverable(s.incoming[1..]));
        AwaitLeft(Send(s1, OkayMessage(s1), true).s.(unread := s.unread + m.data), k);
      } else if m.command != A_CLSE && m.command != A_OKAY {
        AwaitLeft(s1, k);
      }
    }
  }

  lemma GiveLeft(s: State, n: nat)
    requires !s.closed
    ensures var st := Give(s, n); Left(s) == st.r.value + Left(st.s)
  {
    var k := Min(n, |s.unread|);
    assert s.unread == s.unread[..k] + s.unread[k..];
    Assoc(s.unread[..k], s.unread[k..], Deliverable(s.incoming));
  }

  lemma ReadLeft(s: State, n: nat)
    requires Accepting(s)
    ensures var st := Read(s, n);
            && Accepting(st.s)
            && Left(s) == (if st.r.Ok? then st.r.value else []) + Left(st.s)
            && (st.s.closed && !s.closed ==> st.s.unread == [])
  {
    if s.closed {
    } else if s.unread != [] {
      GiveLeft(s, n);
    } else {
      ReceiveLeft(s);
      if Receive(s).r == Ok(true) {
        GiveLeft(Receive(s).s, n);
      }
    }
  }

  lemma CallLeft(s: State, c: Call)
    requires Accepting(s)
    ensures Accepting(Do(s, c)) && Handed(Do(s, c)) + Left(Do(s, c)) == Handed(s) + Left(s)
  {
    match c {
      case CallRead(n) =>
        var st := Read(s, n);
        ReadLeft(s, n);
        ReadHands(s, n);
        Assoc(Handed(s), if st.r.Ok? then st.r.value else [], Left(st.s));
      case CallWrite(data) =>
        WriteSends(s, data);
        if !s.closed {
          var out := Send(s, WrteMessage(s, data[..Min(|data|, s.maxPayload)]), true).s;
          AwaitLeft(out, Min(|data|, s.maxPayload));
        }
    }
  }

  lemma {:induction false} RunLeft(s: State, calls: seq<Call>)
    requires Accepting(s)
    ensures var s1 := Run(s, calls); Accepting(s1) && Handed(s1) + Left(s1) == Handed(s) + Left(s)
    decreases |calls|
  {
    if calls != [] {
      CallLeft(s, calls[0]);
      RunLeft(Do(s, calls[0]), calls[1..]);
    }
  }

  /** Reading an open stream dry hands out all of it, past timeouts and empty payloads. */
  lemma {:induction false} Drain(s: State) returns (calls: seq<Call>)
    requires !s.closed && Accepting(s)
    ensures Handed(Run(s, calls)) == Handed(s) + s.unread + Deliverable(s.incoming)
    decreases |s.incoming|, |s.unread|
  {
    Assoc(Handed(s), s.unread, Deliverable(s.incoming));
    if s.incoming == [] && s.unread == [] {
      calls := [];
    } else {
      var n := |Left(s)|;
      var s1 := Read(s, n).s;
      CallLeft(s, CallRead(n));
      ReadDrains(s, n);
      calls := [CallRead(n)];
      assert Run(s, calls) == Run(s1, []);
      if !s1.closed {
        var more := Drain(s1);
        RunAppend(s, calls, more);
        calls := calls + more;
        Assoc(Handed(s1), s1.unread, Deliverable(s1.incoming));
      }
    }
  }

  /** A read with room for everything leaves nothing unread, and uses an event up unless it had unread data. */
  lemma ReadDrains(s: State, n: nat)
    requires !s.closed && Accepting(s) && n >= |Left(s)| && (s.incoming != [] || s.unread != [])
    ensures var s1 := Read(s, n).s;
            && Accepting(s1) && s1.unread == []
            && (|s1.incoming| < |s.incoming| || (|s1.incoming| == |s.incoming| && |s1.unread| < |s.unread|))
  {
    if s.unread == [] {
      ReceiveLeft(s);
    }
  }

  /**
   * Everything is deliverable but what a closing stranded: after any run on a fresh stream whose
   * acknowledgements go out, the bytes handed out are a prefix of the payloads routed to it before it was
   * closed, and further calls can complete them if and only if the stream is not closed with data unread.
   */
  lemma OpenStreamsDeliver(s0: State, calls: seq<Call>) returns (more: seq<Call>)
    requires Fresh(s0) && Accepting(s0)
    ensures var s := Run(s0, calls); var all := Deliverable(s0.incoming);
            && Handed(s) <= all
            && (!(s.closed && s.unread != []) ==> Handed(Run(s0, calls + more)) == all)
            && (s.closed && s.unread != [] ==> forall others :: Handed(Run(s0, calls + others)) != all)
  {
    var s := Run(s0, calls);
    var all := Deliverable(s0.incoming);
    RunLeft(s0, calls);
    assert Handed(s0) + Left(s0) == all;
    more := [];
    if !s.closed {
      more := Drain(s);
      Assoc(Handed(s), s.unread, Deliverable(s.incoming));
    }
    RunAppend(s0, calls, more);
    if s.closed {
      forall others ensures Handed(Run(s0, calls + others)) == Handed(s) {
        RunAppend(s0, calls, others);
        ClosedStays(s, others);
      }
    }
  }

  lemma {:induction false} ClosedStays(s: State, calls: seq<Call>)
    requires s.closed
    ensures Run(s, calls) == s
    decreases |calls|
  {
    if calls != [] {
      ClosedStays(s, calls[1..]);
    }
  }

  // ----- Reading nothing -----

  /** Of the messages and timeouts that stop a read, the first is a WRTE without payload. */
  predicate EmptyNext(events: seq<Event>) {
    events != [] && events[0].Msg? &&
    var m := events[0].m;
    if m.command == A_WRTE then m.data == [] else m.command != A_CLSE && EmptyNext(events[1..])
  }

  lemma {:induction false} ReceiveEmpty(s: State)
    requires !s.closed && s.unread == [] && Accepting(s)
    ensures Receive(s).r == Ok(true) && Receive(s).s.unread == [] <==> EmptyNext(s.incoming)
    decreases |s.incoming|
  {
    if NextEvent(s).Msg? {
      var m := NextEvent(s).m;
      if m.command != A_WRTE && m.command != A_CLSE {
        ReceiveEmpty(Pop(s, Recv(m, false)));
      }
    }
  }

  /** An open stream reads as ended exactly when nothing is unread and a WRTE without payload comes next. */
  lemma EmptyPayloadLooksLikeTheEnd(s: State, n: nat)
    requires !s.closed && Accepting(s) && n > 0
    ensures Read(s, n).r == Ok([]) && !Read(s, n).s.closed <==> s.unread == [] && EmptyNext(s.incoming)
  {
    if s.unread == [] {
      ReceiveEmpty(s);
      ReceiveLeft(s);
    }
  }

  // ----- Closing with data unread -----

  predicate Stranded(s: State) {
    s.closed && s.unread != []
  }

  /** CLSE or a hang-up comes before any OKAY or timeout, and the data before it can be acknowledged. */
  predicate ClosesFirst(events: seq<Event>, sends: seq<SendOutcome>) {
    events != [] &&
    match events[0]
    case Timeout => false
    case Hangup => true
    case Msg(m) =>
      if m.command == A_OKAY then false
      else if m.command == A_CLSE then true
      else if m.command == A_WRTE then Takes(sends) && ClosesFirst(events[1..], Tail(sends))
      else ClosesFirst(events[1..], sends)
  }

  predicate Takes(sends: seq<SendOutcome>) {
    sends == [] || sends[0].Accepted?
  }

  /** A write that starts now is going to strand data. */
  predicate WriteStrands(s: State) {
    && !s.closed && Takes(s.sends) && ClosesFirst(s.incoming, Tail(s.sends))
    && s.unread + Deliverable(s.incoming) != []
  }

  lemma {:induction false} AwaitCloses(s: State, k: nat)
    requires !s.closed
    ensures var s1 := AwaitOkay(s, k).s;
            && (s1.closed <==> ClosesFirst(s.incoming, s.sends))
            && (s1.closed ==> s1.unread == s.unread + Deliverable(s.incoming))
    decreases |s.incoming|
  {
    if NextEvent(s).Msg? {
      var m := NextEvent(s).m;
      var s1 := Pop(s, Recv(m, true));
      if m.command == A_WRTE {
        var ack := Send(s1, OkayMessage(s1), true);
        if ack.r.Ok? {
          AwaitCloses(ack.s.(unread := s.unread + m.data), k);
          Assoc(s.unread, m.data, Deliverable(s.incoming[1..]));
        }
      } else if m.command != A_CLSE && m.command != A_OKAY {
        AwaitCloses(s1, k);
      }
    }
  }

  lemma {:induction false} ReceiveStrandsNothing(s: State)
    requires !s.closed && s.unread == []
    ensures !Stranded(Receive(s).s) && (Receive(s).r == Ok(true) ==> !Receive(s).s.closed)
    decreases |s.incoming|
  {
    if NextEvent(s).Msg? {
      var m := NextEvent(s).m;
      if m.command != A_WRTE && m.command != A_CLSE {
        ReceiveStrandsNothing(Pop(s, Recv(m, false)));
      }
    }
  }

  /** Exactly when one call leaves data unreadable: it is a write, and the closing is ahead of its OKAY. */
  lemma CallStrands(s: State, c: Call)
    ensures Stranded(Do(s, c)) <==> Stranded(s) || (c.CallWrite? && WriteStrands(s))
  {
    if !s.closed {
      match c {
        case CallRead(n) =>
          if s.unread == [] {
            ReceiveStrandsNothing(s);
          }
        case CallWrite(data) =>
          var out := Send(s, WrteMessage(s, data[..Min(|data|, s.maxPayload)]), true);
          if out.r.Ok? {
            AwaitCloses(out.s, Min(|data|, s.maxPayload));
          }
      }
    }
  }

  /**
   * Over whole runs: a stream is closed with acknowledged data unread exactly when some call was a write
   * with the closing ahead of its OKAY; and a closed stream only ever reads as ended.
   */
  lemma {:induction false} OnlyWritesStrand(s: State, calls: seq<Call>, n: nat)
    requires !Stranded(s)
    ensures var s1 := Run(s, calls);
            && (s1.closed ==> Read(s1, n) == Step(s1, Ok([])))
            && (Stranded(s1) <==>
                  exists i :: 0 <= i < |calls| && calls[i].CallWrite? && WriteStrands(Run(s, calls[..i])))
    decreases |calls|
  {
    if calls != [] {
      var s2, rest := Do(s, calls[0]), calls[1..];
      CallStrands(s, calls[0]);
      assert calls[..0] == [];
      forall i | 0 <= i < |rest| ensures Run(s, calls[..i + 1]) == Run(s2, rest[..i]) {
        assert calls[..i + 1][1..] == rest[..i];
      }
      if Stranded(s2) {
        ClosedStays(s2, rest);
        assert WriteStrands(Run(s, calls[..0]));
      } else {
        OnlyWritesStrand(s2, rest, n);
        if Stranded(Run(s, calls)) {
          var i :| 0 <= i < |rest| && rest[i].CallWrite? && WriteStrands(Run(s2, rest[..i]));
          assert calls[i + 1].CallWrite? && WriteStrands(Run(s, calls[..i + 1]));
        }
        if i :| 0 <= i < |calls| && calls[i].CallWrite? && WriteStrands(Run(s, calls[..i])) {
          assert i > 0;
          assert rest[i - 1].CallWrite? && WriteStrands(Run(s2, rest[..i - 1]));
        }
      }
    }
  }
}

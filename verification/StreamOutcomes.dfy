/** What the calls on a stream answer, told from the scripts ahead of them alone. */
module StreamOutcomes {
  import opened Bytes
  import opened Adb
  import opened StreamSpec
  import opened StreamEnds

  /** The first event a read does not pass over. */
  function FirstSignal(events: seq<Event>): Event {
    if events == [] then Timeout
    else if events[0].Msg? && events[0].m.command != A_WRTE && events[0].m.command != A_CLSE then FirstSignal(events[1..])
    else events[0]
  }

  lemma {:induction false} ReceiveTells(s: State)
    requires !s.closed
    ensures var got, e := Receive(s), FirstSignal(s.incoming);
            match e
            case Timeout => got.r == Err(TimedOut) && !got.s.closed && got.s.unread == s.unread
            case Hangup => got.r == Err(ConnectionReset) && got.s.closed
            case Msg(m) =>
              if m.command == A_CLSE then got.r == Ok(false) && got.s.closed
              else if Takes(s.sends) then got.r == Ok(true) && !got.s.closed && got.s.unread == m.data
              else got.r == Err(s.sends[0].error) && !got.s.closed && got.s.unread == s.unread
    decreases |s.incoming|
  {
    if NextEvent(s).Msg? && NextEvent(s).m.command != A_WRTE && NextEvent(s).m.command != A_CLSE {
      ReceiveTells(Pop(s, Recv(NextEvent(s).m, false)));
    }
  }

  /**
   * What a read answers.  Unread data comes first; then the first WRTE, CLSE, timeout or hang-up decides: as
   * much of its data as fits, the end of the stream, or an error of that kind, or the refusal of its
   * acknowledgement.
   */
  lemma ReadTells(s: State, n: nat)
    ensures s.closed ==> Read(s, n).r == Ok([])
    ensures !s.closed && s.unread != [] ==> Read(s, n).r == Ok(s.unread[..Min(n, |s.unread|)])
    ensures !s.closed && s.unread == [] ==>
              Read(s, n).r ==
                match FirstSignal(s.incoming)
                case Timeout => Err(TimedOut)
                case Hangup => Err(ConnectionReset)
                case Msg(m) =>
                  if m.command == A_CLSE then Ok([])
                  else if Takes(s.sends) then Ok(m.data[..Min(n, |m.data|)])
                  else Err(s.sends[0].error)
  {
    if !s.closed && s.unread == [] {
      ReceiveTells(s);
    }
  }

  /** How the waiting for an OKAY ends. */
  function Reply(events: seq<Event>, sends: seq<SendOutcome>): IoResult<()> {
    if events == [] then Err(TimedOut)
    else
      match events[0]
      case Timeout => Err(TimedOut)
      case Hangup => Err(ConnectionReset)
      case Msg(m) =>
        if m.command == A_OKAY then Ok(())
        else if m.command == A_CLSE then Err(BrokenPipe)
        else if m.command != A_WRTE then Reply(events[1..], sends)
        else if Takes(sends) then Reply(events[1..], Tail(sends))
        else Err(sends[0].error)
  }

  lemma {:induction false} AwaitTells(s: State, k: nat)
    ensures AwaitOkay(s, k).r == (if Reply(s.incoming, s.sends).Ok? then Ok(k) else Err(Reply(s.incoming, s.sends).error))
    decreases |s.incoming|
  {
    if NextEvent(s).Msg? {
      var m := NextEvent(s).m;
      var s1 := Pop(s, Recv(m, true));
      if m.command == A_WRTE {
        var ack := Send(s1, OkayMessage(s1), true);
        AwaitTells(ack.s.(unread := s.unread + m.data), k);
      } else if m.command != A_CLSE && m.command != A_OKAY {
        AwaitTells(s1, k);
      }
    }
  }

  /**
   * What a write answers: a closed stream is a broken pipe; then the refusal of its WRTE; then the number of
   * bytes in that WRTE if an OKAY comes first, and else an error that names what came instead.
   */
  lemma WriteTells(s: State, buf: seq<byte>)
    ensures s.closed ==> Write(s, buf).r == Err(BrokenPipe)
    ensures !s.closed && !Takes(s.sends) ==> Write(s, buf).r == Err(s.sends[0].error)
    ensures !s.closed && Takes(s.sends) ==>
              var reply := Reply(s.incoming, Tail(s.sends));
              Write(s, buf).r == if reply.Ok? then Ok(Min(|buf|, s.maxPayload)) else Err(reply.error)
  {
    if !s.closed && Takes(s.sends) {
      var m := WrteMessage(s, buf[..Min(|buf|, s.maxPayload)]);
      AwaitTells(Send(s, m, true).s, |m.data|);
    }
  }

  /** What std's loops make of that: a limit of zero is a write of zero bytes, and an end too early is an error. */
  lemma LoopsTell(s: State, buf: seq<byte>, n: nat)
    requires buf != [] && n > 0
    ensures WriteAll(s, buf).r ==
              var part := Write(s, buf).r;
              if part.Err? then Err(part.error)
              else if s.maxPayload == 0 then Err(WriteZero)
              else WriteAll(Write(s, buf).s, buf[Min(|buf|, s.maxPayload)..]).r
    ensures Read(s, n).r == Ok([]) ==> ReadExact(s, n).r == Err(UnexpectedEof)
    ensures Read(s, n).r.Err? ==> ReadExact(s, n).r == Err(Read(s, n).r.error)
  {
    WriteTells(s, buf);
    WriteCount(s, buf);
  }
}

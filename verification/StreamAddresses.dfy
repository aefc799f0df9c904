/** What a stream puts on the wire: whom its messages name, and what it says when it is dropped. */
module StreamAddresses {
  import opened Bytes
  import opened Adb
  import opened StreamSpec
  import opened StreamRuns

  /** A message of the stream `local` to the device's stream `remote`: data within the limit, or an acknowledgement. */
  predicate Speaks(m: Message, local: u32, remote: u32, max: nat) {
    && m.arg0 == local && m.arg1 == remote
    && ((m.command == A_WRTE && |m.data| <= max) || (m.command == A_OKAY && m.data == []))
  }

  /** Every message it sent, or tried to send, is of that kind. */
  ghost predicate Addressed(trace: seq<Action>, local: u32, remote: u32, max: nat) {
    forall a <- trace :: a.Sent? || a.SendFailed? ==> Speaks(a.m, local, remote, max)
  }

  ghost predicate WellAddressed(s: State, local: u32, remote: u32, max: nat) {
    s.localId == local && s.remoteId == remote && s.maxPayload == max && Addressed(s.trace, local, remote, max)
  }

  lemma SendIsAddressed(s: State, m: Message, writing: bool)
    requires WellAddressed(s, s.localId, s.remoteId, s.maxPayload) && Speaks(m, s.localId, s.remoteId, s.maxPayload)
    ensures WellAddressed(Send(s, m, writing).s, s.localId, s.remoteId, s.maxPayload)
  {
  }

  lemma {:induction false} ReceiveIsAddressed(s: State)
    requires WellAddressed(s, s.localId, s.remoteId, s.maxPayload)
    ensures WellAddressed(Receive(s).s, s.localId, s.remoteId, s.maxPayload)
    decreases |s.incoming|
  {
    if NextEvent(s).Msg? {
      var m := NextEvent(s).m;
      var s1 := Pop(s, Recv(m, false));
      if m.command == A_WRTE {
        SendIsAddressed(s1, OkayMessage(s1), false);
      } else if m.command != A_CLSE {
        ReceiveIsAddressed(s1);
      }
    }
  }

  lemma ReadIsAddressed(s: State, n: nat)
    requires WellAddressed(s, s.localId, s.remoteId, s.maxPayload)
    ensures WellAddressed(Read(s, n).s, s.localId, s.remoteId, s.maxPayload)
  {
    ReceiveIsAddressed(s);
  }

  lemma {:induction false} AwaitIsAddressed(s: State, k: nat)
    requires WellAddressed(s, s.localId, s.remoteId, s.maxPayload)
    ensures WellAddressed(AwaitOkay(s, k).s, s.localId, s.remoteId, s.maxPayload)
    decreases |s.incoming|
  {
    if NextEvent(s).Msg? {
      var m := NextEvent(s).m;
      var s1 := Pop(s, Recv(m, true));
      if m.command == A_WRTE {
        SendIsAddressed(s1, OkayMessage(s1), true);
        var ack := Send(s1, OkayMessage(s1), true);
        if ack.r.Ok? {
          AwaitIsAddressed(ack.s.(unread := s.unread + m.data), k);
        }
      } else if m.command != A_CLSE && m.command != A_OKAY {
        AwaitIsAddressed(s1, k);
      }
    }
  }

  lemma WriteIsAddressed(s: State, buf: seq<byte>)
    requires WellAddressed(s, s.localId, s.remoteId, s.maxPayload)
    ensures WellAddressed(Write(s, buf).s, s.localId, s.remoteId, s.maxPayload)
  {
    if !s.closed {
      var m := WrteMessage(s, buf[..Min(|buf|, s.maxPayload)]);
      SendIsAddressed(s, m, true);
      AwaitIsAddressed(Send(s, m, true).s, |m.data|);
    }
  }

  lemma {:induction false} RunIsAddressed(s: State, calls: seq<Call>)
    requires WellAddressed(s, s.localId, s.remoteId, s.maxPayload)
    ensures WellAddressed(Run(s, calls), s.localId, s.remoteId, s.maxPayload)
    decreases |calls|
  {
    if calls != [] {
      match calls[0] {
        case CallRead(n) => ReadIsAddressed(s, n);
        case CallWrite(data) => WriteIsAddressed(s, data);
      }
      RunIsAddressed(Do(s, calls[0]), calls[1..]);
    }
  }

  /**
   * Over every run of calls all that is sent is data and acknowledgements that name the stream by its own
   * id and the device's stream by the id that one announced, in this order.  Dropping the stream then adds
   * exactly one CLSE between the same ends if it is still open, and nothing if it is closed.
   */
  lemma RunNamesBothEnds(s0: State, calls: seq<Call>)
    requires Fresh(s0)
    ensures Addressed(Run(s0, calls).trace, s0.localId, s0.remoteId, s0.maxPayload)
    ensures var s, m := Run(s0, calls), Message(A_CLSE, s0.localId, s0.remoteId, []);
            && Close(s).closed
            && (s.closed ==> Close(s).trace == s.trace)
            && (!s.closed ==> Close(s).trace == s.trace + [Sent(m)] || Close(s).trace == s.trace + [SendFailed(m, false)])
  {
    RunIsAddressed(s0, calls);
  }
}

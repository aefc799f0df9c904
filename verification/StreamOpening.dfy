/** Opening a stream: the OPEN that goes out, the answer awaited, and the stream that comes of it. */
module StreamOpening {
  import opened Bytes
  import opened Adb
  import opened Flash
  import opened StreamSpec
  import opened StreamEnds
  import opened UsbStreams

  /** How an OPEN is answered: with the device's id, and what is left in the channel then; or not. */
  datatype Answer = Welcome(remoteId: u32, rest: seq<Event>) | Refusal | NoAnswer | Gone

  function AnswerOf(events: seq<Event>): Answer {
    if events == [] then NoAnswer
    else
      match events[0]
      case Timeout => NoAnswer
      case Hangup => Gone
      case Msg(m) =>
        if m.command == A_OKAY then Welcome(m.arg0, events[1..])
        else if m.command == A_CLSE then Refusal
        else AnswerOf(events[1..])
  }

  /** Neither an answer nor an end of the waiting. */
  predicate IsPassedOver(e: Event) {
    e.Msg? && e.m.command != A_OKAY && e.m.command != A_CLSE
  }

  /** The first event that is not passed over is the `k`-th one. */
  predicate Decides(events: seq<Event>, k: nat) {
    k <= |events| && (forall i :: 0 <= i < k ==> IsPassedOver(events[i])) && (k < |events| ==> !IsPassedOver(events[k]))
  }

  /**
   * The first OKAY, CLSE, timeout or vanished dispatcher decides, and other messages before it are passed
   * over: an OKAY names the device's id by its first argument, and leaves all that comes behind it to the
   * stream.
   */
  lemma {:induction false} FirstAnswerDecides(events: seq<Event>) returns (k: nat)
    ensures Decides(events, k)
    ensures AnswerOf(events) ==
              if k == |events| || events[k].Timeout? then NoAnswer
              else if events[k].Hangup? then Gone
              else if events[k].m.command == A_CLSE then Refusal
              else Welcome(events[k].m.arg0, events[k + 1..])
  {
    k := 0;
    if events != [] && IsPassedOver(events[0]) {
      k := FirstAnswerDecides(events[1..]);
      assert forall i :: 0 < i <= k ==> events[i] == events[1..][i - 1] || i == k;
      assert k < |events[1..]| ==> events[k + 1] == events[1..][k] && events[k + 2..] == events[1..][k + 1..];
      k := k + 1;
    }
  }

  /** The OPEN for a service: the stream's own id, none of the device's yet, and the name with a NUL behind it. */
  function OpenMessage(localId: u32, service: seq<byte>): Message {
    Message(A_OPEN, localId, 0, service + [0])
  }

  /**
   * adb_usb_open behind the registration.  Exactly if the interface takes the OPEN and an OKAY decides, there
   * is a stream, open and without data, between the own id and the one the device announced, whose channel
   * holds what came behind that OKAY.
   */
  method AdbUsbOpen(localId: u32, maxPayload: nat, service: seq<byte>, channel: seq<Event>, sends: seq<SendOutcome>)
    returns (r: Result<UsbStream>, ghost sent: seq<Message>)
    ensures r.Success? <==> Takes(sends) && AnswerOf(channel).Welcome?
    ensures sent == if Takes(sends) then [Message(A_OPEN, localId, 0, service + [0])] else []
    ensures r.Success? ==>
              && fresh(r.value) && r.value.Valid()
              && r.value.Abs() == State(localId, AnswerOf(channel).remoteId, maxPayload, [], false,
                                        AnswerOf(channel).rest, Tail(sends), [])
  {
    sent := [];
    if sends != [] && sends[0].Refused? {
      return Failure(Protocol("bulk OUT failed")), sent;
    }
    sent := [OpenMessage(localId, service)];
    var events := channel;
    while events != []
      invariant AnswerOf(events) == AnswerOf(channel)
      decreases |events|
    {
      var e := events[0];
      events := events[1..];
      match e {
        case Timeout =>
          return Failure(Protocol("timeout waiting for OKAY after OPEN")), sent;
        case Hangup =>
          return Failure(Protocol("USB dispatcher stopped during OPEN")), sent;
        case Msg(m) =>
          if m.command == A_OKAY {
            var stream := new UsbStream(localId, m.arg0, maxPayload, events, Tail(sends));
            return Success(stream), sent;
          } else if m.command == A_CLSE {
            return Failure(Protocol("device refused to open service")), sent;
          }
      }
    }
    r := Failure(Protocol("timeout waiting for OKAY after OPEN"));
  }
}

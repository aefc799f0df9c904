/**
 * One ADB service carried over the shared USB connection, call by call.
 *
 * The functions say what one call does to the stream's state; class UsbStream performs the calls
 * in place and is proved equal to them.  What happens outside the stream is a script: for
 * every receive the event it yields, for every send whether the interface accepts it.  A property
 * of all scripts is a property of all interleavings with the dispatcher, the device and the clock.
 */
module StreamSpec {
  import opened Bytes
  import opened Adb

  datatype IoError = TimedOut | ConnectionReset | BrokenPipe | UnexpectedEof | WriteZero | Other

  datatype IoResult<+T> = Ok(value: T) | Err(error: IoError)

  /** What a receive on the stream's channel yields. */
  datatype Event = Msg(m: Message) | Timeout | Hangup

  /** What the write interface does with a message. */
  datatype SendOutcome = Accepted | Refused(error: IoError)

  /** One observable action of the stream; `writing` tells a `write` from a `read`. */
  datatype Action =
    | Recv(m: Message, writing: bool)
    | Sent(m: Message)
    | SendFailed(m: Message, writing: bool)
    | Gave(data: seq<byte>)
    | GaveUp(writing: bool)
    | HungUp(writing: bool)

  datatype State = State(
    localId: u32,
    remoteId: u32,
    maxPayload: nat,
    unread: seq<byte>,
    closed: bool,
    incoming: seq<Event>,
    sends: seq<SendOutcome>,
    trace: seq<Action>)

  datatype Step<+T> = Step(s: State, r: IoResult<T>)

  function Log(s: State, a: Action): State {
    s.(trace := s.trace + [a])
  }

  // ----- Receiving and sending one message -----

  /** A script that has run out yields timeouts. */
  function NextEvent(s: State): Event {
    if s.incoming == [] then Timeout else s.incoming[0]
  }

  function Pop(s: State, a: Action): State {
    s.(incoming := Tail(s.incoming), trace := s.trace + [a])
  }

  function Send(s: State, m: Message, writing: bool): Step<()> {
    var rest := s.(sends := Tail(s.sends));
    if s.sends == [] || s.sends[0].Accepted? then
      Step(Log(rest, Sent(m)), Ok(()))
    else
      Step(Log(rest, SendFailed(m, writing)), Err(s.sends[0].error))
  }

  function OkayMessage(s: State): Message {
    Message(A_OKAY, s.localId, s.remoteId, [])
  }

  function WrteMessage(s: State, chunk: seq<byte>): Message {
    Message(A_WRTE, s.localId, s.remoteId, chunk)
  }

  // ----- read -----

  /** Waits for data: true when a payload has become the unread data, false when the peer closed. */
  function Receive(s: State): Step<bool>
    decreases |s.incoming|
  {
    match NextEvent(s)
    case Timeout => Step(Pop(s, GaveUp(false)), Err(TimedOut))
    case Hangup => Step(Pop(s, HungUp(false)).(closed := true), Err(ConnectionReset))
    case Msg(m) =>
      var s1 := Pop(s, Recv(m, false));
      if m.command == A_WRTE then
        var ack := Send(s1, OkayMessage(s1), false);
        if ack.r.Err? then Step(ack.s, Err(ack.r.error)) else Step(ack.s.(unread := m.data), Ok(true))
      else if m.command == A_CLSE then
        Step(s1.(closed := true), Ok(false))
      else
        Receive(s1)
  }

  /** Hands out at most `n` of the unread bytes. */
  function Give(s: State, n: nat): Step<seq<byte>> {
    var k := Min(n, |s.unread|);
    Step(Log(s.(unread := s.unread[k..]), Gave(s.unread[..k])), Ok(s.unread[..k]))
  }

  function Read(s: State, n: nat): Step<seq<byte>> {
    if s.closed then
      Step(s, Ok([]))
    else if s.unread != [] then
      Give(s, n)
    else
      var got := Receive(s);
      match got.r
      case Err(e) => Step(got.s, Err(e))
      case Ok(false) => Step(got.s, Ok([]))
      case Ok(true) => Give(got.s, n)
  }

  // ----- write -----

  /** Waits for the OKAY of a WRTE of `k` bytes, keeping the data that arrives meanwhile. */
  function AwaitOkay(s: State, k: nat): Step<nat>
    decreases |s.incoming|
  {
    match NextEvent(s)
    case Timeout => Step(Pop(s, GaveUp(true)), Err(TimedOut))
    case Hangup => Step(Pop(s, HungUp(true)).(closed := true), Err(ConnectionReset))
    case Msg(m) =>
      var s1 := Pop(s, Recv(m, true));
      if m.command == A_OKAY then
        Step(s1, Ok(k))
      else if m.command == A_WRTE then
        var ack := Send(s1, OkayMessage(s1), true);
        if ack.r.Err? then Step(ack.s, Err(ack.r.error)) else AwaitOkay(ack.s.(unread := s.unread + m.data), k)
      else if m.command == A_CLSE then
        Step(s1.(closed := true), Err(BrokenPipe))
      else
        AwaitOkay(s1, k)
  }

  function Write(s: State, buf: seq<byte>): Step<nat> {
    if s.closed then
      Step(s, Err(BrokenPipe))
    else
      var chunk := buf[..Min(|buf|, s.maxPayload)];
      var out := Send(s, WrteMessage(s, chunk), true);
      if out.r.Err? then Step(out.s, Err(out.r.error)) else AwaitOkay(out.s, |chunk|)
  }

  // ----- The standard library's loops over read and write -----

  lemma ReadIsShort(s: State, n: nat)
    ensures var st := Read(s, n); st.r.Ok? ==> |st.r.value| <= n
  {
  }

  lemma {:induction false} AwaitOkayCount(s: State, k: nat)
    ensures AwaitOkay(s, k).r.Ok? ==> AwaitOkay(s, k).r.value == k
    decreases |s.incoming|
  {
    match NextEvent(s) {
      case Msg(m) =>
        var s1 := Pop(s, Recv(m, true));
        AwaitOkayCount(s1, k);
        AwaitOkayCount(Send(s1, OkayMessage(s1), true).s.(unread := s.unread + m.data), k);
      case _ =>
    }
  }

  lemma WriteCount(s: State, buf: seq<byte>)
    ensures Write(s, buf).r.Ok? ==> Write(s, buf).r.value == Min(|buf|, s.maxPayload)
  {
    var chunk := buf[..Min(|buf|, s.maxPayload)];
    AwaitOkayCount(Send(s, WrteMessage(s, chunk), true).s, |chunk|);
  }

  function Prepend(d: seq<byte>, st: Step<seq<byte>>): Step<seq<byte>> {
    Step(st.s, if st.r.Ok? then Ok(d + st.r.value) else st.r)
  }

  lemma PrependTwice(a: seq<byte>, b: seq<byte>, st: Step<seq<byte>>)
    ensures Prepend(a, Prepend(b, st)) == Prepend(a + b, st)
  {
    if st.r.Ok? {
      assert a + (b + st.r.value) == (a + b) + st.r.value;
    }
  }

  lemma PrependNothing(st: Step<seq<byte>>)
    ensures Prepend([], st) == st
  {
    if st.r.Ok? {
      assert [] + st.r.value == st.r.value;
    }
  }

  function ReadExact(s: State, n: nat): Step<seq<byte>>
    decreases n
  {
    if n == 0 then
      Step(s, Ok([]))
    else
      ReadIsShort(s, n);
      var part := Read(s, n);
      match part.r
      case Err(e) => Step(part.s, Err(e))
      case Ok(d) =>
        if d == [] then
          Step(part.s, Err(UnexpectedEof))
        else
          Prepend(d, ReadExact(part.s, n - |d|))
  }

  function WriteAll(s: State, buf: seq<byte>): Step<()>
    decreases |buf|
  {
    if buf == [] then
      Step(s, Ok(()))
    else
      WriteCount(s, buf);
      var part := Write(s, buf);
      match part.r
      case Err(e) => Step(part.s, Err(e))
      case Ok(n) => if n == 0 then Step(part.s, Err(WriteZero)) else WriteAll(part.s, buf[n..])
  }

  /** Dropping an open stream sends CLSE and ignores the outcome. */
  function Close(s: State): State {
    if s.closed then s
    else Send(s.(closed := true), Message(A_CLSE, s.localId, s.remoteId, []), false).s
  }
}

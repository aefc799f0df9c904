/** The stream object: read and write update its buffer, cursor and closed flag in place. */
module UsbStreams {
  import opened Bytes
  import opened Adb
  import opened StreamSpec
  import S = StreamSpec

  /** `got` has been read of what `whole` reads, and `k` more bytes are to come. */
  ghost predicate Filling(whole: Step<seq<byte>>, got: seq<byte>, s: State, k: nat) {
    whole == Prepend(got, S.ReadExact(s, k))
  }

  lemma FillingStarts(s: State, n: nat)
    ensures Filling(S.ReadExact(s, n), [], s, n)
  {
    PrependNothing(S.ReadExact(s, n));
  }

  lemma FillingEnds(whole: Step<seq<byte>>, got: seq<byte>, s: State)
    requires Filling(whole, got, s, 0)
    ensures whole == Step(s, Ok(got))
  {
    assert got + [] == got;
  }

  lemma FillingContinues(whole: Step<seq<byte>>, got: seq<byte>, s: State, k: nat)
    requires k > 0 && Filling(whole, got, s, k)
    ensures var part := S.Read(s, k);
            && (part.r.Err? ==> whole == Step(part.s, Err(part.r.error)))
            && (part.r.Ok? ==>
                  var d := part.r.value;
                  && |d| <= k
                  && (d == [] ==> whole == Step(part.s, Err(UnexpectedEof)))
                  && (d != [] ==> Filling(whole, got + d, part.s, k - |d|)))
  {
    ReadIsShort(s, k);
    var part := S.Read(s, k);
    if part.r.Ok? && part.r.value != [] {
      PrependTwice(got, part.r.value, S.ReadExact(part.s, k - |part.r.value|));
    }
  }

  lemma DropTwice(s: seq<byte>, i: nat, n: nat)
    requires i + n <= |s|
    ensures s[i..][n..] == s[i + n..] && s[i..][..n] == s[i..i + n]
  {
  }

  lemma DropSum(s: seq<byte>, more: seq<byte>, i: nat)
    requires i <= |s|
    ensures (s + more)[i..] == s[i..] + more
  {
  }

  class UsbStream {
    const localId: u32
    const remoteId: u32
    const maxPayload: nat
    var readBuf: seq<byte>
    var readPos: nat
    var closed: bool
    /** The stream's surroundings: what its channel will yield and what its interface will do. */
    var incoming: seq<Event>
    var sends: seq<SendOutcome>
    ghost var trace: seq<Action>

    ghost predicate Valid()
      reads this
    {
      readPos <= |readBuf|
    }

    ghost function Abs(): State
      requires Valid()
      reads this
    {
      State(localId, remoteId, maxPayload, readBuf[readPos..], closed, incoming, sends, trace)
    }

    constructor (localId: u32, remoteId: u32, maxPayload: nat, incoming: seq<Event>, sends: seq<SendOutcome>)
      ensures Valid() && Abs() == State(localId, remoteId, maxPayload, [], false, incoming, sends, [])
    {
      this.localId, this.remoteId, this.maxPayload := localId, remoteId, maxPayload;
      this.readBuf, this.readPos, this.closed := [], 0, false;
      this.incoming, this.sends, this.trace := incoming, sends, [];
    }

    /** recv_timeout on the channel. */
    method TakeEvent() returns (e: Event)
      requires Valid()
      modifies this`incoming
      ensures e == NextEvent(old(Abs())) && incoming == Tail(old(incoming))
    {
      if incoming == [] {
        e := Timeout;
      } else {
        e, incoming := incoming[0], incoming[1..];
      }
    }

    /** usb_send_message on the shared interface. */
    method Transmit(m: Message, ghost writing: bool) returns (r: IoResult<()>)
      requires Valid()
      modifies this`sends, this`trace
      ensures Step(Abs(), r) == Send(old(Abs()), m, writing)
    {
      if sends == [] || sends[0].Accepted? {
        r := Ok(());
        trace := trace + [Sent(m)];
      } else {
        r := Err(sends[0].error);
        trace := trace + [SendFailed(m, writing)];
      }
      sends := Tail(sends);
    }

    /** Fills `buf[from..]` as far as the data at hand allows. */
    method Read(buf: array<byte>, from: nat) returns (r: IoResult<nat>)
      requires Valid() && from <= buf.Length
      modifies this, buf
      ensures Valid()
      ensures var want := S.Read(old(Abs()), buf.Length - from);
              Abs() == want.s &&
              match want.r
              case Err(e) => r == Err(e) && buf[..] == old(buf[..])
              case Ok(d) => r == Ok(|d|) && from + |d| <= buf.Length && buf[..] == Overwrite(old(buf[..]), from, d)
    {
      ghost var before := buf[..];
      if closed {
        return Ok(0);
      }
      if readPos < |readBuf| {
        r := HandOut(buf, from);
        return;
      }
      ghost var start := Abs();
      while true
        invariant Valid() && readPos == |readBuf| && !closed && buf[..] == before
        invariant S.Receive(Abs()) == S.Receive(start)
        decreases |incoming|
      {
        ghost var here := Abs();
        var e := TakeEvent();
        match e {
          case Timeout =>
            trace := trace + [GaveUp(false)];
            return Err(TimedOut);
          case Hangup =>
            closed := true;
            trace := trace + [HungUp(false)];
            return Err(ConnectionReset);
          case Msg(m) =>
            trace := trace + [Recv(m, false)];
            assert Abs() == Pop(here, Recv(m, false));
            if m.command == A_WRTE {
              var ack := Transmit(Message(A_OKAY, localId, remoteId, []), false);
              if ack.Err? {
                return Err(ack.error);
              }
              readBuf, readPos := m.data, 0;
              r := HandOut(buf, from);
              return;
            } else if m.command == A_CLSE {
              closed := true;
              return Ok(0);
            }
        }
      }
    }

    /** Copies unread bytes into `buf[from..]` and drops the buffer once it is used up. */
    method HandOut(buf: array<byte>, from: nat) returns (r: IoResult<nat>)
      requires Valid() && from <= buf.Length
      modifies this`readBuf, this`readPos, this`trace, buf
      ensures Valid()
      ensures var want := Give(old(Abs()), buf.Length - from);
              Abs() == want.s && r == Ok(|want.r.value|) && from + |want.r.value| <= buf.Length &&
              buf[..] == Overwrite(old(buf[..]), from, want.r.value)
    {
      var n := Min(|readBuf| - readPos, buf.Length - from);
      var piece := readBuf[readPos..][..n];
      DropTwice(readBuf, readPos, n);
      CopyOut(piece, buf, from);
      trace := trace + [Gave(piece)];
      readPos := readPos + n;
      if readPos == |readBuf| {
        readBuf, readPos := [], 0;
      }
      r := Ok(n);
    }

    method Write(buf: seq<byte>) returns (r: IoResult<nat>)
      requires Valid()
      modifies this
      ensures Valid()
      ensures Step(Abs(), r) == S.Write(old(Abs()), buf)
    {
      if closed {
        return Err(BrokenPipe);
      }
      var chunkSize := Min(|buf|, maxPayload);
      var chunk := buf[..chunkSize];
      var out := Transmit(Message(A_WRTE, localId, remoteId, chunk), true);
      if out.Err? {
        return Err(out.error);
      }
      ghost var start := Abs();
      while true
        invariant Valid() && !closed
        invariant AwaitOkay(Abs(), chunkSize) == AwaitOkay(start, chunkSize)
        decreases |incoming|
      {
        ghost var here := Abs();
        var e := TakeEvent();
        match e {
          case Timeout =>
            trace := trace + [GaveUp(true)];
            return Err(TimedOut);
          case Hangup =>
            closed := true;
            trace := trace + [HungUp(true)];
            return Err(ConnectionReset);
          case Msg(m) =>
            trace := trace + [Recv(m, true)];
            assert Abs() == Pop(here, Recv(m, true));
            if m.command == A_OKAY {
              return Ok(chunkSize);
            } else if m.command == A_WRTE {
              var ack := Transmit(Message(A_OKAY, localId, remoteId, []), true);
              if ack.Err? {
                return Err(ack.error);
              }
              DropSum(readBuf, m.data, readPos);
              readBuf := readBuf + m.data;
            } else if m.command == A_CLSE {
              closed := true;
              return Err(BrokenPipe);
            }
        }
      }
    }

    /** One read of read_exact. */
    method FillMore(buf: array<byte>, from: nat, ghost whole: Step<seq<byte>>) returns (r: IoResult<nat>)
      requires Valid() && from < buf.Length
      requires Filling(whole, buf[..from], Abs(), buf.Length - from)
      modifies this, buf
      ensures Valid()
      ensures r.Err? ==> whole == Step(Abs(), Err(r.error))
      ensures r.Ok? ==> 0 < r.value <= buf.Length - from
      ensures r.Ok? ==> Filling(whole, buf[..from + r.value], Abs(), buf.Length - (from + r.value))
    {
      ghost var got := buf[..from];
      FillingContinues(whole, got, Abs(), buf.Length - from);
      ghost var d := S.Read(Abs(), buf.Length - from).r;
      assert got == buf[..][..from];
      r := Read(buf, from);
      if r == Ok(0) {
        r := Err(UnexpectedEof);
      }
      assert r.Ok? ==> buf[..from + r.value] == buf[..][..from + r.value] == got + d.value;
    }

    /** std::io::Read::read_exact. */
    method ReadExact(n: nat) returns (r: IoResult<seq<byte>>)
      requires Valid()
      modifies this
      ensures Valid()
      ensures Step(Abs(), r) == S.ReadExact(old(Abs()), n)
    {
      ghost var whole := S.ReadExact(Abs(), n);
      FillingStarts(Abs(), n);
      var buf := new byte[n](_ => 0);
      var filled := 0;
      assert buf[..0] == [];
      while filled < n
        invariant Valid() && fresh(buf) && buf.Length == n && filled <= n
        invariant Filling(whole, buf[..filled], Abs(), n - filled)
        decreases n - filled
      {
        var part := FillMore(buf, filled, whole);
        if part.Err? {
          return Err(part.error);
        }
        filled := filled + part.value;
      }
      assert buf[..n] == buf[..];
      FillingEnds(whole, buf[..], Abs());
      r := Ok(buf[..]);
    }

    /** std::io::Write::write_all. */
    method WriteAll(data: seq<byte>) returns (r: IoResult<()>)
      requires Valid()
      modifies this
      ensures Valid()
      ensures Step(Abs(), r) == S.WriteAll(old(Abs()), data)
    {
      ghost var start := Abs();
      var rest := data;
      while rest != []
        invariant Valid()
        invariant S.WriteAll(Abs(), rest) == S.WriteAll(start, data)
        decreases |rest|
      {
        WriteCount(Abs(), rest);
        var part := Write(rest);
        if part.Err? {
          return Err(part.error);
        }
        if part.value == 0 {
          return Err(WriteZero);
        }
        rest := rest[part.value..];
      }
      r := Ok(());
    }

    /** The destructor's half that concerns the wire. */
    method Drop()
      requires Valid()
      modifies this
      ensures Valid() && Abs() == Close(old(Abs()))
    {
      if !closed {
        closed := true;
        var _ := Transmit(Message(A_CLSE, localId, remoteId, []), false);
      }
    }
  }
}

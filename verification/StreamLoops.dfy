/**
 * read_exact and write_all over a stream: what they deliver and send, however the data is cut into
 * WRTE payloads on the way in and on the way out.
 */
module StreamLoops {
  import opened Bytes
  import opened Adb
  import opened StreamSpec
  import opened StreamRuns

  // ----- Reading: the stream is its payloads, concatenated -----

  /** What reads alone can still get out of the channel: all payloads before the first event that ends reading. */
  function Stock(events: seq<Event>): seq<byte> {
    if events == [] then []
    else
      match events[0]
      case Msg(m) =>
        if m.command == A_WRTE then (if m.data == [] then [] else m.data + Stock(events[1..]))
        else if m.command == A_CLSE then []
        else Stock(events[1..])
      case _ => []
  }

  function Available(s: State): seq<byte> {
    if s.closed then [] else s.unread + Stock(s.incoming)
  }

  /** The interface takes every message. */
  ghost predicate Accepting(s: State) {
    forall i :: 0 <= i < |s.sends| ==> s.sends[i].Accepted?
  }

  /** A read that delivers nothing: end of file, timeout or a vanished dispatcher. */
  predicate Ends(r: IoResult<seq<byte>>) {
    r == Ok([]) || r == Err(TimedOut) || r == Err(ConnectionReset)
  }

  lemma {:induction false} ReceiveStock(s: State)
    requires !s.closed && s.unread == [] && Accepting(s)
    ensures var st := Receive(s);
            && Accepting(st.s)
            && (if st.r == Ok(true) then
                  !st.s.closed &&
                  Stock(s.incoming) == (if st.s.unread == [] then [] else st.s.unread + Stock(st.s.incoming))
                else
                  Stock(s.incoming) == [] &&
                  (st.r == Ok(false) || st.r == Err(TimedOut) || st.r == Err(ConnectionReset)))
    decreases |s.incoming|
  {
    if NextEvent(s).Msg? {
      var m := NextEvent(s).m;
      if m.command != A_WRTE && m.command != A_CLSE {
        ReceiveStock(Pop(s, Recv(m, false)));
      }
    }
  }

  lemma ReadStock(s: State, n: nat)
    requires n > 0 && Accepting(s)
    ensures var st := Read(s, n);
            && Accepting(st.s)
            && if st.r.Ok? && st.r.value != [] then Available(s) == st.r.value + Available(st.s)
               else Ends(st.r) && Available(s) == []
  {
    if !s.closed {
      if s.unread == [] {
        ReceiveStock(s);
        var got := Receive(s);
        if got.r == Ok(true) {
          GiveStock(got.s, n);
        }
      } else {
        GiveStock(s, n);
      }
    }
  }

  lemma GiveStock(s: State, n: nat)
    requires !s.closed
    ensures var st := Give(s, n); Available(s) == st.r.value + Available(st.s)
  {
    var k := Min(n, |s.unread|);
    assert s.unread == s.unread[..k] + s.unread[k..];
    assert (s.unread[..k] + s.unread[k..]) + Stock(s.incoming) == s.unread[..k] + (s.unread[k..] + Stock(s.incoming));
  }

  lemma TakeAcross(d: seq<byte>, b: seq<byte>, n: nat)
    requires |d| <= n <= |d| + |b|
    ensures (d + b)[..n] == d + b[..n - |d|] && (d + b)[n..] == b[n - |d|..]
  {
  }

  /**
   * read_exact returns the next `n` bytes of the concatenated payloads if there are that many, and
   * fails otherwise: how the payloads were cut does not show.
   */
  lemma {:induction false} ReadExactStock(s: State, n: nat)
    requires Accepting(s)
    ensures var st := ReadExact(s, n); var a := Available(s);
            && Accepting(st.s)
            && if n <= |a| then st.r == Ok(a[..n]) && Available(st.s) == a[n..]
               else st.r.Err? && st.r.error in {TimedOut, ConnectionReset, UnexpectedEof}
    decreases n
  {
    if n > 0 {
      ReadIsShort(s, n);
      ReadStock(s, n);
      var part := Read(s, n);
      if part.r.Ok? && part.r.value != [] {
        var d := part.r.value;
        ReadExactStock(part.s, n - |d|);
        var a, b := Available(s), Available(part.s);
        if n <= |a| {
          TakeAcross(d, b, n);
        }
      }
    }
  }

  // ----- Reading uses something up -----

  predicate Shrinks(s: State, s1: State) {
    |s1.incoming| < |s.incoming| || (|s1.incoming| == |s.incoming| && |s1.unread| < |s.unread|)
  }

  lemma {:induction false} ReceiveShrinks(s: State)
    ensures Receive(s).r == Ok(true) ==> |Receive(s).s.incoming| < |s.incoming|
    decreases |s.incoming|
  {
    if NextEvent(s).Msg? {
      ReceiveShrinks(Pop(s, Recv(NextEvent(s).m, false)));
    }
  }

  lemma {:induction false} ReadExactShrinks(s: State, n: nat)
    ensures n > 0 && ReadExact(s, n).r.Ok? ==> Shrinks(s, ReadExact(s, n).s)
    decreases n
  {
    if n > 0 {
      ReadIsShort(s, n);
      ReceiveShrinks(s);
      var part := Read(s, n);
      if part.r.Ok? && part.r.value != [] {
        ReadExactShrinks(part.s, n - |part.r.value|);
      }
    }
  }

  // ----- What a trace shows the two ends -----

  /** Bytes handed to the caller so far. */
  ghost function Handed(s: State): seq<byte> {
    Sum(s.trace).handed
  }

  /** Payloads of the WRTEs sent so far. */
  ghost function Chunks(s: State): seq<seq<byte>> {
    Paced(s.trace).chunks
  }

  /** Neither end sees a difference between the two states. */
  ghost predicate SameView(s: State, s1: State) {
    Handed(s1) == Handed(s) && Chunks(s1) == Chunks(s) && s1.maxPayload == s.maxPayload
  }

  lemma LogView(s: State, s1: State, a: Action)
    requires s1.trace == s.trace + [a] && s1.maxPayload == s.maxPayload
    ensures a.Gave? ==> Handed(s1) == Handed(s) + a.data && Chunks(s1) == Chunks(s)
    ensures a.Sent? && a.m.command == A_WRTE ==> Handed(s1) == Handed(s) && Chunks(s1) == Chunks(s) + [a.m.data]
    ensures !a.Gave? && !(a.Sent? && a.m.command == A_WRTE) ==> SameView(s, s1)
  {
    SumSnoc(s.trace, a);
    PacedSnoc(s.trace, a);
  }

  lemma AckView(s: State, writing: bool)
    ensures SameView(s, Send(s, OkayMessage(s), writing).s)
  {
    var s1 := Send(s, OkayMessage(s), writing).s;
    LogView(s, s1, s1.trace[|s.trace|]);
  }

  lemma {:induction false} ReceiveView(s: State)
    ensures SameView(s, Receive(s).s)
    decreases |s.incoming|
  {
    match NextEvent(s) {
      case Timeout => LogView(s, Pop(s, GaveUp(false)), GaveUp(false));
      case Hangup => LogView(s, Pop(s, HungUp(false)), HungUp(false));
      case Msg(m) =>
        var s1 := Pop(s, Recv(m, false));
        LogView(s, s1, Recv(m, false));
        if m.command == A_WRTE {
          AckView(s1, false);
        } else if m.command != A_CLSE {
          ReceiveView(s1);
        }
    }
  }

  lemma ReadHands(s: State, n: nat)
    ensures var st := Read(s, n);
            && Handed(st.s) == Handed(s) + (if st.r.Ok? then st.r.value else [])
            && Chunks(st.s) == Chunks(s) && st.s.maxPayload == s.maxPayload
  {
    if !s.closed {
      var got := if s.unread != [] then s else Receive(s).s;
      ReceiveView(s);
      var given := Give(got, n);
      LogView(got, given.s, Gave(given.r.value));
    }
  }

  /** Reads hand out what they return, or less when they fail, and send no WRTE. */
  lemma {:induction false} ReadExactHands(s: State, n: nat)
    ensures var st := ReadExact(s, n);
            && Handed(s) <= Handed(st.s)
            && (st.r.Ok? ==> |st.r.value| == n && Handed(st.s) == Handed(s) + st.r.value)
            && (st.r.Err? ==> |Handed(st.s)| < |Handed(s)| + n)
            && Chunks(st.s) == Chunks(s) && st.s.maxPayload == s.maxPayload
    decreases n
  {
    if n > 0 {
      ReadIsShort(s, n);
      ReadHands(s, n);
      var part := Read(s, n);
      if part.r.Ok? && part.r.value != [] {
        var more := ReadExact(part.s, n - |part.r.value|);
        ReadExactHands(part.s, n - |part.r.value|);
        if more.r.Ok? {
          Assoc(Handed(s), part.r.value, more.r.value);
        }
      }
    }
  }

  // ----- Writing: the buffer, cut at max_payload -----

  function Pieces(buf: seq<byte>, max: nat): seq<seq<byte>>
    requires max > 0
    decreases |buf|
  {
    if buf == [] then [] else [buf[..Min(|buf|, max)]] + Pieces(buf[Min(|buf|, max)..], max)
  }

  lemma {:induction false} PiecesCut(buf: seq<byte>, max: nat)
    requires max > 0
    ensures var ps := Pieces(buf, max);
            && Concat(ps) == buf
            && (forall p <- ps :: 0 < |p| <= max)
            && (forall i :: 0 <= i < |ps| - 1 ==> |ps[i]| == max)
    decreases |buf|
  {
    if buf != [] {
      var k := Min(|buf|, max);
      PiecesCut(buf[k..], max);
      assert buf == buf[..k] + buf[k..];
    }
  }

  lemma {:induction false} AwaitView(s: State, k: nat)
    ensures SameView(s, AwaitOkay(s, k).s)
    decreases |s.incoming|
  {
    match NextEvent(s) {
      case Timeout => LogView(s, Pop(s, GaveUp(true)), GaveUp(true));
      case Hangup => LogView(s, Pop(s, HungUp(true)), HungUp(true));
      case Msg(m) =>
        var s1 := Pop(s, Recv(m, true));
        LogView(s, s1, Recv(m, true));
        if m.command == A_WRTE {
          AckView(s1, true);
          AwaitView(Send(s1, OkayMessage(s1), true).s.(unread := s.unread + m.data), k);
        } else if m.command != A_CLSE && m.command != A_OKAY {
          AwaitView(s1, k);
        }
    }
  }

  lemma WriteSends(s: State, buf: seq<byte>)
    ensures var st := Write(s, buf); var piece := buf[..Min(|buf|, s.maxPayload)];
            && st.s.maxPayload == s.maxPayload && Handed(st.s) == Handed(s)
            && (Chunks(st.s) == Chunks(s) + [piece] || (st.r.Err? && Chunks(st.s) == Chunks(s)))
  {
    var out := SendsChunk(s, buf).s;
    LogView(s, out, out.trace[|s.trace|]);
    AwaitView(out, Min(|buf|, s.maxPayload));
  }

  lemma FirstPieces(c: seq<seq<byte>>, piece: seq<byte>, more: seq<seq<byte>>, j: nat)
    requires j <= |more|
    ensures c + ([piece] + more)[..j + 1] == (c + [piece]) + more[..j]
    ensures j == 0 ==> (c + [piece]) + more[..j] == c + [piece]
  {
  }

  /** write_all sends exactly the pieces of its buffer, or the first few of them when it fails. */
  lemma {:induction false} WriteAllSends(s: State, buf: seq<byte>) returns (k: nat)
    requires s.maxPayload > 0
    ensures var st := WriteAll(s, buf); var ps := Pieces(buf, s.maxPayload);
            && k <= |ps|
            && Chunks(st.s) == Chunks(s) + ps[..k] && Handed(st.s) == Handed(s)
            && (st.r.Ok? ==> k == |ps|)
            && st.s.maxPayload == s.maxPayload
    decreases |buf|
  {
    k := 0;
    if buf != [] {
      WriteCount(s, buf);
      WriteSends(s, buf);
      var part := Write(s, buf);
      var n := Min(|buf|, s.maxPayload);
      var ps, more := Pieces(buf, s.maxPayload), Pieces(buf[n..], s.maxPayload);
      var c := Chunks(s);
      FirstPieces(c, buf[..n], more, 0);
      if part.r.Ok? {
        var j := WriteAllSends(part.s, buf[n..]);
        FirstPieces(c, buf[..n], more, j);
        k := j + 1;
      } else if Chunks(part.s) == c + [buf[..n]] {
        k := 1;
      }
    }
  }

  lemma PiecesPrefix(buf: seq<byte>, max: nat, k: nat)
    requires max > 0 && k <= |Pieces(buf, max)|
    ensures Concat(Pieces(buf, max)[..k]) <= buf
  {
    PiecesCut(buf, max);
    ConcatPrefix(Pieces(buf, max), k);
  }

  /** Since state `s0` the WRTEs `out` have been sent, none over the limit and none empty unless it is zero. */
  ghost predicate SentSince(s0: State, s: State, out: seq<seq<byte>>) {
    && s.maxPayload == s0.maxPayload
    && Chunks(s) == Chunks(s0) + out
    && (forall c <- out :: |c| <= s0.maxPayload && (c == [] ==> s0.maxPayload == 0))
  }

  /** A negotiated max_payload of zero makes every non-empty write_all fail, after one empty WRTE at most. */
  lemma NothingFits(s: State, buf: seq<byte>)
    requires s.maxPayload == 0 && buf != []
    ensures var st := WriteAll(s, buf);
            && st.r.Err? && st.s.maxPayload == 0 && Handed(st.s) == Handed(s)
            && (Chunks(st.s) == Chunks(s) || Chunks(st.s) == Chunks(s) + [[]])
  {
    WriteCount(s, buf);
    WriteSends(s, buf);
    assert buf[..0] == [];
  }

  lemma SendNothing(s0: State, s: State, out: seq<seq<byte>>, buf: seq<byte>) returns (out1: seq<seq<byte>>)
    requires s.maxPayload == 0 && SentSince(s0, s, out)
    ensures var st := WriteAll(s, buf);
            && SentSince(s0, st.s, out1) && Handed(st.s) == Handed(s) && Concat(out1) == Concat(out)
            && (st.r.Ok? ==> buf == [])
  {
    out1 := out;
    if buf != [] {
      NothingFits(s, buf);
      if Chunks(WriteAll(s, buf).s) != Chunks(s) {
        out1 := out + [[]];
        ConcatSnoc(out, []);
        Assoc(Chunks(s0), out, [[]]);
      }
    }
  }

  /** One write_all more: all of its buffer, or the start of it. */
  lemma SendMore(s0: State, s: State, out: seq<seq<byte>>, buf: seq<byte>) returns (out1: seq<seq<byte>>)
    requires SentSince(s0, s, out)
    ensures var st := WriteAll(s, buf);
            && SentSince(s0, st.s, out1)
            && Handed(st.s) == Handed(s)
            && Concat(out) <= Concat(out1) <= Concat(out) + buf
            && (st.r.Ok? ==> Concat(out1) == Concat(out) + buf)
  {
    if s.maxPayload == 0 {
      out1 := SendNothing(s0, s, out, buf);
      return;
    }
    var k := WriteAllSends(s, buf);
    var ps := Pieces(buf, s.maxPayload);
    PiecesCut(buf, s.maxPayload);
    PiecesPrefix(buf, s.maxPayload, k);
    out1 := out + ps[..k];
    ConcatAppend(out, ps[..k]);
    assert ps[..|ps|] == ps;
    Assoc(Chunks(s0), out, ps[..k]);
    ExtendPrefix(Concat(out), Concat(ps[..k]), buf);
  }

  lemma ExtendPrefix(a: seq<byte>, b: seq<byte>, c: seq<byte>)
    requires b <= c
    ensures a <= a + b <= a + c
  {
  }

  // ----- Both loops are runs -----

  lemma {:induction false} RunAppend(s: State, a: seq<Call>, b: seq<Call>)
    ensures Run(s, a + b) == Run(Run(s, a), b)
    decreases |a|
  {
    if a == [] {
      assert a + b == b;
    } else {
      assert (a + b)[1..] == a[1..] + b;
      RunAppend(Do(s, a[0]), a[1..], b);
    }
  }

  lemma {:induction false} ReadExactIsRun(s: State, n: nat) returns (calls: seq<Call>)
    ensures ReadExact(s, n).s == Run(s, calls)
    decreases n
  {
    calls := [];
    if n > 0 {
      ReadIsShort(s, n);
      var part := Read(s, n);
      calls := [CallRead(n)];
      assert Run(s, calls) == Run(part.s, []);
      if part.r.Ok? && part.r.value != [] {
        var more := ReadExactIsRun(part.s, n - |part.r.value|);
        RunAppend(s, calls, more);
        calls := calls + more;
      }
    }
  }

  lemma {:induction false} WriteAllIsRun(s: State, buf: seq<byte>) returns (calls: seq<Call>)
    ensures WriteAll(s, buf).s == Run(s, calls)
    decreases |buf|
  {
    calls := [];
    if buf != [] {
      WriteCount(s, buf);
      var part := Write(s, buf);
      calls := [CallWrite(buf)];
      assert Run(s, calls) == Run(part.s, []);
      if part.r.Ok? && part.r.value != 0 {
        var more := WriteAllIsRun(part.s, buf[part.r.value..]);
        RunAppend(s, calls, more);
        calls := calls + more;
      }
    }
  }
}

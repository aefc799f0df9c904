/** From the device's transfers to the bytes a caller reads: the layers put together. */
module EndToEnd {
  import opened Bytes
  import opened Adb
  import opened Flash
  import opened Wrappers
  import opened StreamSpec
  import F = Framing
  import D = Dispatch
  import R = StreamRuns
  import L = StreamLoops
  import E = StreamEnds
  import U = UsbStreams
  import V = ShellV2
  import C = ShellCommands
  import O = StreamOpening
  import W = StreamWrites
  import Y = Sync

  /** The messages among the events of a channel. */
  function Channel(events: seq<Event>): seq<Message> {
    if events == [] then []
    else (if events[0].Msg? then [events[0].m] else []) + Channel(events[1..])
  }

  /** The data that WRTE messages carry. */
  function Payloads(ms: seq<Message>): seq<byte> {
    if ms == [] then [] else (if ms[0].command == A_WRTE then ms[0].data else []) + Payloads(ms[1..])
  }

  lemma {:induction false} PayloadsAppend(a: seq<Message>, b: seq<Message>)
    ensures Payloads(a + b) == Payloads(a) + Payloads(b)
  {
    if a == [] {
      assert a + b == b;
    } else {
      assert (a + b)[1..] == a[1..] + b;
      PayloadsAppend(a[1..], b);
    }
  }

  lemma {:induction false} ArrivalsArePayloads(events: seq<Event>)
    ensures R.Arrivals(events) == Payloads(Channel(events))
  {
    if events != [] {
      ArrivalsArePayloads(events[1..]);
      PayloadsAppend(if events[0].Msg? then [events[0].m] else [], Channel(events[1..]));
      assert events[0].Msg? ==> Payloads([events[0].m]) == (if events[0].m.command == A_WRTE then events[0].m.data else []) + Payloads([]);
    }
  }

  /** What the device sent to the `k`-th open while its channel was connected. */
  function SentTo(ds: seq<F.Delivery>, o: D.Open, end: nat, k: nat): seq<Message>
    requires o.from <= end <= |F.Messages(ds)|
  {
    D.Naming(F.Messages(ds)[o.from..end], D.LocalId(k))
  }

  /**
   * The reader of the `k`-th open's connection has decoded the messages `ds`, however they travelled, and
   * the opener has taken the first `taken` messages of its channel.
   */
  ghost predicate Carries(ds: seq<F.Delivery>, steps: seq<D.StepOf>, k: nat, taken: nat) {
    && (forall d <- ds :: F.Delivers(d))
    && D.Sound(D.START, steps) && D.Possible(D.START, steps)
    && var s := D.Run(D.START, steps);
       && k < |s.opens| && s.opens[k].phase != D.Allocated
       && s.opens[k].conn < |s.conns| && s.conns[s.opens[k].conn].decoded == F.Decoded(F.Travel(ds))
       && taken <= |s.opens[k].received|
  }

  lemma SentIsReceived(ds: seq<F.Delivery>, steps: seq<D.StepOf>, k: nat, taken: nat)
    requires Carries(ds, steps, k, taken)
    ensures var s := D.Run(D.START, steps); var o := s.opens[k]; var end := D.EndOf(o, s.conns[o.conn]);
            o.from <= end <= |F.Messages(ds)| && SentTo(ds, o, end, k) == o.received
  {
    F.LogIsFaithful(ds);
    D.ChannelsHoldTheirMessages(steps, k);
  }

  /** What the device sent to the `k`-th open behind the `taken` messages that answered it. */
  ghost function Sent(ds: seq<F.Delivery>, steps: seq<D.StepOf>, k: nat, taken: nat): seq<Message>
    requires Carries(ds, steps, k, taken)
  {
    SentIsReceived(ds, steps, k, taken);
    var s := D.Run(D.START, steps);
    SentTo(ds, s.opens[k], D.EndOf(s.opens[k], s.conns[s.opens[k].conn]), k)[taken..]
  }

  /**
   * The stream of the `k`-th open, in any run of the dispatcher whose reader got the device's messages
   * cut into any transfers with any pauses between them, in any run of calls on the stream with any
   * timeouts: the bytes handed out are a prefix of the payloads the device sent to this stream behind
   * the `taken` messages that answered its OPEN.
   */
  lemma BytesSurviveAllLayers(
    ds: seq<F.Delivery>, steps: seq<D.StepOf>, k: nat, taken: nat, s0: State, calls: seq<R.Call>)
    requires Carries(ds, steps, k, taken)
    requires Channel(s0.incoming) <= D.Run(D.START, steps).opens[k].received[taken..]
    requires R.Fresh(s0) && R.Sum(R.Run(s0, calls).trace).acksLost == 0
    ensures L.Handed(R.Run(s0, calls)) <= Payloads(Sent(ds, steps, k, taken))
  {
    SentIsReceived(ds, steps, k, taken);
    HandedIsPrefix(D.Run(D.START, steps).opens[k].received[taken..], s0, calls);
  }

  lemma HandedIsPrefix(ms: seq<Message>, s0: State, calls: seq<R.Call>)
    requires Channel(s0.incoming) <= ms
    requires R.Fresh(s0) && R.Sum(R.Run(s0, calls).trace).acksLost == 0
    ensures L.Handed(R.Run(s0, calls)) <= Payloads(ms)
  {
    R.DuplexConservation(s0, calls);
    ArrivalsArePayloads(s0.incoming);
    var seen := Channel(s0.incoming);
    assert ms == seen + ms[|seen|..];
    PayloadsAppend(seen, ms[|seen|..]);
    Prefixes(R.Run(s0, calls), s0, Payloads(seen), Payloads(ms));
  }

  lemma Prefixes(s: State, s0: State, all: seq<byte>, more: seq<byte>)
    requires var t := R.Sum(s.trace); t.handed + s.unread + R.Arrivals(s.incoming) == all
    requires all <= more
    ensures L.Handed(s) <= more
  {
    var t := R.Sum(s.trace);
    Assoc(t.handed, s.unread, R.Arrivals(s.incoming));
    assert all[..|t.handed|] == t.handed;
  }

  /**
   * The open of that channel is answered by the `taken`-th message the device sent to it, the first OKAY, with
   * nothing but other commands before it; the stream then names the device by that message's first argument,
   * and its channel holds exactly what comes behind.
   */
  lemma OpeningCarries(ds: seq<F.Delivery>, steps: seq<D.StepOf>, k: nat, channel: seq<Event>) returns (taken: nat)
    requires Carries(ds, steps, k, 0) && Channel(channel) == D.Run(D.START, steps).opens[k].received
    requires O.AnswerOf(channel).Welcome?
    ensures var received, answer := D.Run(D.START, steps).opens[k].received, O.AnswerOf(channel);
            && Carries(ds, steps, k, taken) && 0 < taken
            && Channel(answer.rest) == received[taken..]
            && received[taken - 1].command == A_OKAY && received[taken - 1].arg0 == answer.remoteId
            && (forall i :: 0 <= i < taken - 1 ==> received[i].command != A_OKAY && received[i].command != A_CLSE)
  {
    taken := AnswerInChannel(channel);
  }

  lemma {:induction false} AnswerInChannel(events: seq<Event>) returns (taken: nat)
    requires O.AnswerOf(events).Welcome?
    ensures var ms, answer := Channel(events), O.AnswerOf(events);
            && 0 < taken <= |ms| && Channel(answer.rest) == ms[taken..]
            && ms[taken - 1].command == A_OKAY && ms[taken - 1].arg0 == answer.remoteId
            && (forall i :: 0 <= i < taken - 1 ==> ms[i].command != A_OKAY && ms[i].command != A_CLSE)
  {
    var m, more := events[0].m, Channel(events[1..]);
    assert Channel(events) == [m] + more;
    taken := 1;
    if m.command != A_OKAY {
      taken := AnswerInChannel(events[1..]);
      assert ([m] + more)[taken + 1..] == more[taken..];
      assert forall i :: 0 < i <= taken ==> ([m] + more)[i] == more[i - 1];
      taken := taken + 1;
    } else {
      assert ([m] + more)[1..] == more;
    }
  }

  // ----- All of it -----

  /** The messages ahead of the first CLSE. */
  function UntilClose(ms: seq<Message>): seq<Message> {
    if ms == [] || ms[0].command == A_CLSE then [] else [ms[0]] + UntilClose(ms[1..])
  }

  /** A channel whose sender is gone yields what is queued before it reports so. */
  predicate HangupsLast(events: seq<Event>) {
    events == [] || (if events[0].Hangup? then Channel(events) == [] else HangupsLast(events[1..]))
  }

  lemma {:induction false} DeliverableIsSent(events: seq<Event>)
    requires HangupsLast(events)
    ensures E.Deliverable(events) == Payloads(UntilClose(Channel(events)))
  {
    if events != [] && !events[0].Hangup? {
      DeliverableIsSent(events[1..]);
      if events[0].Msg? {
        var m, more := events[0].m, Channel(events[1..]);
        assert ([m] + more)[1..] == more;
        assert m.command != A_CLSE ==> ([m] + UntilClose(more))[1..] == UntilClose(more);
        assert [] + Payloads(UntilClose(more)) == Payloads(UntilClose(more));
      } else {
        assert Channel(events) == [] + Channel(events[1..]) == Channel(events[1..]);
      }
    }
  }

  /**
   * And all of them arrive, whatever timeouts and empty payloads come between: further calls on the
   * stream complete what the device sent before it closed, if and only if the stream is not closed with
   * data unread.
   */
  lemma AllBytesArrive(
    ds: seq<F.Delivery>, steps: seq<D.StepOf>, k: nat, taken: nat, s0: State, calls: seq<R.Call>)
    returns (more: seq<R.Call>)
    requires Carries(ds, steps, k, taken)
    requires Channel(s0.incoming) == D.Run(D.START, steps).opens[k].received[taken..]
    requires HangupsLast(s0.incoming) && R.Fresh(s0) && L.Accepting(s0)
    ensures var all := Payloads(UntilClose(Sent(ds, steps, k, taken))); var s1 := R.Run(s0, calls);
            && L.Handed(s1) <= all
            && (!E.Stranded(s1) ==> L.Handed(R.Run(s0, calls + more)) == all)
            && (E.Stranded(s1) ==> forall others :: L.Handed(R.Run(s0, calls + others)) != all)
  {
    SentIsReceived(ds, steps, k, taken);
    DeliverableIsSent(s0.incoming);
    more := E.OpenStreamsDeliver(s0, calls);
  }

  // ----- A shell command over the wire -----

  function Events(ms: seq<Message>): seq<Event> {
    if ms == [] then [] else [Msg(ms[0])] + Events(ms[1..])
  }

  /** No WRTE ahead of the closing is empty. */
  predicate CarriesData(ms: seq<Message>) {
    ms == [] || ms[0].command == A_CLSE || ((ms[0].command == A_WRTE ==> ms[0].data != []) && CarriesData(ms[1..]))
  }

  lemma StockNext(m: Message, more: seq<Event>)
    requires m.command == A_WRTE ==> m.data != []
    ensures L.Stock([Msg(m)] + more) ==
              if m.command == A_CLSE then [] else (if m.command == A_WRTE then m.data else []) + L.Stock(more)
  {
    assert ([Msg(m)] + more)[1..] == more;
    assert [] + L.Stock(more) == L.Stock(more);
  }

  /** What reads get from queued messages is their data up to the closing, and perhaps what comes later. */
  lemma {:induction false} StockOfMessages(ms: seq<Message>, later: seq<Event>) returns (tail: seq<byte>)
    requires CarriesData(ms)
    ensures L.Stock(Events(ms) + later) == Payloads(UntilClose(ms)) + tail
  {
    if ms == [] {
      assert Events(ms) + later == later;
      tail := L.Stock(later);
      assert [] + tail == tail;
    } else {
      assert Events(ms) + later == [Msg(ms[0])] + (Events(ms[1..]) + later);
      StockNext(ms[0], Events(ms[1..]) + later);
      tail := [];
      if ms[0].command != A_CLSE {
        tail := StockOfMessages(ms[1..], later);
        var ahead := UntilClose(ms[1..]);
        assert ([ms[0]] + ahead)[1..] == ahead;
        Assoc(if ms[0].command == A_WRTE then ms[0].data else [], Payloads(ahead), tail);
      }
    }
  }

  /**
   * A shell session over all layers: a device that sends any valid session to an open, its bytes cut into
   * any non-empty payloads and these into any transfers, in any run of the dispatcher, has the command
   * return exactly the session's output, error output and exit byte, or fail because the output is too
   * large.
   */
  method ShellOverTheWire(
    stream: U.UsbStream, ghost ds: seq<F.Delivery>, ghost steps: seq<D.StepOf>, ghost k: nat, ghost taken: nat,
    ghost later: seq<Event>, ghost ps: seq<V.Packet>, ghost exit: seq<byte>, ghost rest: seq<byte>)
    returns (r: Result<C.ShellResult>)
    requires Carries(ds, steps, k, taken)
    requires stream.Valid() && R.Fresh(stream.Abs()) && L.Accepting(stream.Abs())
    requires V.Plain(ps) && |exit| <= V.SHELL_V2_MAX_PAYLOAD
    requires CarriesData(Sent(ds, steps, k, taken))
    requires Payloads(UntilClose(Sent(ds, steps, k, taken))) ==
               V.EncodeAll(ps) + V.BuildPacket(V.Packet(V.Exit, exit)) + rest
    requires stream.incoming == Events(D.Run(D.START, steps).opens[k].received[taken..]) + later
    modifies stream
    ensures stream.Valid()
    ensures var stdout, stderr := V.Select(ps, V.Stdout), V.Select(ps, V.Stderr);
            r == if |stdout| + |stderr| > 100 * 1024 * 1024 then Failure(Protocol("output limit exceeded"))
                 else Success(C.ShellResult(stdout, stderr, if exit == [] then None else Some(exit[0])))
  {
    ghost var received := D.Run(D.START, steps).opens[k].received[taken..];
    SentIsReceived(ds, steps, k, taken);
    ghost var tail := StockOfMessages(received, later);
    SessionAhead(stream.Abs(), UntilClose(received), tail, ps, exit, rest);
    r := C.AdbShellV2(stream);
  }

  lemma SessionAhead(s: State, ms: seq<Message>, tail: seq<byte>, ps: seq<V.Packet>, exit: seq<byte>, rest: seq<byte>)
    requires V.Plain(ps) && |exit| <= V.SHELL_V2_MAX_PAYLOAD
    requires !s.closed && s.unread == [] && L.Stock(s.incoming) == Payloads(ms) + tail
    requires Payloads(ms) == V.EncodeAll(ps) + V.BuildPacket(V.Packet(V.Exit, exit)) + rest
    ensures var stdout, stderr := V.Select(ps, V.Stdout), V.Select(ps, V.Stderr);
            C.Collected(V.SplitPackets(L.Available(s))) ==
              if |stdout| + |stderr| > 100 * 1024 * 1024 then Failure(Protocol("output limit exceeded"))
              else Success(C.ShellResult(stdout, stderr, if exit == [] then None else Some(exit[0])))
  {
    Assoc(V.EncodeAll(ps) + V.BuildPacket(V.Packet(V.Exit, exit)), rest, tail);
    assert [] + L.Stock(s.incoming) == L.Stock(s.incoming);
    C.CollectingInvertsFraming(ps, exit, rest + tail);
  }

  // ----- A file on its way to the device -----

  /** The messages a stream put on the wire. */
  ghost function Transmitted(trace: seq<Action>): seq<Message> {
    if trace == [] then []
    else
      var last := trace[|trace| - 1];
      Transmitted(trace[..|trace| - 1]) + if last.Sent? then [last.m] else []
  }

  lemma {:induction false} TransmittedPayloads(trace: seq<Action>)
    ensures Payloads(Transmitted(trace)) == Concat(R.Paced(trace).chunks)
  {
    if trace != [] {
      var init, last := trace[..|trace| - 1], trace[|trace| - 1];
      TransmittedPayloads(init);
      if last.Sent? {
        PayloadsAppend(Transmitted(init), [last.m]);
        PayloadOfOne(last.m);
        ConcatSnoc(R.Paced(init).chunks, last.m.data);
      } else {
        assert Transmitted(init) + [] == Transmitted(init);
      }
    }
  }

  lemma PayloadOfOne(m: Message)
    ensures Payloads([m]) == if m.command == A_WRTE then m.data else []
  {
    assert [m][1..] == [];
  }

  /**
   * A reader at the device's end meets the stream's messages, each cut in its own way, with any pauses
   * and any messages of other streams between them.
   */
  ghost predicate Reaches(s: State, ds: seq<F.Delivery>) {
    && (forall d <- ds :: F.Delivers(d))
    && D.Naming(F.Messages(ds), s.remoteId) == Transmitted(s.trace)
  }

  /** The bytes that reader finds for the stream. */
  ghost function Arrived(s: State, ds: seq<F.Delivery>): seq<byte> {
    Payloads(D.Naming(F.Decoded(F.Travel(ds)), s.remoteId))
  }

  lemma SentArrives(s0: State, s: State, out: seq<seq<byte>>, ds: seq<F.Delivery>)
    requires R.Fresh(s0) && L.SentSince(s0, s, out) && Reaches(s, ds)
    ensures Arrived(s, ds) == Concat(out)
  {
    F.LogIsFaithful(ds);
    TransmittedPayloads(s.trace);
    assert L.Chunks(s0) + out == out;
  }

  /**
   * A file streamed into a command's standard input, up to the end of it or to a failure: a reader at the
   * device's end gets the start of its packets, and once all writes worked, which they do exactly if the
   * device answers as often as they take, it decodes exactly these packets.
   */
  lemma InputOverTheWire(s0: State, all: Reading, ds: seq<F.Delivery>)
    requires R.Fresh(s0) && forall c <- all.pieces :: 0 < |c| <= C.STDIN_CHUNK
    requires Reaches(W.WriteEach(s0, C.PacketWrites(C.InputPackets(all))).s, ds)
    ensures var writes := C.PacketWrites(C.InputPackets(all)); var st := W.WriteEach(s0, writes);
            && Arrived(st.s, ds) <= V.EncodeAll(C.InputPackets(all))
            && (st.r.Ok? ==> V.DecodeAll(Arrived(st.s, ds)) == (true, C.InputPackets(all)))
            && (L.Accepting(s0) ==> (st.r.Ok? <==> W.Affords(s0, writes)))
  {
    var out := C.InputSends(s0, all);
    SentArrives(s0, W.WriteEach(s0, C.PacketWrites(C.InputPackets(all))).s, out, ds);
  }

  /**
   * A pushed file: a reader at the device's end gets the start of the push, and once the file was read to
   * its end and all writes worked, it decodes exactly the path with its mode, the file and the time if and
   * only if 32 bits hold the length of that path.
   */
  lemma PushOverTheWire(s0: State, path: seq<byte>, all: Reading, mtime: u32, ds: seq<F.Delivery>)
    requires R.Fresh(s0) && forall c <- all.pieces :: |c| <= Y.SYNC_DATA_MAX
    requires Reaches(W.WriteEach(s0, Y.PushWrites(path, all, mtime)).s, ds)
    ensures var writes := Y.PushWrites(path, all, mtime); var st := W.WriteEach(s0, writes);
            && Arrived(st.s, ds) <= Y.PushBytes(path, all.pieces, mtime)
            && (st.r.Ok? && all.whole ==>
                  (Y.DecodePush(Arrived(st.s, ds)) == Some(Y.Push(path, Concat(all.pieces), mtime)) <==>
                   |path| < 0x1_0000_0000))
            && (L.Accepting(s0) ==> (st.r.Ok? <==> W.Affords(s0, writes)))
  {
    var out := Y.PushSends(s0, path, all, mtime);
    SentArrives(s0, W.WriteEach(s0, Y.PushWrites(path, all, mtime)).s, out, ds);
  }
}

/** Running shell commands over a stream: collecting, streaming out and streaming in. */
module ShellCommands {
  import opened Bytes
  import opened Flash
  import opened Wrappers
  import opened StreamSpec
  import opened StreamLoops
  import opened StreamWrites
  import opened UsbStreams
  import opened ShellV2
  import S = ShellV2

  datatype ShellResult = ShellResult(stdout: seq<byte>, stderr: seq<byte>, exitCode: Option<byte>)

  function First(data: seq<byte>): Option<byte> {
    if data == [] then None else Some(data[0])
  }

  /** Bytes of output, which the collector bounds. */
  function OutputSize(ps: seq<Packet>): nat {
    |Select(ps, Stdout)| + |Select(ps, Stderr)|
  }

  lemma OutputSizeAppend(a: seq<Packet>, b: seq<Packet>)
    ensures OutputSize(a + b) == OutputSize(a) + OutputSize(b)
  {
    SelectAppend(a, b, Stdout);
    SelectAppend(a, b, Stderr);
  }

  /** The first Exit packet's data, or why there was none. */
  function EndResult(end: End): Result<seq<byte>> {
    match end
    case Broken(e) => Failure(e)
    case Finished(exit, _) => Success(exit)
  }

  /** What the collector makes of a whole session. */
  function Collect(ps: seq<Packet>, end: Result<seq<byte>>): Result<ShellResult> {
    if OutputSize(ps) > SHELL_V2_MAX_OUTPUT then Failure(Protocol("output limit exceeded"))
    else
      match end
      case Failure(e) => Failure(e)
      case Success(exit) => Success(ShellResult(Select(ps, Stdout), Select(ps, Stderr), First(exit)))
  }

  function Collected(s: Split): Result<ShellResult> {
    Collect(s.ps, EndResult(s.end))
  }

  // ----- A session: packets read off one after the other -----

  /** The packets before Exit or a failure, which of these came, and the stream that is left. */
  datatype Session = Session(ps: seq<Packet>, end: Result<seq<byte>>, s: State)

  lemma ReadPacketShrinks(s: State)
    ensures S.ReadPacket(s).r.Success? ==> Shrinks(s, S.ReadPacket(s).s)
  {
    ReadExactShrinks(s, SHELL_V2_HEADER_SIZE);
    ReadExactHands(s, SHELL_V2_HEADER_SIZE);
    var h := ReadExact(s, SHELL_V2_HEADER_SIZE);
    if h.r.Ok? {
      ReadExactShrinks(h.s, FromLe32(h.r.value[1..5]));
    }
  }

  function SessionOf(s: State): (v: Session)
    decreases |s.incoming|, |s.unread|
  {
    ReadPacketShrinks(s);
    var g := S.ReadPacket(s);
    if g.r.Failure? then Session([], Failure(g.r.error), g.s)
    else if g.r.value.id == Exit then Session([], Success(g.r.value.data), g.s)
    else
      var more := SessionOf(g.s);
      more.(ps := [g.r.value] + more.ps)
  }

  /** If the acknowledgements go out, a session is what the concatenated payloads mean, however they were cut. */
  lemma {:induction false} SessionReads(s: State)
    requires Accepting(s)
    ensures var v, split := SessionOf(s), SplitPackets(Available(s)); v.ps == split.ps && v.end == EndResult(split.end)
    decreases |s.incoming|, |s.unread|
  {
    ReadPacketParses(s);
    ReadPacketShrinks(s);
    var g := S.ReadPacket(s);
    if g.r.Success? && g.r.value.id != Exit {
      SessionReads(g.s);
    }
  }

  /** A session takes exactly its packets off the stream, and sends no WRTE. */
  lemma {:induction false} SessionHands(s: State)
    ensures var v := SessionOf(s);
            && Plain(v.ps)
            && Chunks(v.s) == Chunks(s) && v.s.maxPayload == s.maxPayload
            && (v.end.Success? ==> Handed(v.s) == Handed(s) + EncodeAll(v.ps) + BuildPacket(Packet(Exit, v.end.value)))
    decreases |s.incoming|, |s.unread|
  {
    ReadPacketHands(s);
    ReadPacketShrinks(s);
    var g := S.ReadPacket(s);
    if g.r.Success? {
      var p := g.r.value;
      if p.id == Exit {
        assert Handed(s) + [] == Handed(s) && p == Packet(Exit, p.data);
      } else {
        SessionHands(g.s);
        var more := SessionOf(g.s).ps;
        assert ([p] + more)[1..] == more;
        Assoc(Handed(s), BuildPacket(p), EncodeAll(more));
      }
    }
  }

  /** Since state `s0` the packets `ps` and then the end of the session have been read. */
  ghost predicate SessionOver(s0: State, s: State, ps: seq<Packet>, r: Result<seq<byte>>) {
    && SessionOf(s0) == Session(ps, r, s)
    && Plain(ps)
    && Chunks(s) == Chunks(s0) && s.maxPayload == s0.maxPayload
    && (r.Success? ==> Handed(s) == Handed(s0) + EncodeAll(ps) + BuildPacket(Packet(Exit, r.value)))
    && (Accepting(s0) ==> SplitPackets(Available(s0)).ps == ps && EndResult(SplitPackets(Available(s0)).end) == r)
  }

  lemma SessionMeans(s0: State)
    ensures var v := SessionOf(s0); SessionOver(s0, v.s, v.ps, v.end)
  {
    SessionHands(s0);
    if Accepting(s0) {
      SessionReads(s0);
    }
  }

  /** Since state `s0` the packets `ps` have been read, none of them Exit. */
  ghost predicate InSession(s0: State, s: State, ps: seq<Packet>) {
    var v := SessionOf(s); SessionOf(s0) == v.(ps := ps + v.ps)
  }

  lemma SessionStarts(s0: State)
    ensures InSession(s0, s0, [])
  {
    assert [] + SessionOf(s0).ps == SessionOf(s0).ps;
  }

  lemma SessionContinues(s0: State, s: State, ps: seq<Packet>)
    requires InSession(s0, s, ps)
    ensures var g := S.ReadPacket(s);
            && (g.r.Failure? ==> g.r.error != Io && SessionOf(s0) == Session(ps, Failure(g.r.error), g.s))
            && (g.r.Success? && g.r.value.id == Exit ==> SessionOf(s0) == Session(ps, Success(g.r.value.data), g.s))
            && (g.r.Success? && g.r.value.id != Exit ==> InSession(s0, g.s, ps + [g.r.value]))
  {
    var g := S.ReadPacket(s);
    assert ps + [] == ps;
    if g.r.Success? && g.r.value.id != Exit {
      Assoc(ps, [g.r.value], SessionOf(g.s).ps);
    }
  }

  /** What the rest of a session brings is added to its output. */
  lemma OutputGrows(s0: State, s: State, ps: seq<Packet>)
    requires InSession(s0, s, ps)
    ensures OutputSize(SessionOf(s0).ps) >= OutputSize(ps)
    ensures Select(ps, Stdout) <= Select(SessionOf(s0).ps, Stdout)
  {
    OutputSizeAppend(ps, SessionOf(s).ps);
    SelectAppend(ps, SessionOf(s).ps, Stdout);
  }

  /** Everything one more packet changes. */
  lemma Taken(ps: seq<Packet>, p: Packet)
    ensures Select(ps + [p], Stdout) == Select(ps, Stdout) + (if p.id == Stdout then p.data else [])
    ensures Select(ps + [p], Stderr) == Select(ps, Stderr) + (if p.id == Stderr then p.data else [])
    ensures OutputSize(ps + [p]) == OutputSize(ps) + (if p.id in {Stdout, Stderr} then |p.data| else 0)
  {
    SelectAppend(ps, [p], Stdout);
    SelectOne(p, Stdout);
    SelectAppend(ps, [p], Stderr);
    SelectOne(p, Stderr);
  }

  method ReadPacket(stream: UsbStream) returns (r: Result<Packet>)
    requires stream.Valid()
    modifies stream
    ensures stream.Valid()
    ensures Got(stream.Abs(), r) == S.ReadPacket(old(stream.Abs()))
    ensures r.Success? ==> Shrinks(old(stream.Abs()), stream.Abs())
  {
    ReadExactShrinks(stream.Abs(), SHELL_V2_HEADER_SIZE);
    ReadExactHands(stream.Abs(), SHELL_V2_HEADER_SIZE);
    var h := stream.ReadExact(SHELL_V2_HEADER_SIZE);
    if h.Err? {
      return Failure(ClassifyStreamError(h.error));
    }
    var header := h.value;
    if !KnownId(header[0]) {
      return Failure(Protocol("unknown packet id"));
    }
    var len := FromLe32(header[1..5]);
    if len > SHELL_V2_MAX_PAYLOAD {
      return Failure(Protocol("payload too large"));
    }
    var data := [];
    ReadExactShrinks(stream.Abs(), len);
    if len > 0 {
      var d := stream.ReadExact(len);
      if d.Err? {
        return Failure(ClassifyStreamError(d.error));
      }
      data := d.value;
    }
    r := Success(Packet(IdOf(header[0]), data));
  }

  // ----- The commands -----

  /**
   * Collects a command's output.  In any surroundings the result is that of the session; and if the
   * interface takes the acknowledgements, it is the meaning of the concatenated payloads, however they
   * were cut.
   */
  method AdbShellV2(stream: UsbStream) returns (r: Result<ShellResult>)
    requires stream.Valid()
    modifies stream
    ensures stream.Valid()
    ensures var v := SessionOf(old(stream.Abs()));
            && r == Collect(v.ps, v.end)
            && (r.Success? ==> v.end.Success? && r.value == ShellResult(
                  Select(v.ps, Stdout), Select(v.ps, Stderr), if v.end.value == [] then None else Some(v.end.value[0])))
            && (OutputSize(v.ps) <= SHELL_V2_MAX_OUTPUT ==> SessionOver(old(stream.Abs()), stream.Abs(), v.ps, v.end))
    ensures old(Accepting(stream.Abs())) ==> r == Collected(SplitPackets(old(Available(stream.Abs()))))
  {
    var stdout, stderr, totalBytes := [], [], 0;
    ghost var s0, ps := stream.Abs(), [];
    SessionStarts(s0);
    SessionMeans(s0);
    while true
      invariant stream.Valid() && InSession(s0, stream.Abs(), ps)
      invariant stdout == Select(ps, Stdout) && stderr == Select(ps, Stderr)
      invariant totalBytes == OutputSize(ps) <= SHELL_V2_MAX_OUTPUT
      decreases |stream.incoming|, |stream.readBuf| - stream.readPos
    {
      SessionContinues(s0, stream.Abs(), ps);
      var got := ReadPacket(stream);
      if got.Failure? {
        return Failure(got.error);
      }
      var p := got.value;
      if p.id == Exit {
        return Success(ShellResult(stdout, stderr, First(p.data)));
      }
      Taken(ps, p);
      ps := ps + [p];
      if p.id == Stdout || p.id == Stderr {
        totalBytes := totalBytes + |p.data|;
        if totalBytes > SHELL_V2_MAX_OUTPUT {
          OutputGrows(s0, stream.Abs(), ps);
          return Failure(Protocol("output limit exceeded"));
        }
        if p.id == Stdout {
          stdout := stdout + p.data;
        } else {
          stderr := stderr + p.data;
        }
      }
    }
  }

  /** Collecting inverts framing: for every valid session, failing exactly when the output is too large. */
  lemma CollectingInvertsFraming(ps: seq<Packet>, exit: seq<byte>, rest: seq<byte>)
    requires Plain(ps) && |exit| <= SHELL_V2_MAX_PAYLOAD
    ensures Collected(SplitPackets(EncodeAll(ps) + BuildPacket(Packet(Exit, exit)) + rest)) ==
              if |Select(ps, Stdout)| + |Select(ps, Stderr)| > 100 * 1024 * 1024 then
                Failure(Protocol("output limit exceeded"))
              else
                Success(ShellResult(Select(ps, Stdout), Select(ps, Stderr), if exit == [] then None else Some(exit[0])))
  {
    SplitInvertsEncode(ps, exit, rest);
  }

  /** `now` extends `before` by the start of `data`. */
  ghost predicate PartWritten(before: seq<byte>, now: seq<byte>, data: seq<byte>) {
    before <= now <= before + data
  }

  lemma AppendedOutput(w: seq<byte>, a: seq<byte>, b: seq<byte>, k: nat)
    ensures (w + a) + b == w + (a + b)
    ensures k <= |b| ==> PartWritten(w, w + a + b[..k], a + b)
  {
    assert k <= |b| ==> (w + (a + b))[..|w| + |a| + k] == w + a + b[..k];
  }

  datatype Round = Next(n: nat) | Ended(exit: seq<byte>) | Failed(error: FlashError)

  /** How things stand after one packet: passed on, the end of the session, or a writer that is full. */
  ghost predicate Pumped(s0: State, s: State, w0: seq<byte>, w: seq<byte>, ps: seq<Packet>, round: Round) {
    match round
    case Next(_) => InSession(s0, s, ps) && w == w0 + Select(ps, Stdout)
    case Ended(exit) => SessionOf(s0) == Session(ps, Success(exit), s) && w == w0 + Select(ps, Stdout)
    case Failed(e) =>
      if e == Io then InSession(s0, s, ps) && PartWritten(w0, w, Select(ps, Stdout))
      else SessionOf(s0) == Session(ps, Failure(e), s) && w == w0 + Select(ps, Stdout)
  }

  method PumpPacket(stream: UsbStream, writer: Sink, ghost s0: State, ghost w0: seq<byte>, ghost ps: seq<Packet>)
    returns (round: Round, ghost ps1: seq<Packet>)
    requires stream.Valid() && Pumped(s0, stream.Abs(), w0, writer.written, ps, Next(0))
    modifies stream, writer
    ensures stream.Valid() && Pumped(s0, stream.Abs(), w0, writer.written, ps1, round)
    ensures |writer.written| + writer.room == |old(writer.written)| + old(writer.room)
    ensures round == Failed(Io) ==> writer.room == 0 && |w0| + |Select(ps1, Stdout)| > |writer.written|
    ensures round.Next? ==> Shrinks(old(stream.Abs()), stream.Abs()) && round.n == old(writer.room) - writer.room
    ensures !round.Next? && round != Failed(Io) ==> ps1 == ps
  {
    ps1 := ps;
    SessionContinues(s0, stream.Abs(), ps);
    var got := ReadPacket(stream);
    if got.Failure? {
      return Failed(got.error), ps1;
    }
    var p := got.value;
    if p.id == Exit {
      return Ended(p.data), ps1;
    }
    Taken(ps, p);
    ps1 := ps + [p];
    if p.id != Stdout {
      return Next(0), ps1;
    }
    AppendedOutput(w0, Select(ps, Stdout), p.data, writer.room);
    var ok := writer.WriteAll(p.data);
    round := if ok then Next(|p.data|) else Failed(Io);
  }

  lemma WrittenInFull(w0: seq<byte>, w: seq<byte>, some: seq<byte>, all: seq<byte>, room: nat)
    requires PartWritten(w0, w, some) && some <= all && |w| == |w0| + room
    ensures room <= |all| && w == w0 + all[..room]
  {
    assert w == (w0 + all)[..|w|];
  }

  /**
   * Streams a command's standard output into a writer, counting the bytes.  Exactly if there is more of it
   * than the writer has room for, the writer is filled with its start and fails; else the writer has all of
   * it, and the result is that of the session.
   */
  method AdbShellStream(stream: UsbStream, writer: Sink) returns (r: Result<byte>, received: nat)
    requires stream.Valid()
    modifies stream, writer
    ensures stream.Valid()
    ensures var v := SessionOf(old(stream.Abs())); var out := Select(v.ps, Stdout);
            if |out| > old(writer.room) then
              && r == Failure(Io) && received <= old(writer.room)
              && writer.written == old(writer.written) + out[..old(writer.room)]
            else
              && received == |out|
              && r == (match v.end
                       case Success(exit) => Success(if exit == [] then 255 else exit[0])
                       case Failure(e) => Failure(e))
              && writer.written == old(writer.written) + out
              && SessionOver(old(stream.Abs()), stream.Abs(), v.ps, v.end)
    ensures var v, split := SessionOf(old(stream.Abs())), SplitPackets(old(Available(stream.Abs())));
            old(Accepting(stream.Abs())) ==> v.ps == split.ps && v.end == EndResult(split.end)
  {
    received := 0;
    ghost var s0, w0, ps := stream.Abs(), writer.written, [];
    SessionStarts(s0);
    SessionMeans(s0);
    assert w0 + [] == w0;
    while true
      invariant stream.Valid() && Pumped(s0, stream.Abs(), w0, writer.written, ps, Next(0))
      invariant received == |Select(ps, Stdout)| == old(writer.room) - writer.room
      decreases |stream.incoming|, |stream.readBuf| - stream.readPos
    {
      var round;
      round, ps := PumpPacket(stream, writer, s0, w0, ps);
      match round {
        case Next(n) => received := received + n;
        case Ended(data) => return Success(if data == [] then 255 else data[0]), received;
        case Failed(e) =>
          if e == Io {
            OutputGrows(s0, stream.Abs(), ps);
            WrittenInFull(w0, writer.written, Select(ps, Stdout), Select(SessionOf(s0).ps, Stdout), old(writer.room));
          }
          return Failure(e), received;
      }
    }
  }

  // ----- Streaming in -----

  /** Reads on until the command exits. */
  method AwaitExit(stream: UsbStream) returns (r: Result<byte>, ghost ps: seq<Packet>, ghost reply: Result<seq<byte>>)
    requires stream.Valid()
    modifies stream
    ensures stream.Valid() && SessionOver(old(stream.Abs()), stream.Abs(), ps, reply)
    ensures r == (match reply
                  case Success(exit) => Success(if exit == [] then 255 else exit[0])
                  case Failure(e) => Failure(e))
  {
    ps := [];
    ghost var s0 := stream.Abs();
    SessionStarts(s0);
    SessionMeans(s0);
    while true
      invariant stream.Valid() && InSession(s0, stream.Abs(), ps)
      decreases |stream.incoming|, |stream.readBuf| - stream.readPos
    {
      SessionContinues(s0, stream.Abs(), ps);
      var got := ReadPacket(stream);
      if got.Failure? {
        return Failure(got.error), ps, Failure(got.error);
      }
      var p := got.value;
      if p.id == Exit {
        r := Success(if p.data == [] then 255 else p.data[0]);
        reply := Success(p.data);
        return;
      }
      ps := ps + [p];
    }
  }

  const STDIN_CHUNK: nat := 65536
  const CLOSE_STDIN: Packet := Packet(CloseStdin, [])

  /** Non-empty Stdin packets of at most one chunk. */
  ghost predicate StdinPackets(ps: seq<Packet>) {
    forall p <- ps :: p.id == Stdin && 0 < |p.data| <= STDIN_CHUNK
  }

  /** `ps` packs the bytes `file` for standard input. */
  ghost predicate Packs(ps: seq<Packet>, file: seq<byte>) {
    StdinPackets(ps) && Select(ps, Stdin) == file
  }

  /** One packet for each piece of the file. */
  function Pack(pieces: seq<seq<byte>>): (ps: seq<Packet>)
    ensures |ps| == |pieces|
  {
    if pieces == [] then [] else [Packet(Stdin, pieces[0])] + Pack(pieces[1..])
  }

  lemma {:induction false} PackSnoc(a: seq<seq<byte>>, c: seq<byte>)
    ensures Pack(a + [c]) == Pack(a) + [Packet(Stdin, c)]
  {
    if a == [] {
      assert [] + [c] == [c] && [c][1..] == [];
    } else {
      assert (a + [c])[1..] == a[1..] + [c];
      PackSnoc(a[1..], c);
    }
  }

  lemma {:induction false} PackPacks(pieces: seq<seq<byte>>)
    requires forall c <- pieces :: 0 < |c| <= STDIN_CHUNK
    ensures Packs(Pack(pieces), Concat(pieces))
  {
    if pieces != [] {
      assert pieces[0] in pieces;
      PackPacks(pieces[1..]);
      assert Pack(pieces)[1..] == Pack(pieces[1..]);
    }
  }

  lemma {:induction false} PackPrefix(a: seq<seq<byte>>, b: seq<seq<byte>>)
    requires a <= b
    ensures Pack(a) <= Pack(b)
  {
    if a != [] {
      PackPrefix(a[1..], b[1..]);
    }
  }

  // ----- What goes out -----

  /** One write_all for each packet. */
  function PacketWrites(ps: seq<Packet>): seq<seq<byte>> {
    if ps == [] then [] else PacketWrites(ps[..|ps| - 1]) + [BuildPacket(ps[|ps| - 1])]
  }

  lemma PacketWritesSnoc(ps: seq<Packet>, p: Packet)
    ensures PacketWrites(ps + [p]) == PacketWrites(ps) + [BuildPacket(p)]
  {
    assert (ps + [p])[..|ps|] == ps;
  }

  lemma {:induction false} PacketsAreEncoded(ps: seq<Packet>)
    ensures Concat(PacketWrites(ps)) == EncodeAll(ps)
  {
    if ps != [] {
      var init, last := ps[..|ps| - 1], ps[|ps| - 1];
      assert ps == init + [last];
      PacketsAreEncoded(init);
      ConcatSnoc(PacketWrites(init), BuildPacket(last));
      StartOfStream(init, last);
    }
  }

  lemma StartOfStream(ps: seq<Packet>, p: Packet)
    ensures EncodeAll(ps + [p]) == EncodeAll(ps) + BuildPacket(p)
  {
    EncodeAppend(ps, [p]);
    assert EncodeAll([p]) == BuildPacket(p) + EncodeAll([]);
  }

  lemma {:induction false} FailedStays(s: State, some: seq<Packet>, all: seq<Packet>)
    requires some <= all && WriteEach(s, PacketWrites(some)).r.Err?
    ensures WriteEach(s, PacketWrites(all)) == WriteEach(s, PacketWrites(some))
    decreases |all|
  {
    if some != all {
      var init, last := all[..|all| - 1], all[|all| - 1];
      assert all == init + [last];
      FailedStays(s, some, init);
      WriteEachSnoc(s, PacketWrites(init), BuildPacket(last));
    }
  }

  datatype Packing = More | AllPacked | Unread | Unsent(error: FlashError)

  /** What has become of the packets for `chunks`, the pieces of the file read so far. */
  ghost predicate Packed(p: Packing, s0: State, s: State, all: Reading, chunks: seq<seq<byte>>) {
    var st := WriteEach(s0, PacketWrites(Pack(chunks)));
    && st.s == s
    && (st.r.Err? <==> p.Unsent?)
    && (p.Unsent? ==> chunks <= all.pieces && p.error == StdinError(st.r.error))
    && (p.AllPacked? ==> all == Reading(chunks, true))
    && (p.Unread? ==> all == Reading(chunks, false))
  }

  function StdinError(e: IoError): (f: FlashError)
    ensures f != Io
  {
    if e in {ConnectionReset, BrokenPipe} then DeviceDisconnected else Protocol("stdin write failed")
  }

  /** One piece of the file. */
  method PackPiece(stream: UsbStream, reader: Source, ghost s0: State, ghost all: Reading, ghost chunks: seq<seq<byte>>)
    returns (p: Packing, ghost chunks1: seq<seq<byte>>)
    requires stream.Valid() && reader.Valid()
    requires Packed(More, s0, stream.Abs(), all, chunks) && ReadSoFar(all, chunks, reader.Ahead(STDIN_CHUNK))
    modifies stream, reader
    ensures stream.Valid() && reader.Valid() && old(reader.pos) <= reader.pos
    ensures Packed(p, s0, stream.Abs(), all, chunks1)
    ensures chunks <= chunks1 && reader.content[old(reader.pos)..reader.pos] == Concat(chunks1[|chunks|..])
    ensures p.More? ==> old(reader.pos) < reader.pos && ReadSoFar(all, chunks1, reader.Ahead(STDIN_CHUNK))
    ensures p.AllPacked? ==> reader.pos == |reader.content|
  {
    chunks1 := chunks;
    assert chunks + [] == chunks;
    var ok, data := reader.Read(STDIN_CHUNK);
    if !ok {
      return Unread, chunks1;
    }
    if data == [] {
      return AllPacked, chunks1;
    }
    chunks1 := chunks + [data];
    ReadOneMore(all, chunks, data, reader.Ahead(STDIN_CHUNK));
    assert chunks1[|chunks|..] == [data] && Concat([data]) == data + Concat([]);
    PackSnoc(chunks, data);
    PacketWritesSnoc(Pack(chunks), Packet(Stdin, data));
    WriteEachSnoc(s0, PacketWrites(Pack(chunks)), BuildPacket(Packet(Stdin, data)));
    var w := stream.WriteAll(BuildPacket(Packet(Stdin, data)));
    p := if w.Ok? then More else Unsent(StdinError(w.error));
  }

  /**
   * The loop that packs the file.  Its end state is that of writing one packet for each piece the file
   * comes in; it succeeds exactly when these could be written and the file was read to its end.
   */
  method SendFile(stream: UsbStream, reader: Source) returns (r: Result<()>, ghost chunks: seq<seq<byte>>)
    requires stream.Valid() && reader.Valid()
    modifies stream, reader
    ensures stream.Valid() && reader.Valid() && old(reader.pos) <= reader.pos
    ensures var all := old(reader.Ahead(65536)); var st := WriteEach(old(stream.Abs()), PacketWrites(Pack(all.pieces)));
            && stream.Abs() == st.s
            && r == (if st.r.Ok? then (if all.whole then Success(()) else Failure(Io))
                     else if st.r.error == ConnectionReset || st.r.error == BrokenPipe then Failure(DeviceDisconnected)
                     else Failure(Protocol("stdin write failed")))
            && chunks <= all.pieces && (st.r.Ok? ==> chunks == all.pieces)
    ensures Concat(chunks) == reader.content[old(reader.pos)..reader.pos]
    ensures r.Success? ==> reader.pos == |reader.content|
  {
    chunks := [];
    ghost var s0, start, all := stream.Abs(), reader.pos, reader.Ahead(STDIN_CHUNK);
    assert [] + all.pieces == all.pieces;
    while true
      invariant stream.Valid() && reader.Valid() && start <= reader.pos
      invariant Packed(More, s0, stream.Abs(), all, chunks) && ReadSoFar(all, chunks, reader.Ahead(STDIN_CHUNK))
      invariant Concat(chunks) == reader.content[start..reader.pos]
      decreases |reader.content| - reader.pos
    {
      ghost var pos, before := reader.pos, chunks;
      var p;
      p, chunks := PackPiece(stream, reader, s0, all, chunks);
      ReadMore(reader.content, before, chunks, start, pos, reader.pos);
      match p {
        case More =>
        case AllPacked => return Success(()), chunks;
        case Unread => return Failure(Io), chunks;
        case Unsent(e) =>
          PackPrefix(chunks, all.pieces);
          FailedStays(s0, Pack(chunks), Pack(all.pieces));
          return Failure(e), chunks;
      }
    }
  }

  lemma ReadMore(file: seq<byte>, before: seq<seq<byte>>, chunks: seq<seq<byte>>, i: nat, j: nat, k: nat)
    requires i <= j <= k <= |file| && before <= chunks
    requires Concat(before) == file[i..j] && Concat(chunks[|before|..]) == file[j..k]
    ensures Concat(chunks) == file[i..k]
  {
    assert chunks == before + chunks[|before|..];
    ConcatAppend(before, chunks[|before|..]);
    assert file[i..k] == file[i..j] + file[j..k];
  }

  /** All packets of a session's input whose file reads as `all`; without CloseStdin if that fails. */
  function InputPackets(all: Reading): seq<Packet> {
    Pack(all.pieces) + if all.whole then [CLOSE_STDIN] else []
  }

  lemma InputInSteps(s: State, all: Reading)
    ensures var file := WriteEach(s, PacketWrites(Pack(all.pieces)));
            WriteEach(s, PacketWrites(InputPackets(all))) ==
              if file.r.Err? || !all.whole then file else WriteAll(file.s, BuildPacket(CLOSE_STDIN))
  {
    var ps := Pack(all.pieces);
    if all.whole {
      PacketWritesSnoc(ps, CLOSE_STDIN);
      WriteEachSnoc(s, PacketWrites(ps), BuildPacket(CLOSE_STDIN));
    } else {
      assert ps + [] == ps;
    }
  }

  lemma InputSends(s: State, all: Reading) returns (out: seq<seq<byte>>)
    requires forall c <- all.pieces :: 0 < |c| <= STDIN_CHUNK
    ensures var st := WriteEach(s, PacketWrites(InputPackets(all)));
            && SentSince(s, st.s, out) && Concat(out) <= EncodeAll(InputPackets(all))
            && (Accepting(s) ==> (st.r.Ok? <==> Affords(s, PacketWrites(InputPackets(all)))))
            && (st.r.Ok? ==> DecodeAll(Concat(out)) == (true, InputPackets(all)))
  {
    var ps := InputPackets(all);
    PacketsAreEncoded(ps);
    out := SeriesSends(s, PacketWrites(ps));
    if Accepting(s) {
      WriteEachAnswered(s, PacketWrites(ps));
    }
    PackPacks(all.pieces);
    DecodeInvertsEncode(ps);
  }

  /**
   * What streaming in the file `all` from state `s0` has led to in state `s`.  All of it was sent exactly when
   * the file can be read to its end and all writes work, that is, when the device answers as often as they
   * take; else what was sent is the start of it, and the file is to blame exactly if the writes worked.  What
   * was sent as a whole decodes as one Stdin packet for each piece of the file and then one CloseStdin.
   */
  ghost predicate InputSent(
    s0: State, all: Reading, s: State, ps: seq<Packet>, out: seq<seq<byte>>, sentAll: bool, filesFault: bool)
  {
    var writes := PacketWrites(InputPackets(all));
    var st := WriteEach(s0, writes);
    && s == st.s
    && (sentAll <==> all.whole && st.r.Ok?)
    && (!sentAll ==> (filesFault <==> st.r.Ok?))
    && (Accepting(s0) ==> (st.r.Ok? <==> Affords(s0, writes)))
    && SentSince(s0, s, out) && Concat(out) <= EncodeAll(InputPackets(all))
    && (sentAll ==> ps == Pack(all.pieces) && DecodeAll(Concat(out)) == (true, ps + [Packet(CloseStdin, [])]))
  }

  /** All of the input and the packet that closes it, or as much as can be sent. */
  method SendInput(stream: UsbStream, reader: Source)
    returns (r: Result<()>, ghost ps: seq<Packet>, ghost out: seq<seq<byte>>)
    requires stream.Valid() && reader.Valid()
    modifies stream, reader
    ensures stream.Valid() && reader.Valid() && old(reader.pos) <= reader.pos
    ensures InputSent(old(stream.Abs()), old(reader.Ahead(65536)), stream.Abs(), ps, out, r.Success?, r == Failure(Io))
    ensures Packs(ps, reader.content[old(reader.pos)..reader.pos])
    ensures r.Success? ==> reader.pos == |reader.content|
  {
    ghost var s0, all := stream.Abs(), reader.Ahead(STDIN_CHUNK);
    ReadingCuts(reader.content[reader.pos..], reader.sizes, STDIN_CHUNK);
    InputInSteps(s0, all);
    out := InputSends(s0, all);
    ghost var chunks;
    r, chunks := SendFile(stream, reader);
    ps := Pack(chunks);
    PiecesOfPrefix(chunks, all.pieces);
    PackPacks(chunks);
    if r.Success? {
      var w := stream.WriteAll(BuildPacket(CLOSE_STDIN));
      if w.Err? {
        r := Failure(Protocol("CloseStdin failed"));
      }
    }
  }

  /**
   * Streams a file into a command's standard input: `InputSent` says what goes out, whatever the sizes of
   * the file reads, the WRTE limit and the interleaving with replies, in packets of exactly the bytes read;
   * and if that was all of it, the result is the exit code of the session that follows in state `mid`.
   */
  method AdbShellStreamStdin(stream: UsbStream, reader: Source)
    returns (r: Result<byte>, ghost ps: seq<Packet>, ghost out: seq<seq<byte>>, ghost sentAll: bool,
             ghost mid: State, ghost replies: seq<Packet>, ghost reply: Result<seq<byte>>)
    requires stream.Valid() && reader.Valid()
    modifies stream, reader
    ensures stream.Valid() && reader.Valid() && old(reader.pos) <= reader.pos
    ensures InputSent(old(stream.Abs()), old(reader.Ahead(65536)), mid, ps, out, sentAll, r == Failure(Io))
    ensures !sentAll ==> r.Failure? && stream.Abs() == mid
    ensures Packs(ps, reader.content[old(reader.pos)..reader.pos])
    ensures sentAll ==> reader.pos == |reader.content|
    ensures sentAll ==> SessionOver(mid, stream.Abs(), replies, reply)
    ensures sentAll && reply.Success? ==> r == Success(if reply.value == [] then 255 else reply.value[0])
    ensures sentAll && reply.Failure? ==> r == Failure(reply.error)
    ensures r.Success? ==> sentAll
  {
    replies, reply := [], Failure(Io);
    var input;
    input, ps, out := SendInput(stream, reader);
    mid, sentAll := stream.Abs(), input.Success?;
    if input.Failure? {
      r := Failure(input.error);
      return;
    }
    r, replies, reply := AwaitExit(stream);
  }

  lemma PiecesOfPrefix(a: seq<seq<byte>>, b: seq<seq<byte>>)
    requires a <= b && forall c <- b :: 0 < |c| <= STDIN_CHUNK
    ensures forall c <- a :: 0 < |c| <= STDIN_CHUNK
  {
  }
}

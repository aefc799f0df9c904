/** The Shell V2 packet protocol: framing, and its decoder over whole byte strings. */
module ShellV2 {
  import opened Bytes
  import opened Flash
  import opened StreamSpec
  import opened StreamLoops

  const SHELL_V2_HEADER_SIZE: nat := 5
  const SHELL_V2_MAX_PAYLOAD: nat := 1024 * 1024
  const SHELL_V2_MAX_OUTPUT: nat := 100 * 1024 * 1024

  datatype ShellV2Id = Stdin | Stdout | Stderr | Exit | CloseStdin | WindowSizeChange

  datatype Packet = Packet(id: ShellV2Id, data: seq<byte>)

  function IdByte(id: ShellV2Id): byte {
    match id
    case Stdin => 0
    case Stdout => 1
    case Stderr => 2
    case Exit => 3
    case CloseStdin => 4
    case WindowSizeChange => 5
  }

  predicate KnownId(b: byte) { b <= 5 }

  function IdOf(b: byte): ShellV2Id
    requires KnownId(b)
  {
    if b == 0 then Stdin else if b == 1 then Stdout else if b == 2 then Stderr
    else if b == 3 then Exit else if b == 4 then CloseStdin else WindowSizeChange
  }

  /** The length field is the low 32 bits of the data's length. */
  /** The identifiers are numbered in the order in which the protocol lists them, and there are no others. */
  lemma IdsInOrder(b: byte)
    ensures KnownId(b) <==> b < 6
    ensures b < 6 ==> IdOf(b) == [Stdin, Stdout, Stderr, Exit, CloseStdin, WindowSizeChange][b] && IdByte(IdOf(b)) == b
  {
  }

  function BuildHeader(p: Packet): seq<byte> {
    [IdByte(p.id)] + Le32(Low32(|p.data|))
  }

  function BuildPacket(p: Packet): seq<byte> {
    BuildHeader(p) + p.data
  }

  function EncodeAll(ps: seq<Packet>): seq<byte> {
    if ps == [] then [] else BuildPacket(ps[0]) + EncodeAll(ps[1..])
  }

  /** One packet off the front of a byte string. */
  datatype Parsed = Parsed(p: Packet, rest: seq<byte>) | Short | Bad(why: string)

  function ParsePacket(bytes: seq<byte>): (r: Parsed)
    ensures r.Parsed? ==> |r.rest| < |bytes|
  {
    if |bytes| < SHELL_V2_HEADER_SIZE then Short
    else
      var header, body := bytes[..SHELL_V2_HEADER_SIZE], bytes[SHELL_V2_HEADER_SIZE..];
      if !KnownId(header[0]) then Bad("unknown packet id")
      else
        var len := FromLe32(header[1..5]);
        if len > SHELL_V2_MAX_PAYLOAD then Bad("payload too large")
        else if |body| < len then Short
        else Parsed(Packet(IdOf(header[0]), body[..len]), body[len..])
  }

  predicate Fits(p: Packet) {
    |p.data| <= SHELL_V2_MAX_PAYLOAD
  }

  lemma ParseFramed(h: seq<byte>, data: seq<byte>, rest: seq<byte>)
    requires |h| == SHELL_V2_HEADER_SIZE && KnownId(h[0])
    requires FromLe32(h[1..5]) == |data| <= SHELL_V2_MAX_PAYLOAD
    ensures ParsePacket(h + data + rest) == Parsed(Packet(IdOf(h[0]), data), rest)
  {
    var bytes := h + data + rest;
    assert bytes[..5] == h && bytes[5..] == data + rest;
    assert (data + rest)[..|data|] == data && (data + rest)[|data|..] == rest;
  }

  lemma HeaderTellsLength(p: Packet)
    requires Fits(p)
    ensures var h := BuildHeader(p);
            |h| == SHELL_V2_HEADER_SIZE && h[0] == IdByte(p.id) && FromLe32(h[1..5]) == |p.data|
  {
    Le32RoundTrip(|p.data|);
    assert BuildHeader(p)[1..5] == Le32(|p.data|);
  }

  lemma ParseInvertsBuild(p: Packet, rest: seq<byte>)
    requires Fits(p)
    ensures ParsePacket(BuildPacket(p) + rest) == Parsed(p, rest)
  {
    HeaderTellsLength(p);
    ParseFramed(BuildHeader(p), p.data, rest);
  }

  lemma ParsedIsBuilt(bytes: seq<byte>)
    requires ParsePacket(bytes).Parsed?
    ensures var r := ParsePacket(bytes); Fits(r.p) && bytes == BuildPacket(r.p) + r.rest
  {
    var header, body, r := bytes[..5], bytes[5..], ParsePacket(bytes);
    HeaderIsBuilt(header, r.p.data);
    assert bytes == header + body && body == r.p.data + r.rest;
    Assoc(header, r.p.data, r.rest);
  }

  lemma HeaderIsBuilt(header: seq<byte>, data: seq<byte>)
    requires |header| == SHELL_V2_HEADER_SIZE && KnownId(header[0])
    requires |data| == FromLe32(header[1..5]) <= SHELL_V2_MAX_PAYLOAD
    ensures BuildPacket(Packet(IdOf(header[0]), data)) == header + data
  {
    Le32Inverts(header[1..5]);
    assert header == [header[0]] + header[1..5];
    assert BuildHeader(Packet(IdOf(header[0]), data)) == header;
  }

  // ----- Decoding up to the first Exit -----

  datatype End = Finished(exit: seq<byte>, rest: seq<byte>) | Broken(error: FlashError)

  /** The packets before the first Exit, and how they end. */
  datatype Split = Split(ps: seq<Packet>, end: End)

  function Cons(p: Packet, s: Split): Split {
    s.(ps := [p] + s.ps)
  }

  function SplitPackets(bytes: seq<byte>): Split
    decreases |bytes|
  {
    match ParsePacket(bytes)
    case Short => Split([], Broken(DeviceDisconnected))
    case Bad(why) => Split([], Broken(Protocol(why)))
    case Parsed(p, rest) =>
      if p.id == Exit then Split([], Finished(p.data, rest)) else Cons(p, SplitPackets(rest))
  }

  predicate Plain(ps: seq<Packet>) {
    forall p <- ps :: Fits(p) && p.id != Exit
  }

  /** Demultiplexing inverts framing, whatever follows the Exit. */
  lemma {:induction false} SplitInvertsEncode(ps: seq<Packet>, exit: seq<byte>, rest: seq<byte>)
    requires Plain(ps) && |exit| <= SHELL_V2_MAX_PAYLOAD
    ensures SplitPackets(EncodeAll(ps) + BuildPacket(Packet(Exit, exit)) + rest) == Split(ps, Finished(exit, rest))
  {
    var last := BuildPacket(Packet(Exit, exit));
    if ps == [] {
      assert EncodeAll(ps) + last + rest == last + rest;
      ParseInvertsBuild(Packet(Exit, exit), rest);
    } else {
      var more := EncodeAll(ps[1..]) + last + rest;
      assert EncodeAll(ps) + last + rest == BuildPacket(ps[0]) + more;
      ParseInvertsBuild(ps[0], more);
      SplitInvertsEncode(ps[1..], exit, rest);
      assert [ps[0]] + ps[1..] == ps;
    }
  }

  /** And framing inverts demultiplexing: a finished split accounts for every byte. */
  lemma {:induction false} EncodeInvertsSplit(bytes: seq<byte>)
    requires SplitPackets(bytes).end.Finished?
    ensures var s := SplitPackets(bytes);
            Plain(s.ps) && bytes == EncodeAll(s.ps) + BuildPacket(Packet(Exit, s.end.exit)) + s.end.rest
    decreases |bytes|
  {
    ParsedIsBuilt(bytes);
    var r := ParsePacket(bytes);
    if r.p.id != Exit {
      EncodeInvertsSplit(r.rest);
      var s := SplitPackets(r.rest);
      assert SplitPackets(bytes).ps[1..] == s.ps;
      var last := BuildPacket(Packet(Exit, s.end.exit));
      Assoc4(BuildPacket(r.p), EncodeAll(s.ps), last, s.end.rest);
    } else {
      assert EncodeAll([]) + BuildPacket(r.p) == BuildPacket(r.p);
    }
  }

  /** All packets of a byte string that consists of nothing else. */
  function DecodeAll(bytes: seq<byte>): (r: (bool, seq<Packet>))
    decreases |bytes|
  {
    if bytes == [] then (true, [])
    else
      match ParsePacket(bytes)
      case Parsed(p, rest) =>
        var (ok, ps) := DecodeAll(rest);
        (ok, [p] + ps)
      case _ => (false, [])
  }

  lemma {:induction false} DecodeInvertsEncode(ps: seq<Packet>)
    requires forall p <- ps :: Fits(p)
    ensures DecodeAll(EncodeAll(ps)) == (true, ps)
  {
    if ps != [] {
      ParseInvertsBuild(ps[0], EncodeAll(ps[1..]));
      DecodeInvertsEncode(ps[1..]);
      assert [ps[0]] + ps[1..] == ps && |EncodeAll(ps)| > 0;
    }
  }

  lemma {:induction false} EncodeAppend(a: seq<Packet>, b: seq<Packet>)
    ensures EncodeAll(a + b) == EncodeAll(a) + EncodeAll(b)
  {
    if a == [] {
      assert a + b == b;
    } else {
      assert (a + b)[1..] == a[1..] + b;
      EncodeAppend(a[1..], b);
      assert BuildPacket(a[0]) + (EncodeAll(a[1..]) + EncodeAll(b)) == (BuildPacket(a[0]) + EncodeAll(a[1..])) + EncodeAll(b);
    }
  }

  /** The data of the packets of one kind, in order. */
  function Select(ps: seq<Packet>, id: ShellV2Id): seq<byte> {
    if ps == [] then [] else (if ps[0].id == id then ps[0].data else []) + Select(ps[1..], id)
  }

  lemma {:induction false} SelectAppend(a: seq<Packet>, b: seq<Packet>, id: ShellV2Id)
    ensures Select(a + b, id) == Select(a, id) + Select(b, id)
  {
    if a == [] {
      assert a + b == b;
    } else {
      assert (a + b)[1..] == a[1..] + b;
      SelectAppend(a[1..], b, id);
      var d := if a[0].id == id then a[0].data else [];
      assert d + (Select(a[1..], id) + Select(b, id)) == (d + Select(a[1..], id)) + Select(b, id);
    }
  }

  lemma SelectOne(p: Packet, id: ShellV2Id)
    ensures Select([p], id) == if p.id == id then p.data else []
  {
    assert Select([p], id) == (if p.id == id then p.data else []) + Select([], id);
  }

  // ----- One packet from a stream -----

  function ClassifyStreamError(e: IoError): FlashError {
    if e in {ConnectionReset, UnexpectedEof, TimedOut} then DeviceDisconnected else Protocol("packet read failed")
  }

  datatype Got<+T> = Got(s: State, r: Result<T>)

  function ReadPacket(s: State): Got<Packet> {
    var h := ReadExact(s, SHELL_V2_HEADER_SIZE);
    if h.r.Err? then Got(h.s, Failure(ClassifyStreamError(h.r.error)))
    else
      ReadExactHands(s, SHELL_V2_HEADER_SIZE);
      var header := h.r.value;
      if !KnownId(header[0]) then Got(h.s, Failure(Protocol("unknown packet id")))
      else
        var len := FromLe32(header[1..5]);
        if len > SHELL_V2_MAX_PAYLOAD then Got(h.s, Failure(Protocol("payload too large")))
        else
          var d := ReadExact(h.s, len);
          if d.r.Err? then Got(d.s, Failure(ClassifyStreamError(d.r.error)))
          else Got(d.s, Success(Packet(IdOf(header[0]), d.r.value)))
  }

  /** Reading a packet from the stream is parsing one off the concatenated payloads. */
  lemma ReadPacketParses(s: State)
    requires Accepting(s)
    ensures var g := ReadPacket(s);
            match ParsePacket(Available(s))
            case Parsed(p, rest) => g.r == Success(p) && Available(g.s) == rest && Accepting(g.s)
            case Short => g.r == Failure(DeviceDisconnected)
            case Bad(why) => g.r == Failure(Protocol(why))
  {
    var a := Available(s);
    var h := ReadExact(s, SHELL_V2_HEADER_SIZE);
    ReadExactStock(s, SHELL_V2_HEADER_SIZE);
    ReadExactHands(s, SHELL_V2_HEADER_SIZE);
    if |a| >= SHELL_V2_HEADER_SIZE && KnownId(a[0]) {
      ReadExactStock(h.s, FromLe32(h.r.value[1..5]));
    }
  }

  /** A read that fails is a lost device if it timed out, was reset or ended too early, and a bad stream else. */
  lemma ReadPacketFails(s: State)
    ensures var g, h := ReadPacket(s), ReadExact(s, 5);
            g.r.Failure? && g.r.error.DeviceDisconnected? <==>
              var part := if h.r.Err? || |h.r.value| != 5 || !KnownId(h.r.value[0]) || FromLe32(h.r.value[1..5]) > 1048576
                          then h
                          else ReadExact(h.s, FromLe32(h.r.value[1..5]));
              part.r == Err(TimedOut) || part.r == Err(ConnectionReset) || part.r == Err(UnexpectedEof)
  {
    ReadExactHands(s, 5);
  }

  /** And it hands out exactly the packet's bytes. */
  lemma ReadPacketHands(s: State)
    ensures var g := ReadPacket(s);
            && Chunks(g.s) == Chunks(s) && g.s.maxPayload == s.maxPayload
            && (g.r.Success? ==> Fits(g.r.value) && Handed(g.s) == Handed(s) + BuildPacket(g.r.value))
  {
    var h := ReadExact(s, SHELL_V2_HEADER_SIZE);
    ReadExactHands(s, SHELL_V2_HEADER_SIZE);
    if h.r.Ok? {
      var header := h.r.value;
      var len := FromLe32(header[1..5]);
      ReadExactHands(h.s, len);
      var d := ReadExact(h.s, len);
      if d.r.Ok? && KnownId(header[0]) && len <= SHELL_V2_MAX_PAYLOAD {
        HeaderIsBuilt(header, d.r.value);
        Assoc(Handed(s), header, d.r.value);
      }
    }
  }
}

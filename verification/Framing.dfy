/** Messages on the bulk pipe: building them, and reading one back from whatever transfers carry it. */
module Framing {
  import opened Bytes
  import opened Adb

  /** What one bulk-in transfer yields. */
  datatype Transfer = Data(bytes: seq<byte>) | Silence | Unplugged | Fault

  datatype ReadError = Timeout | Disconnected | UsbError | BadMagic | TooLarge | BadChecksum

  datatype ReadResult = Ok(m: Message) | Err(error: ReadError)

  // ----- Building -----

  /** Sum of all bytes, wrapping at 32 bits. */
  function Checksum(data: seq<byte>): u32 {
    if data == [] then 0 else WrappingAdd(Checksum(data[..|data| - 1]), data[|data| - 1])
  }

  function WrappingAdd(a: u32, b: u32): (r: u32)
    ensures a + b < 0x1_0000_0000 ==> r == a + b
  {
    (a + b) % 0x1_0000_0000
  }

  /** `command ^ 0xFFFF_FFFF`. */
  function Magic(command: u32): u32 {
    0xFFFF_FFFF - command
  }

  /** Bitwise exclusive or of the low `w` bits. */
  function Xor(a: nat, b: nat, w: nat): nat {
    if w == 0 then 0 else (a % 2 + b % 2) % 2 + 2 * Xor(a / 2, b / 2, w - 1)
  }

  function Ones(w: nat): nat {
    if w == 0 then 0 else 2 * Ones(w - 1) + 1
  }

  /** Flipping every bit is subtracting from all ones. */
  lemma {:induction false} XorOnes(a: nat, w: nat)
    requires a <= Ones(w)
    ensures Xor(a, Ones(w), w) == Ones(w) - a
  {
    if w > 0 {
      XorOnes(a / 2, w - 1);
      assert Ones(w) / 2 == Ones(w - 1) && Ones(w) % 2 == 1;
    }
  }

  lemma MagicIsXor(command: u32)
    ensures Magic(command) == Xor(command, 0xFFFF_FFFF, 32)
  {
    assert Ones(8) == 0xFF && Ones(16) == 0xFFFF && Ones(24) == 0xFF_FFFF && Ones(32) == 0xFFFF_FFFF;
    XorOnes(command, 32);
  }

  function BuildHeader(m: Message): seq<byte> {
    Le32(m.command) + Le32(m.arg0) + Le32(m.arg1) + Le32(Low32(|m.data|)) + Le32(Checksum(m.data)) + Le32(Magic(m.command))
  }

  /** The bytes of a message, header and payload. */
  function Encode(m: Message): seq<byte> {
    BuildHeader(m) + m.data
  }

  function Field(header: seq<byte>, i: nat): u32
    requires i < 6 && |header| >= ADB_HEADER_SIZE
  {
    FromLe32(header[4 * i..4 * i + 4])
  }

  lemma HeaderFields(m: Message)
    ensures var h := BuildHeader(m);
            && |h| == ADB_HEADER_SIZE
            && Field(h, 0) == m.command && Field(h, 1) == m.arg0 && Field(h, 2) == m.arg1
            && Field(h, 3) == Low32(|m.data|) && Field(h, 4) == Checksum(m.data) && Field(h, 5) == Magic(m.command)
  {
    SixWords(Le32(m.command), Le32(m.arg0), Le32(m.arg1), Le32(Low32(|m.data|)), Le32(Checksum(m.data)), Le32(Magic(m.command)));
    Le32RoundTrip(m.command);
    Le32RoundTrip(m.arg0);
    Le32RoundTrip(m.arg1);
    Le32RoundTrip(Low32(|m.data|));
    Le32RoundTrip(Checksum(m.data));
    Le32RoundTrip(Magic(m.command));
  }

  lemma SixWords(a: seq<byte>, b: seq<byte>, c: seq<byte>, d: seq<byte>, e: seq<byte>, f: seq<byte>)
    requires |a| == |b| == |c| == |d| == |e| == |f| == 4
    ensures var h := a + b + c + d + e + f;
            |h| == 24 && h[0..4] == a && h[4..8] == b && h[8..12] == c && h[12..16] == d && h[16..20] == e && h[20..24] == f
  {
  }

  // ----- The whole-buffer parser -----

  /** Judges a header and the payload that came with it. */
  function Accept(header: seq<byte>, payload: seq<byte>): ReadResult
    requires |header| >= ADB_HEADER_SIZE
  {
    if Field(header, 4) != 0 && Checksum(payload) != Field(header, 4) then Err(BadChecksum)
    else Ok(Message(Field(header, 0), Field(header, 1), Field(header, 2), payload))
  }

  function ParseMessage(raw: seq<byte>): ReadResult {
    if |raw| < ADB_HEADER_SIZE then Err(UsbError)
    else if Field(raw, 5) != Magic(Field(raw, 0)) then Err(BadMagic)
    else Accept(raw, raw[ADB_HEADER_SIZE..ADB_HEADER_SIZE + Min(Field(raw, 3), |raw| - ADB_HEADER_SIZE)])
  }

  lemma FieldsOfPrefix(h: seq<byte>, rest: seq<byte>, i: nat)
    requires |h| >= ADB_HEADER_SIZE && i < 6
    ensures Field(h + rest, i) == Field(h, i)
  {
    assert (h + rest)[4 * i..4 * i + 4] == h[4 * i..4 * i + 4];
  }

  lemma ParseInvertsBuild(m: Message)
    requires |m.data| < 0x1_0000_0000
    ensures ParseMessage(Encode(m)) == Ok(m)
  {
    var h := BuildHeader(m);
    HeaderFields(m);
    forall i: nat | i < 6 ensures Field(h + m.data, i) == Field(h, i) {
      FieldsOfPrefix(h, m.data, i);
    }
    assert Encode(m)[24..24 + |m.data|] == m.data;
  }

  // ----- Reading from transfers -----

  /** A transfer that exceeds the requested capacity is an error of the bus; no transfer at all is a timeout. */
  function Outcome(ts: seq<Transfer>, capacity: nat): Transfer {
    if ts == [] then Silence
    else if ts[0].Data? && |ts[0].bytes| > capacity then Fault
    else ts[0]
  }

  function Cause(t: Transfer): ReadError
    requires !t.Data?
  {
    match t
    case Silence => Timeout
    case Unplugged => Disconnected
    case Fault => UsbError
  }

  /** Bytes gathered, or the reason to stop; and the transfers not yet used. */
  datatype Gathered = Got(bytes: seq<byte>, rest: seq<Transfer>) | Stopped(error: ReadError, rest: seq<Transfer>)

  function HeaderCapacity(have: nat): nat {
    Max(ADB_HEADER_SIZE - have, 64)
  }

  function PayloadCapacity(have: nat, len: nat): nat
    requires have < len
  {
    Min(len - have, USB_READ_BUF)
  }

  function GatherHeader(acc: seq<byte>, ts: seq<Transfer>): (g: Gathered)
    ensures g.Got? ==> |g.bytes| >= ADB_HEADER_SIZE
    decreases |ts|
  {
    if |acc| >= ADB_HEADER_SIZE then Got(acc, ts)
    else
      var t := Outcome(ts, HeaderCapacity(|acc|));
      if !t.Data? then Stopped(Cause(t), Tail(ts)) else GatherHeader(acc + t.bytes, Tail(ts))
  }

  function GatherPayload(acc: seq<byte>, len: nat, ts: seq<Transfer>): Gathered
    decreases |ts|
  {
    if |acc| >= len then Got(acc, ts)
    else
      var t := Outcome(ts, PayloadCapacity(|acc|, len));
      if !t.Data? then Stopped(Cause(t), Tail(ts)) else GatherPayload(acc + t.bytes, len, Tail(ts))
  }

  /** One message read, and the transfers left. */
  function ReadMessage(ts: seq<Transfer>): (ReadResult, seq<Transfer>) {
    match GatherHeader([], ts)
    case Stopped(e, rest) => (Err(e), rest)
    case Got(header, ts1) =>
      if Field(header, 5) != Magic(Field(header, 0)) then (Err(BadMagic), ts1)
      else if Field(header, 3) > MAX_PAYLOAD then (Err(TooLarge), ts1)
      else
        match GatherPayload(header[ADB_HEADER_SIZE..], Field(header, 3), ts1)
        case Stopped(e, rest) => (Err(e), rest)
        case Got(payload, rest) => (Accept(header, payload), rest)
  }

  // ----- Fragmentation -----

  /**
   * `ts` cuts `bytes[at..]` into transfers that stop at the end: of up to 64 bytes as long as less than
   * the header has come, and of up to 16384 behind it.
   */
  ghost predicate Cuts(bytes: seq<byte>, at: nat, ts: seq<Transfer>)
    decreases |ts|
  {
    if ts == [] then at == |bytes|
    else
      && at < |bytes|
      && ts[0].Data?
      && at + |ts[0].bytes| <= |bytes|
      && ts[0].bytes == bytes[at..at + |ts[0].bytes|]
      && |ts[0].bytes| <= (if at < 24 then 64 else 16384)
      && Cuts(bytes, at + |ts[0].bytes|, ts[1..])
  }

  lemma {:induction false} HeaderGathers(bytes: seq<byte>, at: nat, ts: seq<Transfer>, rest: seq<Transfer>) returns (k: nat, p: nat)
    requires |bytes| >= ADB_HEADER_SIZE && at <= |bytes| && Cuts(bytes, at, ts)
    ensures k <= |ts| && ADB_HEADER_SIZE <= p <= |bytes| && Cuts(bytes, p, ts[k..])
    ensures GatherHeader(bytes[..at], ts + rest) == Got(bytes[..p], ts[k..] + rest)
    decreases |ts|
  {
    if at >= ADB_HEADER_SIZE {
      k, p := 0, at;
    } else {
      var n := |ts[0].bytes|;
      assert (ts + rest)[1..] == ts[1..] + rest;
      assert bytes[..at] + ts[0].bytes == bytes[..at + n];
      k, p := HeaderGathers(bytes, at + n, ts[1..], rest);
      assert ts[1..][k..] == ts[k + 1..];
      k := k + 1;
    }
  }

  lemma {:induction false} PayloadGathers(bytes: seq<byte>, at: nat, ts: seq<Transfer>, rest: seq<Transfer>)
    requires ADB_HEADER_SIZE <= at <= |bytes| && Cuts(bytes, at, ts)
    ensures GatherPayload(bytes[ADB_HEADER_SIZE..at], |bytes| - ADB_HEADER_SIZE, ts + rest) ==
              Got(bytes[ADB_HEADER_SIZE..], rest)
    decreases |ts|
  {
    if ts == [] {
      assert ts + rest == rest;
      assert bytes[ADB_HEADER_SIZE..at] == bytes[ADB_HEADER_SIZE..];
    } else {
      var n := |ts[0].bytes|;
      assert (ts + rest)[1..] == ts[1..] + rest;
      assert bytes[ADB_HEADER_SIZE..at] + ts[0].bytes == bytes[ADB_HEADER_SIZE..at + n];
      PayloadGathers(bytes, at + n, ts[1..], rest);
    }
  }

  /**
   * A message comes back whole from every cutting of its bytes, even one that mixes header and
   * payload in a transfer, and nothing beyond it is used.
   */
  lemma ReadInvertsEncode(m: Message, ts: seq<Transfer>, rest: seq<Transfer>)
    requires |m.data| <= MAX_PAYLOAD && Cuts(Encode(m), 0, ts)
    ensures ReadMessage(ts + rest) == (Ok(m), rest)
  {
    var bytes, h := Encode(m), BuildHeader(m);
    HeaderFields(m);
    assert bytes[..0] == [];
    var k, p := HeaderGathers(bytes, 0, ts, rest);
    var header := bytes[..p];
    HeaderOfPrefix(m, p);
    PayloadGathers(bytes, p, ts[k..], rest);
    assert header[ADB_HEADER_SIZE..] == bytes[ADB_HEADER_SIZE..p];
    assert bytes[ADB_HEADER_SIZE..] == m.data;
  }

  lemma HeaderOfPrefix(m: Message, p: nat)
    requires ADB_HEADER_SIZE <= p <= |Encode(m)| && |m.data| <= MAX_PAYLOAD
    ensures var header := Encode(m)[..p];
            && Field(header, 0) == m.command && Field(header, 1) == m.arg0 && Field(header, 2) == m.arg1
            && Field(header, 3) == |m.data| && Field(header, 4) == Checksum(m.data) && Field(header, 5) == Magic(m.command)
  {
    HeaderFields(m);
    var h := BuildHeader(m);
    assert Encode(m)[..p] == h + m.data[..p - 24];
    forall i: nat | i < 6 ensures Field(h + m.data[..p - 24], i) == Field(h, i) {
      FieldsOfPrefix(h, m.data[..p - 24], i);
    }
  }

  // ----- Which cuttings there are -----

  function DataOf(pieces: seq<seq<byte>>): seq<Transfer> {
    if pieces == [] then [] else [Data(pieces[0])] + DataOf(pieces[1..])
  }

  lemma {:induction false} PiecesAreCuts(bytes: seq<byte>, at: nat, pieces: seq<seq<byte>>)
    requires 24 <= at <= |bytes| && Concat(pieces) == bytes[at..]
    requires forall p <- pieces :: 0 < |p| <= 16384
    ensures Cuts(bytes, at, DataOf(pieces))
    decreases |pieces|
  {
    if pieces != [] {
      var n := |pieces[0]|;
      assert pieces[0] in pieces && bytes[at..][..n] == pieces[0];
      assert bytes[at..][n..] == bytes[at + n..] == Concat(pieces[1..]);
      PiecesAreCuts(bytes, at + n, pieces[1..]);
      assert DataOf(pieces)[1..] == DataOf(pieces[1..]);
    }
  }

  /** A message comes back whole if its header travels alone and its payload in pieces of up to 16384 bytes. */
  lemma HeaderThenPieces(m: Message, pieces: seq<seq<byte>>, rest: seq<Transfer>)
    requires |m.data| <= 1048576 && Concat(pieces) == m.data && forall p <- pieces :: 0 < |p| <= 16384
    ensures ReadMessage([Data(BuildHeader(m))] + DataOf(pieces) + rest) == (Ok(m), rest)
  {
    HeaderFields(m);
    var bytes, ts := Encode(m), [Data(BuildHeader(m))] + DataOf(pieces);
    assert bytes[24..] == m.data && bytes[0..24] == BuildHeader(m);
    PiecesAreCuts(bytes, 24, pieces);
    assert ts[1..] == DataOf(pieces);
    ReadInvertsEncode(m, ts, rest);
  }

  /** And one of up to 40 bytes of data, if all of it travels at once. */
  lemma ShortMessageAtOnce(m: Message, rest: seq<Transfer>)
    requires |m.data| <= 40
    ensures ReadMessage([Data(Encode(m))] + rest) == (Ok(m), rest)
  {
    HeaderFields(m);
    var bytes := Encode(m);
    assert bytes[0..|bytes|] == bytes && [Data(bytes)][1..] == [];
    ReadInvertsEncode(m, [Data(bytes)], rest);
  }

  lemma HeaderAlone(h: seq<byte>, behind: seq<Transfer>)
    requires |h| == ADB_HEADER_SIZE
    ensures GatherHeader([], [Data(h)] + behind) == Got(h, behind)
  {
    assert ([Data(h)] + behind)[1..] == behind && [] + h == h;
    assert GatherHeader(h, behind) == Got(h, behind);
  }

  lemma {:induction false} PayloadTooLong(
    acc: seq<byte>, pieces: seq<seq<byte>>, len: nat, big: seq<byte>, rest: seq<Transfer>)
    requires (forall p <- pieces :: 0 < |p| <= 16384) && |acc| + |Concat(pieces)| < len
    requires |big| > Min(len - |acc| - |Concat(pieces)|, 16384)
    ensures GatherPayload(acc, len, DataOf(pieces) + ([Data(big)] + rest)) == Stopped(UsbError, rest)
    decreases |pieces|
  {
    if pieces == [] {
      assert DataOf(pieces) + ([Data(big)] + rest) == [Data(big)] + rest && ([Data(big)] + rest)[1..] == rest;
    } else {
      var more := DataOf(pieces[1..]) + ([Data(big)] + rest);
      assert pieces[0] in pieces && DataOf(pieces) + ([Data(big)] + rest) == [Data(pieces[0])] + more;
      assert ([Data(pieces[0])] + more)[1..] == more;
      PayloadTooLong(acc + pieces[0], pieces[1..], len, big, rest);
    }
  }

  /**
   * But no more may come at once: a first transfer of more than 64 bytes is a fault, and so is one behind the
   * header of more than 16384 bytes or more than are missing.
   */
  lemma OversizeIsAFault(m: Message, pieces: seq<seq<byte>>, big: seq<byte>, rest: seq<Transfer>)
    requires (forall p <- pieces :: 0 < |p| <= 16384) && |Concat(pieces)| < |m.data| <= 1048576
    ensures |big| > 64 ==> ReadMessage([Data(big)] + rest) == (Err(UsbError), rest)
    ensures |big| > Min(|m.data| - |Concat(pieces)|, 16384) ==>
              ReadMessage([Data(BuildHeader(m))] + (DataOf(pieces) + ([Data(big)] + rest))) == (Err(UsbError), rest)
  {
    if |big| > 64 {
      assert ([Data(big)] + rest)[1..] == rest;
      assert GatherHeader([], [Data(big)] + rest) == Stopped(UsbError, rest);
    }
    if |big| > Min(|m.data| - |Concat(pieces)|, 16384) {
      PayloadFaults(m, pieces, big, rest);
    }
  }

  lemma PayloadFaults(m: Message, pieces: seq<seq<byte>>, big: seq<byte>, rest: seq<Transfer>)
    requires (forall p <- pieces :: 0 < |p| <= 16384) && |Concat(pieces)| < |m.data| <= 1048576
    requires |big| > Min(|m.data| - |Concat(pieces)|, 16384)
    ensures ReadMessage([Data(BuildHeader(m))] + (DataOf(pieces) + ([Data(big)] + rest))) == (Err(UsbError), rest)
  {
    HeaderFields(m);
    var h, behind := BuildHeader(m), DataOf(pieces) + ([Data(big)] + rest);
    HeaderAlone(h, behind);
    PayloadTooLong([], pieces, |m.data|, big, rest);
    assert h[ADB_HEADER_SIZE..] == [];
    ReadStops([Data(h)] + behind, h, behind, UsbError, rest);
  }

  // ----- What the reader refuses -----

  lemma {:induction false} PayloadInPieces(acc: seq<byte>, pieces: seq<seq<byte>>, rest: seq<Transfer>)
    requires forall p <- pieces :: 0 < |p| <= 16384
    ensures GatherPayload(acc, |acc| + |Concat(pieces)|, DataOf(pieces) + rest) == Got(acc + Concat(pieces), rest)
    decreases |pieces|
  {
    if pieces == [] {
      assert DataOf(pieces) + rest == rest && acc + Concat(pieces) == acc;
    } else {
      var more := DataOf(pieces[1..]) + rest;
      assert pieces[0] in pieces && DataOf(pieces) + rest == [Data(pieces[0])] + more;
      assert ([Data(pieces[0])] + more)[1..] == more;
      PayloadInPieces(acc + pieces[0], pieces[1..], rest);
      Assoc(acc, pieces[0], Concat(pieces[1..]));
    }
  }

  /** A header without its right magic, or announcing more than a mebibyte, is refused at once. */
  lemma HeadersAreJudged(h: seq<byte>, rest: seq<Transfer>)
    requires |h| == 24
    ensures Field(h, 5) != Xor(Field(h, 0), 0xFFFF_FFFF, 32) ==> ReadMessage([Data(h)] + rest) == (Err(BadMagic), rest)
    ensures Field(h, 5) == Xor(Field(h, 0), 0xFFFF_FFFF, 32) && Field(h, 3) > 1048576 ==>
              ReadMessage([Data(h)] + rest) == (Err(TooLarge), rest)
  {
    HeaderAlone(h, rest);
    MagicIsXor(Field(h, 0));
  }

  /** Any other header is followed by its payload, which is refused exactly for a wrong checksum other than zero. */
  lemma ChecksumsAreJudged(h: seq<byte>, pieces: seq<seq<byte>>, rest: seq<Transfer>)
    requires |h| == 24 && Field(h, 5) == Xor(Field(h, 0), 0xFFFF_FFFF, 32) && Field(h, 3) == |Concat(pieces)| <= 1048576
    requires forall p <- pieces :: 0 < |p| <= 16384
    ensures ReadMessage([Data(h)] + (DataOf(pieces) + rest)) ==
              if Field(h, 4) == 0 || Field(h, 4) == Checksum(Concat(pieces)) then
                (Ok(Message(Field(h, 0), Field(h, 1), Field(h, 2), Concat(pieces))), rest)
              else (Err(BadChecksum), rest)
  {
    MagicIsXor(Field(h, 0));
    ReadInPieces(h, pieces, rest);
  }

  lemma ReadInPieces(h: seq<byte>, pieces: seq<seq<byte>>, rest: seq<Transfer>)
    requires |h| == 24 && Field(h, 5) == Magic(Field(h, 0)) && Field(h, 3) == |Concat(pieces)| <= 1048576
    requires forall p <- pieces :: 0 < |p| <= 16384
    ensures ReadMessage([Data(h)] + (DataOf(pieces) + rest)) == (Accept(h, Concat(pieces)), rest)
  {
    PiecesGather(pieces, rest);
    ReadBehind(h, DataOf(pieces) + rest, Concat(pieces), rest);
  }

  lemma PiecesGather(pieces: seq<seq<byte>>, rest: seq<Transfer>)
    requires forall p <- pieces :: 0 < |p| <= 16384
    ensures GatherPayload([], |Concat(pieces)|, DataOf(pieces) + rest) == Got(Concat(pieces), rest)
  {
    PayloadInPieces([], pieces, rest);
    assert [] + Concat(pieces) == Concat(pieces);
  }

  lemma ReadBehind(h: seq<byte>, ts: seq<Transfer>, payload: seq<byte>, rest: seq<Transfer>)
    requires |h| == 24 && Field(h, 5) == Magic(Field(h, 0)) && Field(h, 3) == |payload| <= 1048576
    requires GatherPayload([], |payload|, ts) == Got(payload, rest)
    ensures ReadMessage([Data(h)] + ts) == (Accept(h, payload), rest)
  {
    HeaderAlone(h, ts);
    assert h[ADB_HEADER_SIZE..] == [];
    ReadGathers([Data(h)] + ts, h, ts, payload, rest);
  }

  lemma ReadGathers(all: seq<Transfer>, header: seq<byte>, ts: seq<Transfer>, payload: seq<byte>, rest: seq<Transfer>)
    requires |header| >= ADB_HEADER_SIZE && GatherHeader([], all) == Got(header, ts)
    requires Field(header, 5) == Magic(Field(header, 0)) && Field(header, 3) <= MAX_PAYLOAD
    requires GatherPayload(header[ADB_HEADER_SIZE..], Field(header, 3), ts) == Got(payload, rest)
    ensures ReadMessage(all) == (Accept(header, payload), rest)
  {
  }

  /**
   * The parser of whole messages, on any bytes: fewer than a header's are refused, and so are a wrong magic
   * and a wrong checksum other than zero; it takes as much of the announced payload as there is.
   */
  lemma BytesAreJudged(h: seq<byte>, tail: seq<byte>)
    ensures |h| < 24 ==> ParseMessage(h) == Err(UsbError)
    ensures |h| == 24 && Field(h, 5) != Xor(Field(h, 0), 0xFFFF_FFFF, 32) ==> ParseMessage(h + tail) == Err(BadMagic)
    ensures |h| == 24 && Field(h, 5) == Xor(Field(h, 0), 0xFFFF_FFFF, 32) ==>
              var payload := tail[..Min(Field(h, 3), |tail|)];
              ParseMessage(h + tail) ==
                if Field(h, 4) != 0 && Field(h, 4) != Checksum(payload) then Err(BadChecksum)
                else Ok(Message(Field(h, 0), Field(h, 1), Field(h, 2), payload))
  {
    if |h| == 24 {
      MagicIsXor(Field(h, 0));
      forall i: nat | i < 6 ensures Field(h + tail, i) == Field(h, i) {
        FieldsOfPrefix(h, tail, i);
      }
      var n := Min(Field(h, 3), |tail|);
      assert (h + tail)[24..24 + n] == tail[..n];
    }
  }

  // ----- The reader's log -----

  lemma {:induction false} GatherHeaderUses(acc: seq<byte>, ts: seq<Transfer>)
    ensures |GatherHeader(acc, ts).rest| <= |ts|
    ensures |acc| < ADB_HEADER_SIZE && ts != [] ==> |GatherHeader(acc, ts).rest| < |ts|
    decreases |ts|
  {
    if |acc| < ADB_HEADER_SIZE && ts != [] {
      var t := Outcome(ts, HeaderCapacity(|acc|));
      if t.Data? {
        GatherHeaderUses(acc + t.bytes, Tail(ts));
      }
    }
  }

  lemma {:induction false} GatherPayloadUses(acc: seq<byte>, len: nat, ts: seq<Transfer>)
    ensures |GatherPayload(acc, len, ts).rest| <= |ts|
    decreases |ts|
  {
    if |acc| < len && ts != [] {
      var t := Outcome(ts, PayloadCapacity(|acc|, len));
      if t.Data? {
        GatherPayloadUses(acc + t.bytes, len, Tail(ts));
      }
    }
  }

  lemma ReadUses(ts: seq<Transfer>)
    requires ts != []
    ensures |ReadMessage(ts).1| < |ts|
  {
    GatherHeaderUses([], ts);
    match GatherHeader([], ts) {
      case Got(header, ts1) => GatherPayloadUses(header[ADB_HEADER_SIZE..], Field(header, 3), ts1);
      case _ =>
    }
  }

  /** Errors after which the dispatcher's reader goes on. */
  predicate Survivable(e: ReadError) {
    e == Timeout || e == BadMagic
  }

  /** The messages the reader decodes from a connection, in order, until an error stops it. */
  function Decoded(ts: seq<Transfer>): seq<Message>
    decreases |ts|
  {
    if ts == [] then []
    else
      ReadUses(ts);
      var (r, rest) := ReadMessage(ts);
      match r
      case Ok(m) => [m] + Decoded(rest)
      case Err(e) => if Survivable(e) then Decoded(rest) else []
  }

  /** A message and how it travels: silent transfers first, then its bytes. */
  datatype Delivery = Delivery(m: Message, silences: nat, ts: seq<Transfer>)

  ghost predicate Delivers(d: Delivery) {
    |d.m.data| <= MAX_PAYLOAD && Cuts(Encode(d.m), 0, d.ts)
  }

  function Travel(ds: seq<Delivery>): seq<Transfer> {
    if ds == [] then [] else seq(ds[0].silences, _ => Silence) + ds[0].ts + Travel(ds[1..])
  }

  lemma {:induction false} SilencesPass(n: nat, rest: seq<Transfer>)
    ensures Decoded(seq(n, _ => Silence) + rest) == Decoded(rest)
    decreases n
  {
    if n == 0 {
      assert seq(n, _ => Silence) + rest == rest;
    } else {
      var ts := seq(n, _ => Silence) + rest;
      assert ts[1..] == seq(n - 1, _ => Silence) + rest;
      assert ReadMessage(ts) == (Err(Timeout), ts[1..]);
      SilencesPass(n - 1, rest);
    }
  }

  /** Every sequence of messages is decoded in order, however each is cut and however long the pauses between them. */
  lemma {:induction false} LogIsFaithful(ds: seq<Delivery>)
    requires forall d <- ds :: Delivers(d)
    ensures Decoded(Travel(ds)) == Messages(ds)
  {
    if ds != [] {
      var d, rest := ds[0], Travel(ds[1..]);
      assert Delivers(d);
      Assoc(seq(d.silences, _ => Silence), d.ts, rest);
      SilencesPass(d.silences, d.ts + rest);
      ReadInvertsEncode(d.m, d.ts, rest);
      HeaderFields(d.m);
      assert d.ts != [];
      LogIsFaithful(ds[1..]);
    }
  }

  function Messages(ds: seq<Delivery>): seq<Message> {
    if ds == [] then [] else [ds[0].m] + Messages(ds[1..])
  }

  lemma ReaderFails(ts: seq<Transfer>, e: ReadError, rest: seq<Transfer>)
    requires ts != [] && ReadMessage(ts) == (Err(e), rest)
    ensures |rest| < |ts| && Decoded(ts) == if e == Timeout || e == BadMagic then Decoded(rest) else []
  {
    ReadUses(ts);
  }

  /** Silence is passed over; a vanished device or a failing transfer ends the log of the dispatcher's reader. */
  lemma ReaderGoesOn(rest: seq<Transfer>)
    ensures Decoded([Silence] + rest) == Decoded(rest)
    ensures Decoded([Unplugged] + rest) == [] && Decoded([Fault] + rest) == []
  {
    SilencesPass(1, rest);
    assert seq(1, _ => Silence) == [Silence];
    assert ([Unplugged] + rest)[1..] == rest && ([Fault] + rest)[1..] == rest;
    ReaderFails([Unplugged] + rest, Disconnected, rest);
    ReaderFails([Fault] + rest, UsbError, rest);
  }

  /** A header without its magic is passed over, too; one that announces too much ends the log. */
  lemma ReaderJudgesHeaders(h: seq<byte>, rest: seq<Transfer>)
    requires |h| == 24
    ensures var magic := Field(h, 5) == Xor(Field(h, 0), 0xFFFF_FFFF, 32);
            && (!magic ==> Decoded([Data(h)] + rest) == Decoded(rest))
            && (magic && Field(h, 3) > 1048576 ==> Decoded([Data(h)] + rest) == [])
  {
    HeadersAreJudged(h, rest);
    if Field(h, 5) != Xor(Field(h, 0), 0xFFFF_FFFF, 32) {
      ReaderFails([Data(h)] + rest, BadMagic, rest);
    } else if Field(h, 3) > 1048576 {
      ReaderFails([Data(h)] + rest, TooLarge, rest);
    }
  }

  /** And so does a payload with a wrong checksum other than zero. */
  lemma ReaderJudgesPayloads(h: seq<byte>, pieces: seq<seq<byte>>, rest: seq<Transfer>)
    requires |h| == 24 && Field(h, 5) == Xor(Field(h, 0), 0xFFFF_FFFF, 32) && Field(h, 3) == |Concat(pieces)| <= 1048576
    requires (forall p <- pieces :: 0 < |p| <= 16384) && Field(h, 4) != 0 && Field(h, 4) != Checksum(Concat(pieces))
    ensures Decoded([Data(h)] + (DataOf(pieces) + rest)) == []
  {
    ChecksumsAreJudged(h, pieces, rest);
    ReaderFails([Data(h)] + (DataOf(pieces) + rest), BadChecksum, rest);
  }

  // ----- Interruptions -----

  /** The first `k` transfers of a cutting, then one that carries no data. */
  function Interrupted(ts: seq<Transfer>, k: nat, t: Transfer, rest: seq<Transfer>): seq<Transfer>
    requires k <= |ts|
  {
    ts[..k] + [t] + rest
  }

  lemma InterruptedNext(ts: seq<Transfer>, k: nat, t: Transfer, rest: seq<Transfer>)
    requires k <= |ts|
    ensures k == 0 ==> Interrupted(ts, k, t, rest)[0] == t && Interrupted(ts, k, t, rest)[1..] == rest
    ensures k > 0 ==>
              && Interrupted(ts, k, t, rest)[0] == ts[0]
              && Interrupted(ts, k, t, rest)[1..] == Interrupted(ts[1..], k - 1, t, rest)
  {
    if k > 0 {
      assert ts[..k] == [ts[0]] + ts[1..][..k - 1];
    }
  }

  lemma InterruptedBehind(ts: seq<Transfer>, t: Transfer, rest: seq<Transfer>)
    ensures Interrupted(ts, |ts|, t, rest) == ts + ([t] + rest)
  {
    assert ts[..|ts|] == ts;
    Assoc(ts, [t], rest);
  }

  /** What the header loop makes of the interruption: it stops there, or has its header before. */
  ghost predicate StopsOrPasses(
    g: Gathered, bytes: seq<byte>, ts: seq<Transfer>, k: nat, t: Transfer, rest: seq<Transfer>, p: nat)
  {
    || (!t.Data? && g == Stopped(Cause(t), rest))
    || (&& k < |ts| && ADB_HEADER_SIZE <= p <= |bytes| && Cuts(bytes, p, ts)
        && g == Got(bytes[..p], Interrupted(ts, k, t, rest)))
  }

  lemma {:induction false} HeaderStops(bytes: seq<byte>, at: nat, ts: seq<Transfer>, k: nat, t: Transfer, rest: seq<Transfer>)
    returns (left: seq<Transfer>, j: nat, p: nat)
    requires |bytes| >= ADB_HEADER_SIZE && at <= |bytes| && Cuts(bytes, at, ts) && k < |ts| && !t.Data?
    ensures StopsOrPasses(GatherHeader(bytes[..at], Interrupted(ts, k, t, rest)), bytes, left, j, t, rest, p)
    decreases |ts|
  {
    left, j, p := ts, k, at;
    InterruptedNext(ts, k, t, rest);
    if at < ADB_HEADER_SIZE && k > 0 {
      var n := |ts[0].bytes|;
      assert bytes[..at] + ts[0].bytes == bytes[..at + n];
      left, j, p := HeaderStops(bytes, at + n, ts[1..], k - 1, t, rest);
    }
  }

  lemma {:induction false} PayloadStops(bytes: seq<byte>, at: nat, ts: seq<Transfer>, k: nat, t: Transfer, rest: seq<Transfer>)
    requires ADB_HEADER_SIZE <= at <= |bytes| && Cuts(bytes, at, ts) && k < |ts| && !t.Data?
    ensures GatherPayload(bytes[ADB_HEADER_SIZE..at], |bytes| - ADB_HEADER_SIZE, Interrupted(ts, k, t, rest)) ==
              Stopped(Cause(t), rest)
    decreases |ts|
  {
    InterruptedNext(ts, k, t, rest);
    if k > 0 {
      var n := |ts[0].bytes|;
      assert bytes[ADB_HEADER_SIZE..at] + ts[0].bytes == bytes[ADB_HEADER_SIZE..at + n];
      PayloadStops(bytes, at + n, ts[1..], k - 1, t, rest);
    }
  }

  /**
   * A timeout, or a failing transfer, anywhere before the last byte of a message loses what was read of
   * it, header or payload: the next read starts behind it, in the middle of the message.  Only behind the
   * last byte does it do no harm.  The handshake bounds each transfer by a deadline; the dispatcher's
   * reader looks at the clock only between transfers, so that there silence before a transfer it waits
   * for is no timeout until that transfer has come and left the message incomplete.
   */
  lemma TimeoutInsideMessageLoses(m: Message, ts: seq<Transfer>, k: nat, t: Transfer, rest: seq<Transfer>)
    requires |m.data| <= MAX_PAYLOAD && Cuts(Encode(m), 0, ts) && k <= |ts| && !t.Data?
    ensures ReadMessage(Interrupted(ts, k, t, rest)) ==
              if k == |ts| then (Ok(m), [t] + rest)
              else (Err(if t.Silence? then Timeout else if t.Unplugged? then Disconnected else UsbError), rest)
  {
    if k == |ts| {
      InterruptedBehind(ts, t, rest);
      ReadInvertsEncode(m, ts, [t] + rest);
    } else {
      StopBeforeTheEnd(m, ts, k, t, rest);
    }
  }

  lemma StopBeforeTheEnd(m: Message, ts: seq<Transfer>, k: nat, t: Transfer, rest: seq<Transfer>)
    requires |m.data| <= MAX_PAYLOAD && Cuts(Encode(m), 0, ts) && k < |ts| && !t.Data?
    ensures ReadMessage(Interrupted(ts, k, t, rest)) == (Err(Cause(t)), rest)
  {
    var all := Interrupted(ts, k, t, rest);
    assert Encode(m)[..0] == [];
    var left, j, p := HeaderStops(Encode(m), 0, ts, k, t, rest);
    if GatherHeader([], all).Got? {
      StopInPayload(m, all, p, left, j, t, rest);
    } else {
      assert ReadMessage(all) == (Err(Cause(t)), rest);
    }
  }

  lemma StopInPayload(m: Message, all: seq<Transfer>, p: nat, ts: seq<Transfer>, k: nat, t: Transfer, rest: seq<Transfer>)
    requires |m.data| <= MAX_PAYLOAD && ADB_HEADER_SIZE <= p <= |Encode(m)| && Cuts(Encode(m), p, ts)
    requires k < |ts| && !t.Data? && GatherHeader([], all) == Got(Encode(m)[..p], Interrupted(ts, k, t, rest))
    ensures ReadMessage(all) == (Err(Cause(t)), rest)
  {
    var bytes := Encode(m);
    var header := bytes[..p];
    assert GatherPayload(header[ADB_HEADER_SIZE..], |m.data|, Interrupted(ts, k, t, rest)) == Stopped(Cause(t), rest) by {
      PayloadStops(bytes, p, ts, k, t, rest);
      assert header[ADB_HEADER_SIZE..] == bytes[ADB_HEADER_SIZE..p];
    }
    assert Field(header, 5) == Magic(Field(header, 0)) && Field(header, 3) == |m.data| by {
      HeaderOfPrefix(m, p);
    }
    ReadStops(all, header, Interrupted(ts, k, t, rest), Cause(t), rest);
  }

  lemma ReadStops(all: seq<Transfer>, header: seq<byte>, ts: seq<Transfer>, e: ReadError, rest: seq<Transfer>)
    requires |header| >= ADB_HEADER_SIZE && GatherHeader([], all) == Got(header, ts)
    requires Field(header, 5) == Magic(Field(header, 0)) && Field(header, 3) <= MAX_PAYLOAD
    requires GatherPayload(header[ADB_HEADER_SIZE..], Field(header, 3), ts) == Stopped(e, rest)
    ensures ReadMessage(all) == (Err(e), rest)
  {
  }
}

/** The SYNC service: pushing a file to the device and pulling one from it. */
module Sync {
  import opened Bytes
  import opened Flash
  import opened Wrappers
  import opened StreamSpec
  import opened StreamLoops
  import opened StreamWrites
  import opened UsbStreams

  const SYNC_DATA_MAX: nat := 65536
  const ID_STAT: u32 := 0x5441_5453
  const ID_SEND: u32 := 0x444E_4553
  const ID_RECV: u32 := 0x5643_4552
  const ID_DATA: u32 := 0x4154_4144
  const ID_DONE: u32 := 0x454E_4F44
  const ID_OKAY: u32 := 0x5941_4B4F
  const ID_FAIL: u32 := 0x4C49_4146

  // ----- Frames -----

  function Header(id: u32, value: u32): seq<byte> {
    Le32(id) + Le32(value)
  }

  function Frame(id: u32, payload: seq<byte>): seq<byte> {
    Header(id, Low32(|payload|)) + payload
  }

  function DataFrames(chunks: seq<seq<byte>>): seq<byte> {
    if chunks == [] then [] else Frame(ID_DATA, chunks[0]) + DataFrames(chunks[1..])
  }

  lemma {:induction false} DataFramesAppend(a: seq<seq<byte>>, c: seq<byte>)
    ensures DataFrames(a + [c]) == DataFrames(a) + Frame(ID_DATA, c)
  {
    if a == [] {
      assert DataFrames([c]) == Frame(ID_DATA, c) + DataFrames([]);
      assert [] + [c] == [c];
    } else {
      assert (a + [c])[1..] == a[1..] + [c];
      DataFramesAppend(a[1..], c);
      Assoc(Frame(ID_DATA, a[0]), DataFrames(a[1..]), Frame(ID_DATA, c));
    }
  }

  lemma HeaderFields(id: u32, value: u32)
    ensures var h := Header(id, value);
            |h| == 8 && FromLe32(h[..4]) == id && FromLe32(h[4..8]) == value
  {
    Le32RoundTrip(id);
    Le32RoundTrip(value);
    assert Header(id, value)[..4] == Le32(id) && Header(id, value)[4..8] == Le32(value);
  }

  /** A request begins with its name in ASCII. */
  lemma NamesOfRequests()
    ensures Le32(ID_STAT) == Ascii("STAT") && Le32(ID_SEND) == Ascii("SEND") && Le32(ID_RECV) == Ascii("RECV")
  {
  }

  /** And so do the frames of a transfer and the answers. */
  lemma NamesOfFrames()
    ensures Le32(ID_DATA) == Ascii("DATA") && Le32(ID_DONE) == Ascii("DONE")
    ensures Le32(ID_OKAY) == Ascii("OKAY") && Le32(ID_FAIL) == Ascii("FAIL")
  {
  }

  // ----- DATA frames read back -----

  datatype End = Done(value: u32, rest: seq<byte>) | Failed(length: u32, rest: seq<byte>) | Unexpected | Short

  datatype Pulled = Pulled(chunks: seq<seq<byte>>, end: End)

  /** The payloads of the DATA frames at the front of a byte string, and what ends them. */
  function ReadFrames(bytes: seq<byte>): Pulled
    decreases |bytes|
  {
    if |bytes| < 8 then Pulled([], Short)
    else
      var header, body := bytes[..8], bytes[8..];
      var id, size := FromLe32(header[..4]), FromLe32(header[4..8]);
      if id == ID_DATA then
        if |body| < size then Pulled([], Short)
        else
          var more := ReadFrames(body[size..]);
          more.(chunks := [body[..size]] + more.chunks)
      else if id == ID_DONE then Pulled([], Done(size, body))
      else if id == ID_FAIL then Pulled([], Failed(size, body))
      else Pulled([], Unexpected)
  }

  lemma ReadFramed(h: seq<byte>, c: seq<byte>, rest: seq<byte>)
    requires |h| == 8 && FromLe32(h[..4]) == ID_DATA && FromLe32(h[4..8]) == |c|
    ensures ReadFrames(h + c + rest) == var more := ReadFrames(rest); more.(chunks := [c] + more.chunks)
  {
    var bytes := h + c + rest;
    assert bytes[..8] == h && bytes[8..] == c + rest;
    assert (c + rest)[..|c|] == c && (c + rest)[|c|..] == rest;
  }

  lemma ReadOneFrame(c: seq<byte>, rest: seq<byte>)
    requires |c| < 0x1_0000_0000
    ensures ReadFrames(Frame(ID_DATA, c) + rest) ==
              var more := ReadFrames(rest); more.(chunks := [c] + more.chunks)
  {
    HeaderFields(ID_DATA, |c|);
    ReadFramed(Header(ID_DATA, |c|), c, rest);
  }

  lemma {:induction false} ReadInvertsFrames(chunks: seq<seq<byte>>, value: u32, rest: seq<byte>)
    requires forall c <- chunks :: |c| < 0x1_0000_0000
    ensures ReadFrames(DataFrames(chunks) + Header(ID_DONE, value) + rest) == Pulled(chunks, Done(value, rest))
  {
    var h := Header(ID_DONE, value);
    if chunks == [] {
      HeaderFields(ID_DONE, value);
      Slices(h, rest, []);
      assert [] + h + rest == h + rest;
    } else {
      Assoc4(Frame(ID_DATA, chunks[0]), DataFrames(chunks[1..]), h, rest);
      ReadOneFrame(chunks[0], DataFrames(chunks[1..]) + h + rest);
      ReadInvertsFrames(chunks[1..], value, rest);
      assert [chunks[0]] + chunks[1..] == chunks;
    }
  }

  // ----- What a push looks like to the device -----

  datatype Push = Push(path: seq<byte>, file: seq<byte>, mtime: u32)

  /** The device's reading of a whole push; None if it is not one. */
  function DecodePush(bytes: seq<byte>): Option<Push> {
    if |bytes| < 8 then None
    else
      var header, body := bytes[..8], bytes[8..];
      var size := FromLe32(header[4..8]);
      if FromLe32(header[..4]) != ID_SEND || |body| < size then None
      else
        var data := ReadFrames(body[size..]);
        if data.end.Done? && data.end.rest == [] && forall c <- data.chunks :: |c| <= SYNC_DATA_MAX then
          Some(Push(body[..size], Concat(data.chunks), data.end.value))
        else None
  }

  function PushBytes(path: seq<byte>, chunks: seq<seq<byte>>, mtime: u32): seq<byte> {
    Frame(ID_SEND, path) + DataFrames(chunks) + Header(ID_DONE, mtime)
  }

  /** A push decodes to what was pushed exactly when 32 bits hold the length of its path. */
  lemma DecodeInvertsPush(path: seq<byte>, chunks: seq<seq<byte>>, mtime: u32)
    requires forall c <- chunks :: |c| <= SYNC_DATA_MAX
    ensures DecodePush(PushBytes(path, chunks, mtime)) == Some(Push(path, Concat(chunks), mtime)) <==>
              |path| < 0x1_0000_0000
  {
    if |path| < 0x1_0000_0000 {
      DecodeShortPath(path, chunks, mtime);
    }
  }

  lemma DecodeShortPath(path: seq<byte>, chunks: seq<seq<byte>>, mtime: u32)
    requires |path| < 0x1_0000_0000
    requires forall c <- chunks :: |c| <= SYNC_DATA_MAX
    ensures DecodePush(PushBytes(path, chunks, mtime)) == Some(Push(path, Concat(chunks), mtime))
  {
    var h := Header(ID_SEND, |path|);
    HeaderFields(ID_SEND, |path|);
    var bytes := h + path + (DataFrames(chunks) + Header(ID_DONE, mtime));
    DecodeFramed(h, path, chunks, mtime);
    assert bytes == PushBytes(path, chunks, mtime) by {
      Assoc(h + path, DataFrames(chunks), Header(ID_DONE, mtime));
    }
  }

  lemma DecodeFramed(h: seq<byte>, path: seq<byte>, chunks: seq<seq<byte>>, mtime: u32)
    requires |h| == 8 && FromLe32(h[..4]) == ID_SEND && FromLe32(h[4..8]) == |path|
    requires forall c <- chunks :: |c| <= SYNC_DATA_MAX
    ensures DecodePush(h + path + (DataFrames(chunks) + Header(ID_DONE, mtime))) == Some(Push(path, Concat(chunks), mtime))
  {
    var rest := DataFrames(chunks) + Header(ID_DONE, mtime);
    var bytes := h + path + rest;
    assert bytes[..8] == h && bytes[8..] == path + rest;
    assert (path + rest)[..|path|] == path && (path + rest)[|path|..] == rest;
    ReadInvertsFrames(chunks, mtime, []);
    assert rest + [] == rest;
  }

  // ----- Requests and responses on a stream -----

  /** The write_alls of a request: identifier, length and payload. */
  function RequestWrites(id: u32, payload: seq<byte>): seq<seq<byte>> {
    [Le32(id), Le32(Low32(|payload|)), payload]
  }

  lemma RequestIsFrame(id: u32, payload: seq<byte>)
    ensures Concat(RequestWrites(id, payload)) == Frame(id, payload)
  {
    var a, b := Le32(id), Le32(Low32(|payload|));
    assert RequestWrites(id, payload)[1..] == [b, payload] && [b, payload][1..] == [payload];
    assert Concat([payload]) == payload + Concat([]);
    Assoc(a, b, payload);
  }

  /** Sends a request; works exactly when all of it could be written. */
  method WriteRequest(stream: UsbStream, id: u32, payload: seq<byte>) returns (ok: bool, ghost out: seq<seq<byte>>)
    requires stream.Valid()
    modifies stream
    ensures stream.Valid()
    ensures var st := WriteEach(old(stream.Abs()), RequestWrites(id, payload)); stream.Abs() == st.s && ok == st.r.Ok?
    ensures old(Accepting(stream.Abs())) ==> (ok <==> Affords(old(stream.Abs()), RequestWrites(id, payload)))
    ensures SentSince(old(stream.Abs()), stream.Abs(), out)
    ensures Concat(out) <= Frame(id, payload) && (ok ==> Concat(out) == Frame(id, payload))
  {
    ghost var s0, a, b := stream.Abs(), Le32(id), Le32(Low32(|payload|));
    RequestIsFrame(id, payload);
    out := SeriesSends(s0, RequestWrites(id, payload));
    if Accepting(s0) {
      WriteEachAnswered(s0, RequestWrites(id, payload));
    }
    ThreeWrites(s0, a, b, payload);
    var w := stream.WriteAll(Le32(id));
    if w.Err? {
      return false, out;
    }
    w := stream.WriteAll(Le32(Low32(|payload|)));
    if w.Err? {
      return false, out;
    }
    w := stream.WriteAll(payload);
    ok := w.Ok?;
  }

  lemma ThreeWrites(s: State, a: seq<byte>, b: seq<byte>, c: seq<byte>)
    ensures var first := WriteAll(s, a); var second := WriteAll(first.s, b);
            WriteEach(s, [a, b, c]) == if first.r.Err? then first else if second.r.Err? then second else WriteAll(second.s, c)
  {
    WriteEachSnoc(s, [a], b);
    WriteEachSnoc(s, [a, b], c);
    WriteEachOne(s, a);
    assert [a] + [b] == [a, b] && [a, b] + [c] == [a, b, c];
  }

  /** One response header. */
  method ReadResponse(stream: UsbStream) returns (ok: bool, id: u32, value: u32)
    requires stream.Valid()
    modifies stream
    ensures stream.Valid()
    ensures var st := ReadExact(old(stream.Abs()), 8);
            stream.Abs() == st.s && ok == st.r.Ok? &&
            (ok ==> |st.r.value| == 8 && id == FromLe32(st.r.value[..4]) && value == FromLe32(st.r.value[4..8]))
  {
    ReadExactHands(stream.Abs(), 8);
    var h := stream.ReadExact(8);
    if h.Err? {
      return false, 0, 0;
    }
    return true, FromLe32(h.value[..4]), FromLe32(h.value[4..8]);
  }

  /** Reads at most 4096 bytes of the device's explanation, whose text is not kept. */
  method ReadFail(stream: UsbStream, length: u32) returns (e: FlashError)
    requires stream.Valid()
    modifies stream
    ensures stream.Valid() && e.Protocol?
    ensures stream.Abs() == ReadExact(old(stream.Abs()), Min(length, 4096)).s
    ensures Chunks(stream.Abs()) == old(Chunks(stream.Abs())) && stream.Abs().maxPayload == old(stream.Abs()).maxPayload
  {
    ReadExactHands(stream.Abs(), Min(length, 4096));
    var r := stream.ReadExact(Min(length, 4096));
    e := Protocol(if r.Ok? then "device reported failure" else "SYNC operation failed");
  }

  // ----- Push -----

  const MODE_SUFFIX: seq<byte> := [0x2C, 0x30, 0x31, 0x30, 0x30, 0x36, 0x34, 0x34]  // ",0100644"

  /** `chunks` cuts the bytes `file` into non-empty pieces of at most SYNC_DATA_MAX. */
  ghost predicate Cuts(chunks: seq<seq<byte>>, file: seq<byte>) {
    (forall c <- chunks :: 0 < |c| <= SYNC_DATA_MAX) && Concat(chunks) == file
  }

  lemma CutsMore(chunks: seq<seq<byte>>, file: seq<byte>, i: nat, j: nat, k: nat)
    requires i <= j < k <= |file| && k - j <= SYNC_DATA_MAX && Cuts(chunks, file[i..j])
    ensures Cuts(chunks + [file[j..k]], file[i..k])
  {
    ConcatSnoc(chunks, file[j..k]);
    assert file[i..k] == file[i..j] + file[j..k];
  }

  /** The write_alls of the DATA frames. */
  function DataWrites(chunks: seq<seq<byte>>): seq<seq<byte>> {
    if chunks == [] then [] else RequestWrites(ID_DATA, chunks[0]) + DataWrites(chunks[1..])
  }

  lemma {:induction false} DataWritesAppend(a: seq<seq<byte>>, b: seq<seq<byte>>)
    ensures DataWrites(a + b) == DataWrites(a) + DataWrites(b)
  {
    if a == [] {
      assert a + b == b;
    } else {
      assert (a + b)[1..] == a[1..] + b;
      DataWritesAppend(a[1..], b);
      Assoc(RequestWrites(ID_DATA, a[0]), DataWrites(a[1..]), DataWrites(b));
    }
  }

  lemma DataWritesSnoc(a: seq<seq<byte>>, c: seq<byte>)
    ensures DataWrites(a + [c]) == DataWrites(a) + RequestWrites(ID_DATA, c)
  {
    DataWritesAppend(a, [c]);
    assert DataWrites([c]) == RequestWrites(ID_DATA, c) + DataWrites([]);
  }

  lemma {:induction false} DataIsFrames(chunks: seq<seq<byte>>)
    ensures Concat(DataWrites(chunks)) == DataFrames(chunks)
  {
    if chunks != [] {
      ConcatAppend(RequestWrites(ID_DATA, chunks[0]), DataWrites(chunks[1..]));
      RequestIsFrame(ID_DATA, chunks[0]);
      DataIsFrames(chunks[1..]);
    }
  }

  datatype Sending = More | AllSent | Unread | Unsent

  /** What has become of the DATA frames of `chunks`, the pieces of the file read so far. */
  ghost predicate Sent(p: Sending, s0: State, s: State, all: Reading, chunks: seq<seq<byte>>) {
    && (WriteEach(s0, DataWrites(chunks)).r.Err? <==> p == Unsent)
    && WriteEach(s0, DataWrites(chunks)).s == s
    && (p == AllSent ==> all == Reading(chunks, true))
    && (p == Unread ==> all == Reading(chunks, false))
    && (p == Unsent ==> chunks <= all.pieces)
  }

  /** One DATA frame. */
  method SendPiece(stream: UsbStream, file: Source, ghost s0: State, ghost start: nat, ghost all: Reading, ghost chunks: seq<seq<byte>>)
    returns (p: Sending, ghost chunks1: seq<seq<byte>>)
    requires stream.Valid() && file.Valid() && start <= file.pos
    requires Sent(More, s0, stream.Abs(), all, chunks) && ReadSoFar(all, chunks, file.Ahead(SYNC_DATA_MAX))
    requires Cuts(chunks, file.content[start..file.pos])
    modifies stream, file
    ensures stream.Valid() && file.Valid() && old(file.pos) <= file.pos
    ensures Sent(p, s0, stream.Abs(), all, chunks1) && Cuts(chunks1, file.content[start..file.pos])
    ensures p.More? ==> old(file.pos) < file.pos && ReadSoFar(all, chunks1, file.Ahead(SYNC_DATA_MAX))
    ensures p.AllSent? ==> file.pos == |file.content|
  {
    chunks1 := chunks;
    ghost var pos := file.pos;
    assert chunks + [] == chunks;
    var ok, piece := file.Read(SYNC_DATA_MAX);
    if !ok {
      return Unread, chunks1;
    }
    if piece == [] {
      return AllSent, chunks1;
    }
    CutsMore(chunks, file.content, start, pos, file.pos);
    ReadOneMore(all, chunks, piece, file.Ahead(SYNC_DATA_MAX));
    DataWritesSnoc(chunks, piece);
    WriteEachAppend(s0, DataWrites(chunks), RequestWrites(ID_DATA, piece));
    chunks1 := chunks + [piece];
    ghost var sent;
    ok, sent := WriteRequest(stream, ID_DATA, piece);
    p := if ok then More else Unsent;
  }

  /**
   * The DATA loop.  Its end state is that of writing the frames of all pieces the file comes in; it
   * succeeds exactly when these could be written and the file was read to its end.
   */
  method SendData(stream: UsbStream, file: Source) returns (r: Result<()>, ghost chunks: seq<seq<byte>>)
    requires stream.Valid() && file.Valid()
    modifies stream, file
    ensures stream.Valid() && file.Valid() && old(file.pos) <= file.pos
    ensures var all := old(file.Ahead(65536)); var st := WriteEach(old(stream.Abs()), DataWrites(all.pieces));
            && stream.Abs() == st.s
            && r == (if st.r.Err? then Failure(Protocol("push write failed")) else if all.whole then Success(()) else Failure(Io))
            && chunks <= all.pieces && (st.r.Ok? ==> chunks == all.pieces)
            && WriteEach(old(stream.Abs()), DataWrites(chunks)).s == st.s
    ensures Cuts(chunks, file.content[old(file.pos)..file.pos])
    ensures r.Success? ==> file.pos == |file.content|
  {
    chunks := [];
    ghost var s0, start, all := stream.Abs(), file.pos, file.Ahead(SYNC_DATA_MAX);
    assert [] + all.pieces == all.pieces;
    while true
      invariant stream.Valid() && file.Valid() && start <= file.pos
      invariant Sent(More, s0, stream.Abs(), all, chunks) && ReadSoFar(all, chunks, file.Ahead(SYNC_DATA_MAX))
      invariant Cuts(chunks, file.content[start..file.pos])
      decreases |file.content| - file.pos
    {
      var p;
      p, chunks := SendPiece(stream, file, s0, start, all, chunks);
      match p {
        case More =>
        case AllSent => return Success(()), chunks;
        case Unread => return Failure(Io), chunks;
        case Unsent =>
          UnsentStays(s0, all.pieces, chunks);
          return Failure(Protocol("push write failed")), chunks;
      }
    }
  }

  lemma UnsentStays(s0: State, pieces: seq<seq<byte>>, chunks: seq<seq<byte>>)
    requires chunks <= pieces && WriteEach(s0, DataWrites(chunks)).r.Err?
    ensures WriteEach(s0, DataWrites(pieces)) == WriteEach(s0, DataWrites(chunks))
  {
    assert pieces == chunks + pieces[|chunks|..];
    DataWritesAppend(chunks, pieces[|chunks|..]);
    WriteEachAppend(s0, DataWrites(chunks), DataWrites(pieces[|chunks|..]));
  }

  /** DONE and the modification time. */
  method SendDone(stream: UsbStream, mtime: u32) returns (ok: bool)
    requires stream.Valid()
    modifies stream
    ensures stream.Valid()
    ensures var st := WriteEach(old(stream.Abs()), [Le32(ID_DONE), Le32(mtime)]); stream.Abs() == st.s && ok == st.r.Ok?
  {
    ghost var s0 := stream.Abs();
    WriteEachOne(s0, Le32(ID_DONE));
    WriteEachSnoc(s0, [Le32(ID_DONE)], Le32(mtime));
    assert [Le32(ID_DONE)] + [Le32(mtime)] == [Le32(ID_DONE), Le32(mtime)];
    var w := stream.WriteAll(Le32(ID_DONE));
    if w.Err? {
      return false;
    }
    w := stream.WriteAll(Le32(mtime));
    ok := w.Ok?;
  }

  lemma SuffixIsSpelled()
    ensures MODE_SUFFIX == Ascii(",0100644")
  {
  }

  /** The next response is OKAY. */
  predicate Approves(s: State) {
    var r := ReadExact(s, 8).r;
    r.Ok? && |r.value| == 8 && FromLe32(r.value[..4]) == ID_OKAY
  }

  /** If the acknowledgements go out, the next eight bytes tell: their first four spell OKAY. */
  lemma ApprovalIsSpelled(s: State)
    requires Accepting(s)
    ensures Approves(s) <==> |Available(s)| >= 8 && Available(s)[..4] == Ascii("OKAY")
  {
    ReadExactStock(s, 8);
    NamesOfFrames();
    var a := Available(s);
    if |a| >= 8 {
      assert a[..8][..4] == a[..4];
      Le32Inverts(a[..4]);
      Le32RoundTrip(ID_OKAY);
    }
  }

  /** The device's verdict on a push. */
  method AwaitVerdict(stream: UsbStream) returns (r: Result<()>)
    requires stream.Valid()
    modifies stream
    ensures stream.Valid()
    ensures Chunks(stream.Abs()) == old(Chunks(stream.Abs())) && stream.Abs().maxPayload == old(stream.Abs()).maxPayload
    ensures r.Success? <==> Approves(old(stream.Abs()))
    ensures r.Failure? ==> r.error.Protocol?
  {
    ReadExactHands(stream.Abs(), 8);
    var ok, id, value := ReadResponse(stream);
    if !ok {
      r := Failure(Protocol("SYNC read failed"));
    } else if id == ID_OKAY {
      r := Success(());
    } else if id == ID_FAIL {
      var e := ReadFail(stream, value);
      r := Failure(e);
    } else {
      r := Failure(Protocol("unexpected SYNC response"));
    }
  }

  /** All write_alls of a push whose file reads as `all`; without DONE if the file cannot be read to its end. */
  function PushWrites(path: seq<byte>, all: Reading, mtime: u32): seq<seq<byte>> {
    RequestWrites(ID_SEND, path) + DataWrites(all.pieces) + if all.whole then [Le32(ID_DONE), Le32(mtime)] else []
  }

  lemma PushIsWritten(path: seq<byte>, all: Reading, mtime: u32)
    ensures Concat(PushWrites(path, all, mtime)) <= PushBytes(path, all.pieces, mtime)
    ensures all.whole ==> Concat(PushWrites(path, all, mtime)) == PushBytes(path, all.pieces, mtime)
  {
    var request, data := RequestWrites(ID_SEND, path), DataWrites(all.pieces);
    var done := if all.whole then [Le32(ID_DONE), Le32(mtime)] else [];
    ConcatAppend(request + data, done);
    ConcatAppend(request, data);
    RequestIsFrame(ID_SEND, path);
    DataIsFrames(all.pieces);
    assert all.whole ==> done[1..] == [Le32(mtime)] && Concat(done[1..]) == Le32(mtime) + Concat([]);
  }

  lemma PushInSteps(s: State, path: seq<byte>, all: Reading, mtime: u32)
    ensures var request := WriteEach(s, RequestWrites(ID_SEND, path)); var data := WriteEach(request.s, DataWrites(all.pieces));
            WriteEach(s, PushWrites(path, all, mtime)) ==
              if request.r.Err? then request
              else if data.r.Err? || !all.whole then data
              else WriteEach(data.s, [Le32(ID_DONE), Le32(mtime)])
  {
    var request, data := RequestWrites(ID_SEND, path), DataWrites(all.pieces);
    WriteEachAppend(s, request + data, if all.whole then [Le32(ID_DONE), Le32(mtime)] else []);
    WriteEachAppend(s, request, data);
    var st := WriteEach(s, request + data);
    assert st.r.Ok? ==> WriteEach(st.s, []) == st by { assert st.r.Ok? ==> st.r.value == (); }
  }

  lemma PushSends(s: State, path: seq<byte>, all: Reading, mtime: u32) returns (out: seq<seq<byte>>)
    requires forall c <- all.pieces :: |c| <= SYNC_DATA_MAX
    ensures var st := WriteEach(s, PushWrites(path, all, mtime)); var bytes := PushBytes(path, all.pieces, mtime);
            && SentSince(s, st.s, out) && Concat(out) <= bytes
            && (Accepting(s) ==> (st.r.Ok? <==> Affords(s, PushWrites(path, all, mtime))))
            && (st.r.Ok? && all.whole ==>
                  && Concat(out) == bytes
                  && (DecodePush(bytes) == Some(Push(path, Concat(all.pieces), mtime)) <==> |path| < 0x1_0000_0000))
  {
    var writes := PushWrites(path, all, mtime);
    PushIsWritten(path, all, mtime);
    out := SeriesSends(s, writes);
    if Accepting(s) {
      WriteEachAnswered(s, writes);
    }
    DecodeInvertsPush(path, all.pieces, mtime);
  }

  /**
   * Pushes a freshly opened file.  The whole push goes out exactly when the file can be read to its end
   * and all writes work, that is, when the device answers as often as they take; else what was sent is
   * the start of it, and the error is that of the file exactly if the writes before it worked.  A push
   * that went out decodes to exactly the path with its mode, the file and the time, if 32 bits hold the
   * length of that path, and succeeds exactly when the device, in state `mid`, answers OKAY.
   */
  method SyncPush(stream: UsbStream, file: Source, remotePath: seq<byte>, mtime: u32)
    returns (r: Result<()>, ghost chunks: seq<seq<byte>>, ghost out: seq<seq<byte>>, ghost sentAll: bool, ghost mid: State)
    requires stream.Valid() && file.Valid() && file.pos == 0
    modifies stream, file
    ensures stream.Valid() && file.Valid()
    ensures file.content == [] ==> r == Failure(Validation("File is empty")) && out == [] && !sentAll
    ensures var all := old(file.Ahead(65536)); var path := remotePath + MODE_SUFFIX;
            var writes := PushWrites(path, all, mtime); var st := WriteEach(old(stream.Abs()), writes);
            file.content != [] ==>
              && (sentAll <==> all.whole && st.r.Ok?)
              && (old(Accepting(stream.Abs())) ==> (st.r.Ok? <==> Affords(old(stream.Abs()), writes)))
              && mid == st.s && (sentAll ==> chunks == all.pieces)
              && (!sentAll ==> r.Failure? && stream.Abs() == mid && if st.r.Ok? then r.error == Io else r.error.Protocol?)
    ensures SentSince(old(stream.Abs()), stream.Abs(), out)
    ensures Cuts(chunks, file.content[..file.pos])
    ensures Concat(out) <= PushBytes(remotePath + MODE_SUFFIX, old(file.Ahead(65536)).pieces, mtime)
    ensures sentAll ==> Concat(out) == PushBytes(remotePath + MODE_SUFFIX, chunks, mtime)
    ensures sentAll ==>
              (DecodePush(Concat(out)) == Some(Push(remotePath + Ascii(",0100644"), file.content, mtime)) <==>
               |remotePath| + 8 < 0x1_0000_0000)
    ensures sentAll ==> (r.Success? <==> Approves(mid))
    ensures Accepting(mid) && sentAll ==>
              (r.Success? <==> |Available(mid)| >= 8 && Available(mid)[..4] == Ascii("OKAY"))
    ensures r.Success? ==> sentAll
  {
    ghost var s0, path, all := stream.Abs(), remotePath + MODE_SUFFIX, file.Ahead(SYNC_DATA_MAX);
    chunks, out, sentAll, mid := [], [], false, s0;
    assert Chunks(s0) + [] == Chunks(s0);
    if file.content == [] {
      return Failure(Validation("File is empty")), chunks, out, sentAll, mid;
    }
    ReadingCuts(file.content, file.sizes, SYNC_DATA_MAX);
    assert file.content[0..] == file.content;
    PushInSteps(s0, path, all, mtime);
    out := PushSends(s0, path, all, mtime);
    mid := WriteEach(s0, PushWrites(path, all, mtime)).s;
    var ok;
    ghost var sent;
    ok, sent := WriteRequest(stream, ID_SEND, remotePath + MODE_SUFFIX);
    if !ok {
      return Failure(Protocol("SYNC write failed")), chunks, out, sentAll, mid;
    }
    var data;
    data, chunks := SendData(stream, file);
    assert file.content[0..file.pos] == file.content[..file.pos];
    if data.Failure? {
      return Failure(data.error), chunks, out, sentAll, mid;
    }
    ok := SendDone(stream, mtime);
    if !ok {
      return Failure(Protocol("push DONE write failed")), chunks, out, sentAll, mid;
    }
    sentAll := true;
    SuffixIsSpelled();
    if Accepting(mid) {
      ApprovalIsSpelled(mid);
    }
    assert Concat(chunks) == file.content[..file.pos] == file.content;
    r := AwaitVerdict(stream);
  }
}

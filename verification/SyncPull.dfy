/** Pulling a file: DATA frames into a temporary file that replaces the target only at the end. */
module SyncPull {
  import opened Bytes
  import opened Flash
  import opened StreamSpec
  import opened StreamLoops
  import opened StreamWrites
  import opened UsbStreams
  import opened Sync

  // ----- The temporary name -----

  /** Index of the last dot of a file name, or its length if there is none after the first character. */
  function StemLength(name: string): (n: nat)
    ensures n <= |name| && (n < |name| ==> n > 0 && name[n] == '.')
    ensures forall i :: n < i < |name| ==> name[i] != '.'
    ensures n == |name| ==> forall i :: 0 < i < |name| ==> name[i] != '.'
  {
    LastDot(name, |name|)
  }

  function LastDot(name: string, i: nat): (n: nat)
    requires i <= |name| && (forall j :: i <= j < |name| ==> name[j] != '.')
    ensures n <= |name| && (n < |name| ==> n > 0 && name[n] == '.')
    ensures forall j :: n < j < |name| ==> name[j] != '.'
    ensures n == |name| ==> forall j :: 0 < j < |name| ==> name[j] != '.'
  {
    if i <= 1 then |name| else if name[i - 1] == '.' then i - 1 else LastDot(name, i - 1)
  }

  /** Path::with_extension("img.tmp") on the last component of a path. */
  function TempName(name: string): string {
    if NamesFile(name) then name[..StemLength(name)] + ".img.tmp" else name
  }

  /** The temporary file is another file, exactly for the names that name a file at all. */
  lemma TempDiffers(name: string)
    ensures TempName(name) != name <==> name != "" && name != "." && name != ".."
    ensures NamesFile(TempName(name)) <==> NamesFile(name)
  {
    if NamesFile(name) {
      var n, temp := StemLength(name), TempName(name);
      assert |temp| == n + 8 && temp[n + 4] == '.';
      assert n + 4 < |name| ==> name[n + 4] != '.';
    }
  }

  /** It has the extension .img.tmp in place of the one behind the last dot, if there is a dot but at the beginning. */
  lemma TempReplacesExtension(stem: string, extension: string)
    requires '.' !in extension && stem != ""
    ensures stem + "." + extension != ".." ==> TempName(stem + "." + extension) == stem + ".img.tmp"
    ensures TempName(extension) == if extension == "" then "" else extension + ".img.tmp"
    ensures extension != "" ==> TempName("." + extension) == "." + extension + ".img.tmp"
  {
    var name, n := stem + "." + extension, StemLength(stem + "." + extension);
    assert name[|stem|] == '.';
    assert forall i :: |stem| < i < |name| ==> name[i] == extension[i - |stem| - 1];
    assert n == |stem| && name[..|stem|] == stem;
    assert StemLength(extension) == |extension| && extension[..|extension|] == extension;
    var hidden := "." + extension;
    assert forall i :: 0 < i < |hidden| ==> hidden[i] == extension[i - 1];
    assert StemLength(hidden) == |hidden| && hidden[..|hidden|] == hidden;
    assert extension != "" ==> hidden[1] == extension[0];
  }

  // ----- Frames from a stream -----

  function HeaderId(h: seq<byte>): u32
    requires |h| == 8
  {
    FromLe32(h[..4])
  }

  function HeaderValue(h: seq<byte>): u32
    requires |h| == 8
  {
    FromLe32(h[4..8])
  }

  lemma HeaderBack(h: seq<byte>)
    requires |h| == 8
    ensures h == Header(HeaderId(h), HeaderValue(h))
  {
    Le32Inverts(h[..4]);
    Le32Inverts(h[4..8]);
    assert h == h[..4] + h[4..8];
  }

  /** How a transfer ends: with DONE, or broken by the stream or by what came instead. */
  datatype End = Complete(stamp: u32) | Broken

  /** The DATA payloads received, how they ended, and the stream behind them. */
  datatype Transfer = Transfer(chunks: seq<seq<byte>>, end: End, s: State)

  function Receiving(s: State): Transfer
    decreases |s.incoming|, |s.unread|
  {
    var h := ReadExact(s, 8);
    ReadExactHands(s, 8);
    ReadExactShrinks(s, 8);
    if h.r.Err? then Transfer([], Broken, h.s)
    else
      var id, size := HeaderId(h.r.value), HeaderValue(h.r.value);
      if id == ID_DATA then
        var d := ReadExact(h.s, size);
        ReadExactShrinks(h.s, size);
        if d.r.Err? then Transfer([], Broken, d.s)
        else if Shrinks(s, d.s) then
          var more := Receiving(d.s);
          more.(chunks := [d.r.value] + more.chunks)
        else
          assert false;
          Transfer([], Broken, s)
      else if id == ID_DONE then Transfer([], Complete(size), h.s)
      else if id == ID_FAIL then Transfer([], Broken, ReadExact(h.s, Min(size, 4096)).s)
      else Transfer([], Broken, h.s)
  }

  /** A completed transfer takes exactly its frames off the stream. */
  lemma {:induction false} ReceivingHands(s: State)
    ensures var t := Receiving(s);
            t.end.Complete? ==> Handed(t.s) == Handed(s) + DataFrames(t.chunks) + Header(ID_DONE, t.end.stamp)
    decreases |s.incoming|, |s.unread|
  {
    var h := ReadExact(s, 8);
    ReadExactHands(s, 8);
    ReadExactShrinks(s, 8);
    if h.r.Ok? {
      HeaderBack(h.r.value);
      var id, size := HeaderId(h.r.value), HeaderValue(h.r.value);
      if id == ID_DATA {
        var d := ReadExact(h.s, size);
        ReadExactHands(h.s, size);
        ReadExactShrinks(h.s, size);
        if d.r.Ok? {
          ReceivingHands(d.s);
          var more := Receiving(d.s);
          if more.end.Complete? {
            FrameHands(Handed(s), h.r.value, d.r.value, DataFrames(more.chunks), Header(ID_DONE, more.end.stamp));
            assert Receiving(s).chunks[1..] == more.chunks;
          }
        }
      } else if id == ID_DONE {
        assert Handed(s) + [] == Handed(s);
      }
    }
  }

  /** The bytes one DATA frame hands out. */
  lemma FrameHands(before: seq<byte>, h: seq<byte>, c: seq<byte>, more: seq<byte>, done: seq<byte>)
    requires |h| == 8 && HeaderId(h) == ID_DATA && HeaderValue(h) == |c|
    ensures before + h + c + more + done == before + (Frame(ID_DATA, c) + more) + done
  {
    HeaderBack(h);
    assert Frame(ID_DATA, c) == h + c;
  }

  /** The next frame of the concatenated payloads is the next one read. */
  lemma FrameAhead(s: State)
    requires Accepting(s)
    ensures var h := ReadExact(s, 8); var p := ReadFrames(Available(s));
            if h.r.Err? || |h.r.value| != 8 then p.chunks == [] && !p.end.Done?
            else if HeaderId(h.r.value) == ID_DATA then
              var d := ReadExact(h.s, HeaderValue(h.r.value));
              if d.r.Err? then p.chunks == [] && !p.end.Done?
              else
                var more := ReadFrames(Available(d.s));
                Accepting(d.s) && p.chunks == [d.r.value] + more.chunks && p.end == more.end
            else p.chunks == [] && (p.end.Done? <==> HeaderId(h.r.value) == ID_DONE)
  {
    ReadExactStock(s, 8);
    ReadExactHands(s, 8);
    var h := ReadExact(s, 8);
    if h.r.Ok? && HeaderId(h.r.value) == ID_DATA {
      ReadExactStock(h.s, HeaderValue(h.r.value));
    }
  }

  /** A transfer that fails has its message read out, as much of it as 4096 bytes, if that much comes. */
  lemma FailureIsReadOut(s: State)
    requires Accepting(s) && |Available(s)| >= 8 && Available(s)[..4] == Ascii("FAIL")
    requires var n := FromLe32(Available(s)[4..8]); |Available(s)| >= 8 + Min(n, 4096)
    ensures Receiving(s).end == Broken && Receiving(s).chunks == []
    ensures Available(Receiving(s).s) == Available(s)[8 + Min(FromLe32(Available(s)[4..8]), 4096)..]
  {
    var a, n := Available(s), Min(FromLe32(Available(s)[4..8]), 4096);
    ReadExactStock(s, 8);
    var h := ReadExact(s, 8);
    assert h.r == Ok(a[..8]) && Available(h.s) == a[8..];
    FailureHeader(a);
    ReadExactStock(h.s, n);
    DropTwice(a, 8, n);
    FailureEnds(s);
  }

  lemma FailureHeader(a: seq<byte>)
    requires |a| >= 8 && a[..4] == Ascii("FAIL")
    ensures HeaderId(a[..8]) == ID_FAIL && HeaderValue(a[..8]) == FromLe32(a[4..8])
  {
    NamesOfFrames();
    Le32RoundTrip(ID_FAIL);
    assert a[..8][..4] == a[..4] && a[..8][4..8] == a[4..8];
  }

  lemma FailureEnds(s: State)
    requires ReadExact(s, 8).r.Ok? && |ReadExact(s, 8).r.value| == 8 && HeaderId(ReadExact(s, 8).r.value) == ID_FAIL
    ensures var h := ReadExact(s, 8);
            Receiving(s) == Transfer([], Broken, ReadExact(h.s, Min(HeaderValue(h.r.value), 4096)).s)
  {
  }

  /** If the acknowledgements go out, a transfer is what the concatenated payloads mean, however they were cut. */
  lemma {:induction false} ReceivingReads(s: State)
    requires Accepting(s)
    ensures var t, p := Receiving(s), ReadFrames(Available(s)); t.chunks == p.chunks && (t.end.Complete? <==> p.end.Done?)
    decreases |s.incoming|, |s.unread|
  {
    FrameAhead(s);
    ReadExactHands(s, 8);
    ReadExactShrinks(s, 8);
    var h := ReadExact(s, 8);
    if h.r.Ok? && HeaderId(h.r.value) == ID_DATA {
      ReadExactShrinks(h.s, HeaderValue(h.r.value));
      var d := ReadExact(h.s, HeaderValue(h.r.value));
      if d.r.Ok? {
        ReceivingReads(d.s);
      }
    }
  }

  // ----- The transfer -----

  datatype FrameResult = Chunk(c: seq<byte>) | Last(stamp: u32) | Stop(error: FlashError)

  /** One frame off the stream. */
  method ReceiveFrame(stream: UsbStream) returns (f: FrameResult)
    requires stream.Valid()
    modifies stream
    ensures stream.Valid()
    ensures f.Chunk? ==>
              var more := Receiving(stream.Abs());
              Receiving(old(stream.Abs())) == more.(chunks := [f.c] + more.chunks) && Shrinks(old(stream.Abs()), stream.Abs())
    ensures f.Last? ==> Receiving(old(stream.Abs())) == Transfer([], Complete(f.stamp), stream.Abs())
    ensures f.Stop? ==> Receiving(old(stream.Abs())) == Transfer([], Broken, stream.Abs()) && f.error.Protocol?
  {
    ghost var here := stream.Abs();
    ghost var h := ReadExact(here, 8);
    ReadExactHands(here, 8);
    ReadExactShrinks(here, 8);
    var ok, id, size := ReadResponse(stream);
    if !ok {
      return Stop(Protocol("SYNC read failed"));
    }
    if id == ID_DATA {
      ReadExactShrinks(h.s, size);
      var chunk := stream.ReadExact(size);
      if chunk.Err? {
        return Stop(Protocol("pull read failed"));
      }
      return Chunk(chunk.value);
    } else if id == ID_DONE {
      return Last(size);
    } else if id == ID_FAIL {
      var e := ReadFail(stream, size);
      return Stop(e);
    } else {
      return Stop(Protocol("unexpected SYNC response"));
    }
  }

  /** `data` has been received of the whole transfer, and `rest` is still ahead. */
  predicate ReceivedSoFar(whole: Transfer, data: seq<seq<byte>>, rest: Transfer) {
    whole == rest.(chunks := data + rest.chunks)
  }

  lemma ReceivedMore(whole: Transfer, data: seq<seq<byte>>, c: seq<byte>, rest: Transfer)
    requires ReceivedSoFar(whole, data, rest.(chunks := [c] + rest.chunks))
    ensures ReceivedSoFar(whole, data + [c], rest)
    ensures |Concat(whole.chunks)| >= |Concat(data)| + |c|
  {
    Assoc(data, [c], rest.chunks);
    ConcatSnoc(data, c);
    ConcatAppend(data + [c], rest.chunks);
  }

  /** While the transfer `t` is stored into `tmp`. */
  ghost predicate Storing(t: Transfer, s: State, files: map<string, seq<byte>>, room: nat, dir: Directory, tmp: string, data: seq<seq<byte>>)
    reads dir
  {
    && ReceivedSoFar(t, data, Receiving(s))
    && dir.files == files[tmp := Concat(data)]
    && |Concat(data)| <= room && dir.room == room - |Concat(data)|
  }

  /** Stores one payload, or finds that the whole transfer has no room. */
  method StoreChunk(dir: Directory, tmp: string, c: seq<byte>, ghost t: Transfer, ghost s: State,
                    ghost files: map<string, seq<byte>>, ghost room: nat, ghost data: seq<seq<byte>>)
    returns (ok: bool)
    requires tmp in dir.files && dir.files == files[tmp := Concat(data)]
    requires |Concat(data)| <= room && dir.room == room - |Concat(data)|
    requires ReceivedSoFar(t, data, Receiving(s).(chunks := [c] + Receiving(s).chunks))
    modifies dir`files, dir`room
    ensures ok ==> Storing(t, s, files, room, dir, tmp, data + [c])
    ensures !ok ==> |Concat(t.chunks)| > room && dir.files - {tmp} == files - {tmp}
  {
    ConcatSnoc(data, c);
    ReceivedMore(t, data, c, Receiving(s));
    ok := dir.Append(tmp, c);
  }

  lemma ReceivedAll(t: Transfer, data: seq<seq<byte>>, end: End, s: State)
    requires ReceivedSoFar(t, data, Transfer([], end, s))
    ensures t == Transfer(data, end, s)
  {
    assert data + [] == data;
  }

  lemma OthersStay(files: map<string, seq<byte>>, tmp: string, x: seq<byte>)
    ensures files[tmp := x] - {tmp} == files - {tmp}
  {
  }

  /** One frame of `t`: stored, too much for the medium, or the last. */
  method ReceiveOne(stream: UsbStream, dir: Directory, tmp: string, ghost t: Transfer,
                    ghost files: map<string, seq<byte>>, ghost room: nat, ghost data: seq<seq<byte>>)
    returns (f: FrameResult, stored: bool)
    requires stream.Valid() && Storing(t, stream.Abs(), files, room, dir, tmp, data)
    modifies stream, dir`files, dir`room
    ensures stream.Valid()
    ensures f.Chunk? && stored ==>
              Storing(t, stream.Abs(), files, room, dir, tmp, data + [f.c]) && Shrinks(old(stream.Abs()), stream.Abs())
    ensures f.Chunk? && !stored ==> |Concat(t.chunks)| > room && dir.files - {tmp} == files - {tmp}
    ensures f.Last? ==> t == Transfer(data, Complete(f.stamp), stream.Abs())
    ensures f.Stop? ==> t == Transfer(data, Broken, stream.Abs()) && f.error.Protocol?
    ensures !f.Chunk? ==> dir.files == files[tmp := Concat(data)] && |Concat(data)| <= room
  {
    stored := false;
    f := ReceiveFrame(stream);
    match f {
      case Chunk(c) => stored := StoreChunk(dir, tmp, c, t, stream.Abs(), files, room, data);
      case Last(stamp) => ReceivedAll(t, data, Complete(stamp), stream.Abs());
      case Stop(_) => ReceivedAll(t, data, Broken, stream.Abs());
    }
  }

  /** The loop over the frames of `t`. */
  method ReceiveChunks(stream: UsbStream, dir: Directory, tmp: string, ghost t: Transfer,
                       ghost files: map<string, seq<byte>>, ghost room: nat)
    returns (r: Result<nat>)
    requires stream.Valid() && Storing(t, stream.Abs(), files, room, dir, tmp, [])
    modifies stream, dir`files, dir`room
    ensures stream.Valid() && dir.files - {tmp} == files - {tmp}
    ensures r.Success? <==> |Concat(t.chunks)| <= room && t.end.Complete?
    ensures r.Failure? ==> if |Concat(t.chunks)| <= room then r.error.Protocol? else r.error == Io
    ensures r.Success? ==>
              stream.Abs() == t.s && r.value == |Concat(t.chunks)| && dir.files == files[tmp := Concat(t.chunks)]
  {
    ghost var data: seq<seq<byte>> := [];
    var received := 0;
    while true
      invariant stream.Valid() && Storing(t, stream.Abs(), files, room, dir, tmp, data)
      invariant received == |Concat(data)|
      decreases |stream.incoming|, |stream.readBuf| - stream.readPos
    {
      var f, stored := ReceiveOne(stream, dir, tmp, t, files, room, data);
      OthersStay(files, tmp, Concat(data));
      match f {
        case Chunk(c) =>
          if !stored {
            return Failure(Io);
          }
          ConcatSnoc(data, c);
          data := data + [c];
          received := received + |c|;
        case Last(_) =>
          return Success(received);
        case Stop(e) =>
          return Failure(e);
      }
    }
  }

  /**
   * Receives the frames into `tmp`.  Succeeds exactly when the file can be created, the transfer ends
   * with DONE and all payloads find room; the error is a local one exactly if the file or the room was
   * missing.
   */
  method ReceiveFile(stream: UsbStream, dir: Directory, tmp: string) returns (r: Result<nat>)
    requires stream.Valid()
    modifies stream, dir
    ensures stream.Valid() && dir.files - {tmp} == old(dir.files) - {tmp} && dir.faults == Tail(old(dir.faults))
    ensures var t := Receiving(old(stream.Abs()));
            var created := (old(dir.faults) == [] || !old(dir.faults)[0]) && tmp != "" && tmp != "." && tmp != "..";
            var fits := |Concat(t.chunks)| <= old(dir.room);
            && (r.Success? <==> created && fits && t.end.Complete?)
            && (r.Failure? ==> if created && fits then r.error.Protocol? else r.error == Io)
            && (r.Success? ==>
                  && stream.Abs() == t.s && r.value == |Concat(t.chunks)|
                  && dir.files == old(dir.files)[tmp := Concat(t.chunks)])
            && (!created ==> dir.files == old(dir.files) && stream.Abs() == old(stream.Abs()))
  {
    ghost var t, files, room := Receiving(stream.Abs()), dir.files, dir.room;
    assert [] + t.chunks == t.chunks;
    var ok := dir.Create(tmp);
    if !ok {
      return Failure(Io);
    }
    r := ReceiveChunks(stream, dir, tmp, t, files, room);
  }

  /** What asking for a file makes of the stream, and whether the device has it: STAT, its reply, RECV. */
  function Asking(s: State, path: seq<byte>): (r: (bool, State)) {
    var stat := WriteEach(s, RequestWrites(ID_STAT, path));
    if stat.r.Err? then (false, stat.s)
    else
      var reply := ReadExact(stat.s, 16);
      ReadExactHands(stat.s, 16);
      if reply.r.Err? || FromLe32(reply.r.value[4..8]) == 0 then (false, reply.s)
      else
        var recv := WriteEach(reply.s, RequestWrites(ID_RECV, path));
        (recv.r.Ok?, recv.s)
  }

  /**
   * What the device gets to see of it: a STAT request for the path, and when sixteen bytes have answered it
   * a RECV request for the same path, or the start of these.
   */
  lemma AskingSends(s: State, path: seq<byte>) returns (out: seq<seq<byte>>)
    ensures var (asked, s1) := Asking(s, path); var size := Le32(Low32(|path|));
            var stat, recv := Ascii("STAT") + size + path, Ascii("RECV") + size + path;
            && SentSince(s, s1, out)
            && Concat(out) <= stat + recv
            && (|Handed(s1)| < |Handed(s)| + 16 ==> !asked && Concat(out) <= stat)
            && (asked ==> Concat(out) == stat + recv && |Handed(s1)| == |Handed(s)| + 16)
  {
    var stat := WriteEach(s, RequestWrites(ID_STAT, path));
    NamesOfRequests();
    RequestIsFrame(ID_STAT, path);
    RequestIsFrame(ID_RECV, path);
    out := SeriesSends(s, RequestWrites(ID_STAT, path));
    if stat.r.Ok? {
      ReadExactHands(stat.s, 16);
      var reply := ReadExact(stat.s, 16);
      if reply.r.Ok? && FromLe32(reply.r.value[4..8]) != 0 {
        var more := SeriesSends(reply.s, RequestWrites(ID_RECV, path));
        ConcatAppend(out, more);
        Assoc(Chunks(s), out, more);
        out := out + more;
      }
    }
  }

  /** Asking works exactly when both requests are answered and the reply names a mode. */
  lemma AskingWorks(s: State, path: seq<byte>)
    requires Accepting(s)
    ensures var stat := WriteEach(s, RequestWrites(ID_STAT, path)).s; var reply := ReadExact(stat, 16).s;
            && Accepting(Asking(s, path).1)
            && (Asking(s, path).0 <==>
                  && Affords(s, RequestWrites(ID_STAT, path))
                  && |Available(stat)| >= 16 && FromLe32(Available(stat)[4..8]) != 0
                  && Affords(reply, RequestWrites(ID_RECV, path)))
  {
    WriteEachAnswered(s, RequestWrites(ID_STAT, path));
    var stat := WriteEach(s, RequestWrites(ID_STAT, path)).s;
    ReadExactStock(stat, 16);
    var reply := ReadExact(stat, 16);
    WriteEachAnswered(reply.s, RequestWrites(ID_RECV, path));
    assert reply.r.Ok? ==> reply.r.value[4..8] == Available(stat)[4..8];
  }

  /**
   * What fetching a file leaves.  It is done exactly when a temporary file can be created, DONE is reached
   * and all payloads find room.  Only then does the target change, if the rename works too, and then it
   * holds exactly the payloads of all DATA frames; nothing but the target and its temporary file is ever
   * touched, and of a failed transfer nothing is left if the temporary file can be removed.
   */
  ghost predicate Fetched(t: Transfer, local: string, files: map<string, seq<byte>>, room: nat, faults: seq<bool>,
                          r: Result<()>, done: bool, files1: map<string, seq<byte>>, s1: State)
  {
    var tmp, fits := TempName(local), |Concat(t.chunks)| <= room;
    var works, worksNext := faults == [] || !faults[0], |faults| <= 1 || !faults[1];
    var created := works && local != "" && local != "." && local != "..";
    && (done <==> created && fits && t.end.Complete?)
    && (done ==>
          && s1 == t.s
          && if worksNext then r == Success(()) && files1 == (files - {tmp})[local := Concat(t.chunks)]
             else r == Failure(Io) && files1 == files[tmp := Concat(t.chunks)])
    && (!done ==>
          && (if created && fits then r.Failure? && r.error.Protocol? else r == Failure(Io))
          && files1 - {tmp} == files - {tmp}
          && (worksNext ==> files1 == files - {tmp}))
  }

  /** The second half: into the temporary file, and from there to the target. */
  method Fetch(stream: UsbStream, dir: Directory, local: string) returns (r: Result<()>, ghost done: bool)
    requires stream.Valid()
    modifies stream, dir
    ensures stream.Valid()
    ensures Fetched(Receiving(old(stream.Abs())), local, old(dir.files), old(dir.room), old(dir.faults),
                    r, done, dir.files, stream.Abs())
  {
    var tmp := TempName(local);
    TempDiffers(local);
    var result;
    ghost var data := Receiving(stream.Abs()).chunks;
    result := ReceiveFile(stream, dir, tmp);
    done := result.Success?;
    match result {
      case Success(_) =>
        var ok := dir.Rename(tmp, local);
        assert old(dir.files)[tmp := Concat(data)] - {tmp} == old(dir.files) - {tmp};
        r := if ok then Success(()) else Failure(Io);
      case Failure(e) =>
        var _ := dir.Remove(tmp);
        r := Failure(e);
    }
  }

  /**
   * Pulls a remote file: exactly if the device can be asked for it and has it, its transfer is fetched;
   * else nothing is touched.  If the acknowledgements go out, the transfer is what the concatenated
   * payloads mean, however they were cut.
   */
  method SyncPull(stream: UsbStream, remotePath: seq<byte>, dir: Directory, local: string)
    returns (r: Result<()>, ghost asked: bool, ghost mid: State, ghost done: bool)
    requires stream.Valid()
    modifies stream, dir
    ensures stream.Valid()
    ensures (asked, mid) == Asking(old(stream.Abs()), remotePath)
    ensures asked ==> Fetched(Receiving(mid), local, old(dir.files), old(dir.room), old(dir.faults), r, done, dir.files, stream.Abs())
    ensures !asked ==> !done && r.Failure? && r.error.Protocol? && stream.Abs() == mid && dir.files == old(dir.files)
    ensures done ==> exists stamp: u32 ::
              Handed(stream.Abs()) == Handed(mid) + DataFrames(Receiving(mid).chunks) + Header(ID_DONE, stamp)
    ensures Accepting(mid) ==>
              var t, p := Receiving(mid), ReadFrames(Available(mid)); t.chunks == p.chunks && (t.end.Complete? <==> p.end.Done?)
  {
    ghost var asking := Asking(stream.Abs(), remotePath);
    asked, mid, done := asking.0, asking.1, false;
    ReceivingHands(mid);
    if Accepting(mid) {
      ReceivingReads(mid);
    }
    var why := Ask(stream, remotePath);
    if why.Failure? {
      return Failure(why.error), asked, mid, done;
    }
    r, done := Fetch(stream, dir, local);
  }

  /** STAT, its reply, RECV. */
  method Ask(stream: UsbStream, remotePath: seq<byte>) returns (r: Result<()>)
    requires stream.Valid()
    modifies stream
    ensures stream.Valid() && (r.Success?, stream.Abs()) == Asking(old(stream.Abs()), remotePath)
    ensures r.Failure? ==> r.error.Protocol?
  {
    var ok;
    ghost var sent;
    ok, sent := WriteRequest(stream, ID_STAT, remotePath);
    if !ok {
      return Failure(Protocol("SYNC write failed"));
    }
    ReadExactHands(stream.Abs(), 16);
    var stat := stream.ReadExact(16);
    if stat.Err? {
      return Failure(Protocol("STAT read failed"));
    }
    if FromLe32(stat.value[4..8]) == 0 {
      return Failure(Protocol("remote file not found"));
    }
    ok, sent := WriteRequest(stream, ID_RECV, remotePath);
    r := if ok then Success(()) else Failure(Protocol("SYNC write failed"));
  }
}

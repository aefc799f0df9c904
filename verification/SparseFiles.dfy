/** The loops that expand a sparse image from one file into another. */
module SparseFiles {
  import opened Bytes
  import opened Flash
  import opened Wrappers
  import opened Sparse

  /** What is left to read. */
  ghost function Rest(reader: Cursor): seq<byte>
    reads reader
  {
    if reader.pos <= |reader.data| then reader.data[reader.pos..] else []
  }

  function Blame(e: Expansion, room: nat): FlashError
    requires e.status.Fine? ==> |e.out| > room
  {
    if |e.out| > room || e.status.Truncated? then Io
    else if e.status.NotSparse? then Protocol("Not a sparse image")
    else Protocol("Unknown sparse chunk type")
  }

  /** The outcome fits the expansion `e` of the input on a medium with `room` bytes left. */
  predicate Settles(r: Result<()>, e: Expansion, room: nat) {
    && (r.Success? <==> e.status.Fine? && |e.out| <= room)
    && (r.Failure? ==> r.error == Blame(e, room))
  }

  // ----- One chunk is expanded, then the rest -----

  lemma AfterFirst(done: seq<byte>, input: seq<byte>, n: nat, blockSize: nat)
    requires n > 0
    ensures var first := ExpandChunks(input, 1, blockSize);
            first.status.Fine? ==>
              Emit(done, ExpandChunks(input, n, blockSize)) ==
              Emit(done + first.out, ExpandChunks(first.rest, n - 1, blockSize))
  {
    ExpandInTwo(input, 1, n - 1, blockSize);
    var first := ExpandChunks(input, 1, blockSize);
    Assoc(done, first.out, ExpandChunks(first.rest, n - 1, blockSize).out);
  }

  lemma FirstFails(r: Result<()>, done: seq<byte>, input: seq<byte>, n: nat, blockSize: nat, room: nat)
    requires n > 0 && |done| <= room && r.Failure?
    requires Settles(r, ExpandChunks(input, 1, blockSize), room - |done|)
    ensures Settles(r, Emit(done, ExpandChunks(input, n, blockSize)), room)
  {
    ExpandInTwo(input, 1, n - 1, blockSize);
  }

  lemma ChunkAlone(h: seq<byte>, tail: seq<byte>, bytes: seq<byte>, blockSize: nat)
    requires |h| == CHUNK_HEADER_SIZE && |bytes| >= CHUNK_HEADER_SIZE
    requires h == bytes[..CHUNK_HEADER_SIZE] && tail == bytes[CHUNK_HEADER_SIZE..]
    ensures var body := BodySize(ChunkType(h), ChunkBlocks(h), blockSize);
            ExpandChunks(bytes, 1, blockSize) ==
              if body.None? then Expansion(UnknownChunk, [], tail)
              else if body.value > |tail| then Expansion(Truncated, [], tail)
              else Expansion(Fine, Written(ChunkType(h), ChunkBlocks(h), blockSize, tail[..body.value]), tail[body.value..])
  {
    var body := BodySize(ChunkType(h), ChunkBlocks(h), blockSize);
    if body.Some? && body.value <= |tail| {
      var out := Written(ChunkType(h), ChunkBlocks(h), blockSize, tail[..body.value]);
      assert ExpandChunks(tail[body.value..], 0, blockSize) == Expansion(Fine, [], tail[body.value..]);
      assert out + [] == out;
    }
  }

  lemma RepeatGrows(s: seq<byte>, a: nat, b: nat)
    requires a <= b
    ensures |Repeat(s, a)| <= |Repeat(s, b)|
  {
    RepeatSum(s, a, b - a);
  }

  // ----- Reading and writing -----

  method Take(reader: Cursor, n: nat) returns (ok: bool, piece: seq<byte>)
    requires n > 0
    modifies reader
    ensures ok == (n <= |old(Rest(reader))|)
    ensures ok ==> piece == old(Rest(reader))[..n] && Rest(reader) == old(Rest(reader))[n..]
  {
    ok, piece := reader.ReadExact(n);
  }

  /** One buffer of a copy. */
  method CopyPiece(reader: Cursor, writer: Sink, n: nat) returns (ok: bool)
    requires n > 0
    modifies reader, writer
    ensures ok == (n <= |old(Rest(reader))| && n <= old(writer.room))
    ensures old(writer.written) <= writer.written
    ensures ok ==>
              && writer.written == old(writer.written) + old(Rest(reader))[..n]
              && writer.room == old(writer.room) - n
              && Rest(reader) == old(Rest(reader))[n..]
  {
    var piece;
    ok, piece := Take(reader, n);
    if ok {
      ok := writer.WriteAll(piece);
    }
  }

  lemma TakeMore(before: seq<byte>, s: seq<byte>, k: nat, n: nat)
    requires k <= |s|
    ensures k + n <= |s| ==> before + s[..k] + s[k..][..n] == before + s[..k + n]
    ensures k + n <= |s| ==> s[k..][n..] == s[k + n..]
  {
  }

  /** RAW: copies `size` bytes through a buffer of `capacity`. */
  method Copy(reader: Cursor, writer: Sink, size: nat, capacity: nat) returns (ok: bool)
    requires size > 0 ==> capacity > 0
    modifies reader, writer
    ensures ok == (size <= |old(Rest(reader))| && size <= old(writer.room))
    ensures old(writer.written) <= writer.written
    ensures ok ==>
              && writer.written == old(writer.written) + old(Rest(reader))[..size]
              && writer.room == old(writer.room) - size
              && Rest(reader) == old(Rest(reader))[size..]
  {
    ghost var input := Rest(reader);
    ghost var before := writer.written;
    var remaining := size;
    assert before + input[..0] == before;
    while remaining > 0
      invariant 0 <= remaining <= size && size - remaining <= |input|
      invariant Rest(reader) == input[size - remaining..]
      invariant writer.written == before + input[..size - remaining]
      invariant writer.room == old(writer.room) - (size - remaining)
    {
      var n := Min(remaining, capacity);
      ok := CopyPiece(reader, writer, n);
      TakeMore(before, input, size - remaining, n);
      if !ok {
        return;
      }
      remaining := remaining - n;
    }
    ok := true;
  }

  /** FILL and DONT_CARE: writes one block `times` times. */
  method WriteTimes(writer: Sink, block: seq<byte>, times: nat) returns (ok: bool)
    modifies writer
    ensures ok == (|Repeat(block, times)| <= old(writer.room))
    ensures old(writer.written) <= writer.written
    ensures ok ==>
              && writer.written == old(writer.written) + Repeat(block, times)
              && writer.room == old(writer.room) - |Repeat(block, times)|
  {
    ghost var before := writer.written;
    assert before + [] == before;
    for i := 0 to times
      invariant |Repeat(block, i)| <= old(writer.room)
      invariant writer.written == before + Repeat(block, i)
      invariant writer.room == old(writer.room) - |Repeat(block, i)|
    {
      RepeatGrows(block, i + 1, times);
      Assoc(before, Repeat(block, i), block);
      ok := writer.WriteAll(block);
      if !ok {
        return;
      }
    }
    ok := true;
  }

  method ExpandBody(reader: Cursor, writer: Sink, t: u16, blocks: u32, blockSize: u32) returns (r: Result<()>)
    modifies reader, writer
    ensures var input := old(Rest(reader));
            var body := BodySize(t, blocks, blockSize);
            && old(writer.written) <= writer.written
            && (body.None? ==> r == Failure(Protocol("Unknown sparse chunk type")))
            && (body.Some? && body.value > |input| ==> r == Failure(Io))
            && (body.Some? && body.value <= |input| ==>
                  var out := Written(t, blocks, blockSize, input[..body.value]);
                  && (|out| > old(writer.room) ==> r == Failure(Io))
                  && (|out| <= old(writer.room) ==>
                        && r == Success(())
                        && writer.written == old(writer.written) + out
                        && writer.room == old(writer.room) - |out|
                        && Rest(reader) == input[body.value..]))
  {
    ghost var input := Rest(reader);
    var ok: bool;
    var pattern: seq<byte>;
    if t == CHUNK_RAW {
      var size := Area(blocks, blockSize);
      assert size > 0 ==> blockSize > 0;
      ok := Copy(reader, writer, size, Min(blockSize, COPY_BUFFER));
    } else if t == CHUNK_FILL {
      ok, pattern := Take(reader, 4);
      if ok {
        ok := WriteTimes(writer, Repeat(pattern, Quarter(blockSize)), blocks);
      }
    } else if t == CHUNK_DONT_CARE {
      assert input[0..] == input;
      ok := WriteTimes(writer, Zeros(blockSize), blocks);
    } else if t == CHUNK_CRC32 {
      ok, pattern := Take(reader, 4);
      assert writer.written + [] == writer.written;
    } else {
      return Failure(Protocol("Unknown sparse chunk type"));
    }
    r := if ok then Success(()) else Failure(Io);
  }

  method ExpandChunk(reader: Cursor, writer: Sink, blockSize: u32) returns (r: Result<()>)
    modifies reader, writer
    ensures old(writer.written) <= writer.written
    ensures Settles(r, ExpandChunks(old(Rest(reader)), 1, blockSize), old(writer.room))
    ensures r.Success? ==>
              var e := ExpandChunks(old(Rest(reader)), 1, blockSize);
              && writer.written == old(writer.written) + e.out
              && writer.room == old(writer.room) - |e.out|
              && Rest(reader) == e.rest
  {
    var ok, h := Take(reader, CHUNK_HEADER_SIZE);
    if !ok {
      return Failure(Io);
    }
    ChunkAlone(h, Rest(reader), old(Rest(reader)), blockSize);
    r := ExpandBody(reader, writer, ChunkType(h), ChunkBlocks(h), blockSize);
  }

  method ExpandAll(reader: Cursor, writer: Sink, n: nat, blockSize: u32) returns (r: Result<()>)
    modifies reader, writer
    ensures old(writer.written) <= writer.written
    ensures Settles(r, ExpandChunks(old(Rest(reader)), n, blockSize), old(writer.room))
    ensures r.Success? ==>
              var e := ExpandChunks(old(Rest(reader)), n, blockSize);
              writer.written == old(writer.written) + e.out && Rest(reader) == e.rest
  {
    ghost var before, room := writer.written, writer.room;
    ghost var whole := ExpandChunks(Rest(reader), n, blockSize);
    ghost var done: seq<byte> := [];
    assert [] + whole.out == whole.out && before + [] == before;
    for i := 0 to n
      invariant |done| <= room && writer.room == room - |done|
      invariant writer.written == before + done
      invariant whole == Emit(done, ExpandChunks(Rest(reader), n - i, blockSize))
    {
      ghost var input := Rest(reader);
      AfterFirst(done, input, n - i, blockSize);
      r := ExpandChunk(reader, writer, blockSize);
      if r.Failure? {
        FirstFails(r, done, input, n - i, blockSize, room);
        return;
      }
      ghost var out := ExpandChunks(input, 1, blockSize).out;
      Assoc(before, done, out);
      done := done + out;
    }
    assert done + [] == done;
    r := Success(());
  }

  /**
   * Expands the image from the cursor on: succeeds exactly when the image is complete and its output
   * fits, has then written exactly that output and read exactly to the image's end; otherwise the
   * error tells which, and nothing written before is lost.
   */
  method DecompressSparse(reader: Cursor, writer: Sink) returns (r: Result<()>)
    modifies reader, writer
    ensures old(writer.written) <= writer.written
    ensures Settles(r, Expand(old(Rest(reader))), old(writer.room))
    ensures r.Success? ==>
              var e := Expand(old(Rest(reader)));
              writer.written == old(writer.written) + e.out && Rest(reader) == e.rest
    ensures var e := Expand(old(Rest(reader)));
            r.Failure? ==>
              r.error == if |e.out| > old(writer.room) || e.status == Truncated then Io
                         else if e.status == NotSparse then Protocol("Not a sparse image")
                         else Protocol("Unknown sparse chunk type")
  {
    var ok, h := Take(reader, SPARSE_HEADER_SIZE);
    if !ok {
      return Failure(Io);
    }
    if FromLe32(h[0..4]) != SPARSE_MAGIC {
      return Failure(Protocol("Not a sparse image"));
    }
    r := ExpandAll(reader, writer, TotalChunks(h), BlockSize(h));
  }

  lemma MagicBytes(magic: seq<byte>)
    requires |magic| == 4
    ensures FromLe32(magic) == SPARSE_MAGIC <==> magic == Le32(SPARSE_MAGIC)
  {
    Le32Inverts(magic);
    Le32RoundTrip(SPARSE_MAGIC);
  }

  /** The probe says whether the file starts with the magic, and leaves the cursor where it was. */
  method IsSparse(reader: Cursor) returns (sparse: bool)
    modifies reader
    ensures reader.pos == old(reader.pos)
    ensures sparse <==> |Rest(reader)| >= 4 && Rest(reader)[..4] == Le32(SPARSE_MAGIC)
  {
    var start := reader.pos;
    var ok, magic := Take(reader, 4);
    reader.Seek(start);
    sparse := ok && FromLe32(magic) == SPARSE_MAGIC;
    if ok {
      MagicBytes(magic);
    }
  }

  /** An image that the expander takes for sparse by its magic is one the probe recognises. */
  lemma ProbeAgrees(bytes: seq<byte>)
    requires |bytes| >= SPARSE_HEADER_SIZE
    ensures Expand(bytes).status.NotSparse? <==> bytes[..4] != Le32(SPARSE_MAGIC)
  {
    var magic := bytes[..4];
    assert bytes[..SPARSE_HEADER_SIZE][0..4] == magic;
    MagicBytes(magic);
  }
}

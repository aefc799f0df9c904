/** Android sparse images: the expander, and the images it must invert. */
module Sparse {
  import opened Bytes
  import opened Wrappers

  const SPARSE_MAGIC: u32 := 0xED26_FF3A
  const SPARSE_HEADER_SIZE: nat := 28
  const CHUNK_HEADER_SIZE: nat := 12
  const CHUNK_RAW: u16 := 0xCAC1
  const CHUNK_FILL: u16 := 0xCAC2
  const CHUNK_DONT_CARE: u16 := 0xCAC3
  const CHUNK_CRC32: u16 := 0xCAC4
  const COPY_BUFFER: nat := 65536

  function Repeat(s: seq<byte>, n: nat): seq<byte> {
    if n == 0 then [] else Repeat(s, n - 1) + s
  }

  function Area(blocks: nat, blockSize: nat): nat {
    blocks * blockSize
  }

  function Quarter(blockSize: nat): (q: nat)
    ensures 4 * q <= blockSize < 4 * q + 4
  {
    blockSize / 4
  }

  // ----- What the expander writes -----

  datatype Status = Fine | Truncated | NotSparse | UnknownChunk

  /** The bytes written for the chunks that were complete, and the input left behind them. */
  datatype Expansion = Expansion(status: Status, out: seq<byte>, rest: seq<byte>)

  function Emit(piece: seq<byte>, e: Expansion): Expansion {
    e.(out := piece + e.out)
  }

  function ChunkType(h: seq<byte>): u16
    requires |h| == CHUNK_HEADER_SIZE
  {
    FromLe16(h[0..2])
  }

  function ChunkBlocks(h: seq<byte>): u32
    requires |h| == CHUNK_HEADER_SIZE
  {
    FromLe32(h[4..8])
  }

  /** Input bytes of a chunk's body, or none if the type is unknown. */
  function BodySize(t: u16, blocks: nat, blockSize: nat): Option<nat> {
    if t == CHUNK_RAW then Some(Area(blocks, blockSize))
    else if t == CHUNK_FILL || t == CHUNK_CRC32 then Some(4)
    else if t == CHUNK_DONT_CARE then Some(0)
    else None
  }

  /** What one chunk with a complete body writes. */
  function Written(t: u16, blocks: nat, blockSize: nat, body: seq<byte>): seq<byte> {
    if t == CHUNK_RAW then body
    else if t == CHUNK_FILL then Repeat(Repeat(body, Quarter(blockSize)), blocks)
    else if t == CHUNK_DONT_CARE then Repeat(Zeros(blockSize), blocks)
    else []
  }

  function ExpandChunks(bytes: seq<byte>, n: nat, blockSize: nat): (e: Expansion)
    ensures !e.status.NotSparse?
    decreases n
  {
    if n == 0 then Expansion(Fine, [], bytes)
    else if |bytes| < CHUNK_HEADER_SIZE then Expansion(Truncated, [], bytes)
    else
      var h, tail := bytes[..CHUNK_HEADER_SIZE], bytes[CHUNK_HEADER_SIZE..];
      var t, blocks := ChunkType(h), ChunkBlocks(h);
      match BodySize(t, blocks, blockSize)
      case None => Expansion(UnknownChunk, [], tail)
      case Some(size) =>
        if |tail| < size then Expansion(Truncated, [], tail)
        else Emit(Written(t, blocks, blockSize, tail[..size]), ExpandChunks(tail[size..], n - 1, blockSize))
  }

  function BlockSize(h: seq<byte>): u32
    requires |h| == SPARSE_HEADER_SIZE
  {
    FromLe32(h[12..16])
  }

  function TotalChunks(h: seq<byte>): u32
    requires |h| == SPARSE_HEADER_SIZE
  {
    FromLe32(h[20..24])
  }

  function Expand(bytes: seq<byte>): Expansion {
    if |bytes| < SPARSE_HEADER_SIZE then Expansion(Truncated, [], bytes)
    else
      var h, tail := bytes[..SPARSE_HEADER_SIZE], bytes[SPARSE_HEADER_SIZE..];
      if FromLe32(h[0..4]) != SPARSE_MAGIC then Expansion(NotSparse, [], tail)
      else ExpandChunks(tail, TotalChunks(h), BlockSize(h))
  }

  // ----- Images and their meaning -----

  datatype Chunk =
    | Raw(data: seq<byte>)
    | Fill(pattern: seq<byte>)
    | DontCare
    | Crc(value: seq<byte>)

  /** A chunk, the number of blocks it claims and the bytes of its header that do not matter. */
  datatype Piece = Piece(chunk: Chunk, blocks: u32, reserved: seq<byte>, size: seq<byte>)

  predicate ValidPiece(p: Piece, blockSize: nat) {
    && |p.reserved| == 2 && |p.size| == 4
    && match p.chunk
       case Raw(data) => |data| == Area(p.blocks, blockSize)
       case Fill(pattern) => |pattern| == 4
       case DontCare => true
       case Crc(value) => |value| == 4
  }

  predicate AllValid(ps: seq<Piece>, blockSize: nat) {
    ps == [] || (ValidPiece(ps[0], blockSize) && AllValid(ps[1..], blockSize))
  }

  function TypeOf(c: Chunk): u16 {
    match c
    case Raw(_) => CHUNK_RAW
    case Fill(_) => CHUNK_FILL
    case DontCare => CHUNK_DONT_CARE
    case Crc(_) => CHUNK_CRC32
  }

  /** The magic and the chunk types as they stand in a file. */
  lemma TypesOnDisk(c: Chunk)
    ensures Le32(SPARSE_MAGIC) == [0x3A, 0xFF, 0x26, 0xED]
    ensures Le16(TypeOf(c)) == [if c.Raw? then 0xC1 else if c.Fill? then 0xC2 else if c.DontCare? then 0xC3 else 0xC4, 0xCA]
  {
  }

  function BodyOf(c: Chunk): seq<byte> {
    match c
    case Raw(data) => data
    case Fill(pattern) => pattern
    case DontCare => []
    case Crc(value) => value
  }

  function EncodePiece(p: Piece): seq<byte> {
    Le16(TypeOf(p.chunk)) + p.reserved + Le32(p.blocks) + p.size + BodyOf(p.chunk)
  }

  function EncodePieces(ps: seq<Piece>): seq<byte> {
    if ps == [] then [] else EncodePiece(ps[0]) + EncodePieces(ps[1..])
  }

  /** The image header; `a`, `b` and `c` are the fields the expander does not read. */
  function EncodeHeader(blockSize: u32, chunks: u32, a: seq<byte>, b: seq<byte>, c: seq<byte>): seq<byte> {
    Le32(SPARSE_MAGIC) + a + Le32(blockSize) + b + Le32(chunks) + c
  }

  /** Byte `i` of the area a chunk describes, by the format: the pattern starts over every four bytes. */
  function Meaning(p: Piece, blockSize: nat): (m: seq<byte>)
    requires ValidPiece(p, blockSize)
    ensures |m| == if p.chunk.Crc? then 0 else Area(p.blocks, blockSize)
  {
    match p.chunk
    case Raw(data) => data
    case Fill(pattern) => seq(Area(p.blocks, blockSize), i requires 0 <= i => pattern[i % 4])
    case DontCare => Zeros(Area(p.blocks, blockSize))
    case Crc(_) => []
  }

  function Meanings(ps: seq<Piece>, blockSize: nat): seq<byte>
    requires AllValid(ps, blockSize)
  {
    if ps == [] then [] else Meaning(ps[0], blockSize) + Meanings(ps[1..], blockSize)
  }

  /** Blocks of output an image describes. */
  function OutputBlocks(ps: seq<Piece>): nat {
    if ps == [] then 0 else (if ps[0].chunk.Crc? then 0 else ps[0].blocks) + OutputBlocks(ps[1..])
  }

  // ----- Repetition -----

  lemma {:induction false} RepeatLength(s: seq<byte>, n: nat)
    ensures |Repeat(s, n)| == Area(n, |s|)
  {
    if n > 0 {
      RepeatLength(s, n - 1);
    }
  }

  lemma {:induction false} RepeatPattern(pattern: seq<byte>, n: nat)
    requires |pattern| == 4
    ensures |Repeat(pattern, n)| == 4 * n && forall i :: 0 <= i < 4 * n ==> Repeat(pattern, n)[i] == pattern[i % 4]
  {
    if n > 0 {
      RepeatPattern(pattern, n - 1);
      forall i | 4 * (n - 1) <= i < 4 * n ensures Repeat(pattern, n)[i] == pattern[i % 4] {
        assert i % 4 == i - 4 * (n - 1);
      }
    }
  }

  lemma {:induction false} RepeatBlocks(pattern: seq<byte>, q: nat, n: nat)
    requires |pattern| == 4
    ensures Repeat(Repeat(pattern, q), n) == Repeat(pattern, n * q)
  {
    if n > 0 {
      RepeatBlocks(pattern, q, n - 1);
      RepeatSum(pattern, (n - 1) * q, q);
      assert (n - 1) * q + q == n * q;
    }
  }

  lemma {:induction false} RepeatSum(s: seq<byte>, a: nat, b: nat)
    ensures Repeat(s, a + b) == Repeat(s, a) + Repeat(s, b)
  {
    if b > 0 {
      RepeatSum(s, a, b - 1);
      Assoc(Repeat(s, a), Repeat(s, b - 1), s);
    } else {
      assert Repeat(s, a) + [] == Repeat(s, a);
    }
  }

  lemma {:induction false} RepeatZeros(k: nat, n: nat)
    ensures Repeat(Zeros(k), n) == Zeros(Area(n, k))
  {
    if n > 0 {
      RepeatZeros(k, n - 1);
      assert Area(n, k) == Area(n - 1, k) + k;
    }
  }

  // ----- One chunk -----

  predicate Aligned(p: Piece, blockSize: nat) {
    p.chunk.Fill? && p.blocks > 0 ==> blockSize == 4 * Quarter(blockSize)
  }

  predicate AllAligned(ps: seq<Piece>, blockSize: nat) {
    ps == [] || (Aligned(ps[0], blockSize) && AllAligned(ps[1..], blockSize))
  }

  function WrittenFor(p: Piece, blockSize: nat): seq<byte> {
    Written(TypeOf(p.chunk), p.blocks, blockSize, BodyOf(p.chunk))
  }

  /**
   * A chunk is written as it is meant exactly when it is aligned: a fill of whole blocks whose size is
   * not a multiple of four comes out short.
   */
  lemma WrittenIsMeaning(p: Piece, blockSize: nat)
    requires ValidPiece(p, blockSize)
    ensures WrittenFor(p, blockSize) == Meaning(p, blockSize) <==> Aligned(p, blockSize)
    ensures |WrittenFor(p, blockSize)| <= |Meaning(p, blockSize)|
    ensures |WrittenFor(p, blockSize)| == |Meaning(p, blockSize)| <==> Aligned(p, blockSize)
  {
    match p.chunk {
      case Fill(pattern) =>
        var q, n := Quarter(blockSize), p.blocks;
        RepeatBlocks(pattern, q, n);
        RepeatPattern(pattern, n * q);
        FillArea(n, q, blockSize);
      case DontCare => RepeatZeros(blockSize, p.blocks);
      case _ =>
    }
  }

  lemma FillArea(n: nat, q: nat, k: nat)
    requires 4 * q <= k < 4 * q + 4
    ensures 4 * (n * q) <= Area(n, k)
    ensures 4 * (n * q) == Area(n, k) <==> k == 4 * q || n == 0
  {
    assert Area(n, k) == n * (4 * q) + n * (k - 4 * q);
    assert n * (4 * q) == 4 * (n * q);
    if n > 0 && k > 4 * q {
      assert n * (k - 4 * q) > 0;
    }
  }

  lemma HeaderFields(p: Piece)
    requires |p.reserved| == 2 && |p.size| == 4
    ensures var h := Le16(TypeOf(p.chunk)) + p.reserved + Le32(p.blocks) + p.size;
            |h| == CHUNK_HEADER_SIZE && ChunkType(h) == TypeOf(p.chunk) && ChunkBlocks(h) == p.blocks
  {
    var h := Le16(TypeOf(p.chunk)) + p.reserved + Le32(p.blocks) + p.size;
    Le16RoundTrip(TypeOf(p.chunk));
    Le32RoundTrip(p.blocks);
    assert h[0..2] == Le16(TypeOf(p.chunk)) && h[4..8] == Le32(p.blocks);
  }

  lemma BodyFits(p: Piece, blockSize: nat)
    requires ValidPiece(p, blockSize)
    ensures BodySize(TypeOf(p.chunk), p.blocks, blockSize) == Some(|BodyOf(p.chunk)|)
  {
  }

  lemma ExpandFramed(h: seq<byte>, body: seq<byte>, rest: seq<byte>, n: nat, blockSize: nat)
    requires |h| == CHUNK_HEADER_SIZE && n > 0
    requires BodySize(ChunkType(h), ChunkBlocks(h), blockSize) == Some(|body|)
    ensures ExpandChunks(h + body + rest, n, blockSize) ==
              Emit(Written(ChunkType(h), ChunkBlocks(h), blockSize, body), ExpandChunks(rest, n - 1, blockSize))
  {
    var bytes := h + body + rest;
    assert bytes[..12] == h && bytes[12..] == body + rest;
    assert (body + rest)[..|body|] == body && (body + rest)[|body|..] == rest;
  }

  lemma ExpandOne(p: Piece, rest: seq<byte>, n: nat, blockSize: nat)
    requires ValidPiece(p, blockSize) && n > 0
    ensures ExpandChunks(EncodePiece(p) + rest, n, blockSize) ==
              Emit(WrittenFor(p, blockSize), ExpandChunks(rest, n - 1, blockSize))
  {
    HeaderFields(p);
    BodyFits(p, blockSize);
    ExpandFramed(Le16(TypeOf(p.chunk)) + p.reserved + Le32(p.blocks) + p.size, BodyOf(p.chunk), rest, n, blockSize);
  }

  // ----- Whole images -----

  function AllWritten(ps: seq<Piece>, blockSize: nat): seq<byte> {
    if ps == [] then [] else WrittenFor(ps[0], blockSize) + AllWritten(ps[1..], blockSize)
  }

  lemma PieceFirst(p: Piece, code: seq<byte>, rest: seq<byte>, n: nat, blockSize: nat, e: Expansion)
    requires ValidPiece(p, blockSize) && ExpandChunks(code + rest, n, blockSize) == e
    ensures ExpandChunks(EncodePiece(p) + code + rest, n + 1, blockSize) == Emit(WrittenFor(p, blockSize), e)
  {
    Assoc(EncodePiece(p), code, rest);
    ExpandOne(p, code + rest, n + 1, blockSize);
  }

  lemma {:induction false} ExpandInvertsPieces(ps: seq<Piece>, blockSize: nat, rest: seq<byte>)
    requires AllValid(ps, blockSize)
    ensures ExpandChunks(EncodePieces(ps) + rest, |ps|, blockSize) == Expansion(Fine, AllWritten(ps, blockSize), rest)
  {
    if ps == [] {
      assert [] + rest == rest;
    } else {
      ExpandInvertsPieces(ps[1..], blockSize, rest);
      PieceFirst(ps[0], EncodePieces(ps[1..]), rest, |ps| - 1, blockSize, Expansion(Fine, AllWritten(ps[1..], blockSize), rest));
    }
  }

  lemma {:induction false} MeaningsSize(ps: seq<Piece>, blockSize: nat)
    requires AllValid(ps, blockSize)
    ensures |Meanings(ps, blockSize)| == Area(OutputBlocks(ps), blockSize)
  {
    if ps != [] {
      MeaningsSize(ps[1..], blockSize);
      AreaAdds(if ps[0].chunk.Crc? then 0 else ps[0].blocks, OutputBlocks(ps[1..]), blockSize);
    }
  }

  lemma {:induction false} WrittenAsMeant(ps: seq<Piece>, blockSize: nat)
    requires AllValid(ps, blockSize)
    ensures AllAligned(ps, blockSize) ==> AllWritten(ps, blockSize) == Meanings(ps, blockSize)
    ensures |AllWritten(ps, blockSize)| <= |Meanings(ps, blockSize)|
    ensures |AllWritten(ps, blockSize)| == |Meanings(ps, blockSize)| ==> AllAligned(ps, blockSize)
  {
    if ps != [] {
      WrittenIsMeaning(ps[0], blockSize);
      WrittenAsMeant(ps[1..], blockSize);
    }
  }

  lemma AreaAdds(a: nat, b: nat, k: nat)
    ensures Area(a + b, k) == Area(a, k) + Area(b, k)
  {
  }

  /**
   * Expansion inverts encoding.  For every block size and chunk list the expander accepts the image
   * and stops exactly behind its last chunk; and its output is the concatenation of the chunks'
   * meanings, of the size the header promises, if and only if every non-empty fill has a block size
   * that is a multiple of four.
   */
  lemma ExpandInvertsEncode(ps: seq<Piece>, blockSize: u32, a: seq<byte>, b: seq<byte>, c: seq<byte>, rest: seq<byte>)
    requires |a| == 8 && |b| == 4 && |c| == 4 && |ps| < 0x1_0000_0000
    requires AllValid(ps, blockSize)
    ensures var e := Expand(EncodeHeader(blockSize, |ps|, a, b, c) + EncodePieces(ps) + rest);
            && e.status == Fine && e.rest == rest
            && (e.out == Meanings(ps, blockSize) <==> AllAligned(ps, blockSize))
            && (|e.out| == Area(OutputBlocks(ps), blockSize) <==> AllAligned(ps, blockSize))
  {
    var h := EncodeHeader(blockSize, |ps|, a, b, c);
    ImageHeader(blockSize, |ps|, a, b, c);
    var tail := EncodePieces(ps) + rest;
    Assoc(h, EncodePieces(ps), rest);
    assert (h + tail)[..28] == h && (h + tail)[28..] == tail;
    ExpandInvertsPieces(ps, blockSize, rest);
    MeaningsSize(ps, blockSize);
    WrittenAsMeant(ps, blockSize);
  }

  lemma ImageHeader(blockSize: u32, chunks: u32, a: seq<byte>, b: seq<byte>, c: seq<byte>)
    requires |a| == 8 && |b| == 4 && |c| == 4
    ensures var h := EncodeHeader(blockSize, chunks, a, b, c);
            |h| == SPARSE_HEADER_SIZE && FromLe32(h[0..4]) == SPARSE_MAGIC && BlockSize(h) == blockSize && TotalChunks(h) == chunks
  {
    var h := EncodeHeader(blockSize, chunks, a, b, c);
    Le32RoundTrip(SPARSE_MAGIC);
    Le32RoundTrip(blockSize);
    Le32RoundTrip(chunks);
    assert h[0..4] == Le32(SPARSE_MAGIC) && h[12..16] == Le32(blockSize) && h[20..24] == Le32(chunks);
  }

  // ----- Images that are not whole -----

  /** What is left of the first `m + size` bytes when the rest is cut off behind `k`. */
  lemma CutSlices(bytes: seq<byte>, m: nat, size: nat, k: nat)
    requires m <= k <= |bytes|
    ensures bytes[..k][..m] == bytes[..m] && |bytes[..k][m..]| == k - m
    ensures m + size <= k ==>
              && bytes[..k][m..][..size] == bytes[m..][..size]
              && bytes[..k][m..][size..] == bytes[m..][size..][..k - m - size]
  {
  }

  lemma {:induction false} CutChunks(bytes: seq<byte>, k: nat, n: nat, blockSize: nat)
    requires ExpandChunks(bytes, n, blockSize).status.Fine? && k < |bytes| - |ExpandChunks(bytes, n, blockSize).rest|
    ensures var e := ExpandChunks(bytes[..k], n, blockSize);
            e.status == Truncated && e.out <= ExpandChunks(bytes, n, blockSize).out
    decreases n
  {
    if n > 0 && k >= CHUNK_HEADER_SIZE {
      var h, tail := bytes[..CHUNK_HEADER_SIZE], bytes[CHUNK_HEADER_SIZE..];
      var size := BodySize(ChunkType(h), ChunkBlocks(h), blockSize).value;
      CutSlices(bytes, CHUNK_HEADER_SIZE, size, k);
      if CHUNK_HEADER_SIZE + size <= k {
        CutChunks(tail[size..], k - CHUNK_HEADER_SIZE - size, n - 1, blockSize);
      }
    }
  }

  /**
   * Cut short anywhere before the end of its last chunk, an image is refused as truncated, and what was
   * written is the start of what the whole one writes.
   */
  lemma TruncationIsNoticed(image: seq<byte>, k: nat)
    requires Expand(image).status.Fine? && k < |image| - |Expand(image).rest|
    ensures var e := Expand(image[..k]); e.status == Truncated && e.out <= Expand(image).out
  {
    if k >= SPARSE_HEADER_SIZE {
      CutSlices(image, SPARSE_HEADER_SIZE, 0, k);
      var h, tail := image[..SPARSE_HEADER_SIZE], image[SPARSE_HEADER_SIZE..];
      assert image[..k][SPARSE_HEADER_SIZE..] == tail[..k - SPARSE_HEADER_SIZE];
      CutChunks(tail, k - SPARSE_HEADER_SIZE, TotalChunks(h), BlockSize(h));
    }
  }

  /** A file without the magic is none. */
  lemma ForeignFilesAreRefused(file: seq<byte>)
    requires |file| >= 28
    ensures Expand(file).status == NotSparse <==> file[..4] != [0x3A, 0xFF, 0x26, 0xED]
    ensures Expand(file).status == NotSparse ==> Expand(file).out == []
  {
    assert file[..28][0..4] == file[..4];
    Le32Inverts(file[..4]);
  }

  /**
   * A chunk of any other type ends the expansion behind the chunks before it: wherever `a` chunks leave one
   * to be read, expanding more than these stops there.
   */
  lemma StrangersAreRefused(
    bytes: seq<byte>, a: nat, out: seq<byte>, h: seq<byte>, rest: seq<byte>, n: nat, blockSize: nat)
    requires ExpandChunks(bytes, a, blockSize) == Expansion(Fine, out, h + rest) && n > a && |h| == 12
    requires ChunkType(h) != 0xCAC1 && ChunkType(h) != 0xCAC2 && ChunkType(h) != 0xCAC3 && ChunkType(h) != 0xCAC4
    ensures ExpandChunks(bytes, n, blockSize) == Expansion(UnknownChunk, out, rest)
  {
    StrangerFirst(h, rest, n - a, blockSize);
    ExpandOn(bytes, a, n - a, blockSize, out, h + rest, rest);
  }

  lemma ExpandOn(bytes: seq<byte>, a: nat, b: nat, blockSize: nat, out: seq<byte>, tail: seq<byte>, rest: seq<byte>)
    requires ExpandChunks(bytes, a, blockSize) == Expansion(Fine, out, tail)
    requires ExpandChunks(tail, b, blockSize) == Expansion(UnknownChunk, [], rest)
    ensures ExpandChunks(bytes, a + b, blockSize) == Expansion(UnknownChunk, out, rest)
  {
    ExpandInTwo(bytes, a, b, blockSize);
    assert out + [] == out;
  }

  lemma StrangerFirst(h: seq<byte>, rest: seq<byte>, n: nat, blockSize: nat)
    requires |h| == 12 && n > 0 && BodySize(ChunkType(h), ChunkBlocks(h), blockSize).None?
    ensures ExpandChunks(h + rest, n, blockSize) == Expansion(UnknownChunk, [], rest)
  {
    assert (h + rest)[..12] == h && (h + rest)[12..] == rest;
  }

  /** The first of two runs of chunks is expanded before the second. */
  lemma {:induction false} ExpandInTwo(bytes: seq<byte>, a: nat, b: nat, blockSize: nat)
    ensures var first := ExpandChunks(bytes, a, blockSize);
            ExpandChunks(bytes, a + b, blockSize) ==
              if first.status.Fine? then Emit(first.out, ExpandChunks(first.rest, b, blockSize)) else first
    decreases a
  {
    if a == 0 {
      assert [] + ExpandChunks(bytes, b, blockSize).out == ExpandChunks(bytes, b, blockSize).out;
    } else if |bytes| >= CHUNK_HEADER_SIZE {
      var h, tail := bytes[..CHUNK_HEADER_SIZE], bytes[CHUNK_HEADER_SIZE..];
      var body := BodySize(ChunkType(h), ChunkBlocks(h), blockSize);
      if body.Some? && body.value <= |tail| {
        ExpandInTwo(tail[body.value..], a - 1, b, blockSize);
        var out := Written(ChunkType(h), ChunkBlocks(h), blockSize, tail[..body.value]);
        var first := ExpandChunks(tail[body.value..], a - 1, blockSize);
        Assoc(out, first.out, ExpandChunks(first.rest, b, blockSize).out);
      }
    }
  }
}

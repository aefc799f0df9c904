/** Reading a partition back after a write and comparing it with the image. */
module VerifyWrite {
  import opened Bytes
  import opened Flash
  import opened Wrappers
  import M = ModInverse

  const VERIFY_CHUNK_SIZE: nat := 1048576
  const THRESHOLD: nat := 2097152

  type Digest = seq<byte> -> seq<byte>

  ghost predicate Injective(hash: Digest) {
    forall a, b :: hash(a) == hash(b) ==> a == b
  }

  /** Bytes in `n` sectors. */
  function Size(n: nat, sectorSize: nat): nat {
    n * sectorSize
  }

  /** Sectors that hold `size` bytes. */
  function SectorsFor(size: nat, sectorSize: nat): (n: nat)
    requires sectorSize > 0
    ensures size <= Size(n, sectorSize) < size + sectorSize
  {
    var n := (size + sectorSize - 1) / sectorSize;
    RoundedUp(size, sectorSize, n);
    n
  }

  lemma RoundedUp(size: nat, sectorSize: nat, n: nat)
    requires sectorSize > 0 && n == (size + sectorSize - 1) / sectorSize
    ensures size <= Size(n, sectorSize) < size + sectorSize
  {
    assert size + sectorSize - 1 == sectorSize * n + (size + sectorSize - 1) % sectorSize;
  }

  lemma SizeDifference(a: nat, b: nat, sectorSize: nat)
    requires b <= a
    ensures Size(b, sectorSize) <= Size(a, sectorSize)
    ensures Size(a - b, sectorSize) == Size(a, sectorSize) - Size(b, sectorSize)
  {
    assert a * sectorSize == (a - b) * sectorSize + b * sectorSize;
  }

  // ----- Windows -----

  /** What the device returns for `n` sectors, if it has them; the sector travels as 32 bits. */
  function ReadStorage(disk: seq<byte>, sectorSize: nat, sector: nat, n: nat): (r: Option<seq<byte>>)
    ensures r.Some? ==> |r.value| == Size(n, sectorSize)
  {
    SizeDifference(Low32(sector) + n, Low32(sector), sectorSize);
    var from, end := Size(Low32(sector), sectorSize), Size(Low32(sector) + n, sectorSize);
    if end > |disk| then None else Some(disk[from..end])
  }

  function Checked(total: nat): nat {
    Min(VERIFY_CHUNK_SIZE, total)
  }

  /** The windows of the image that are hashed: all of a small one, both ends of a large one. */
  function SourceHead(image: seq<byte>): seq<byte> {
    if |image| <= THRESHOLD then image else image[..VERIFY_CHUNK_SIZE]
  }

  function SourceTail(image: seq<byte>): seq<byte> {
    if |image| <= THRESHOLD then image else image[|image| - VERIFY_CHUNK_SIZE..]
  }

  datatype Verdict = Verdict(passed: bool, bytesChecked: nat)

  datatype Region = Region(sectorSize: nat, start: nat, sectors: nat)

  function Total(g: Region): nat {
    Size(g.sectors, g.sectorSize)
  }

  function HeadSectors(g: Region): (n: nat)
    requires g.sectorSize > 0
    ensures n <= g.sectors
  {
    var n := SectorsFor(Checked(Total(g)), g.sectorSize);
    if n > g.sectors then
      SizeDifference(n, g.sectors + 1, g.sectorSize);
      SizeDifference(g.sectors + 1, g.sectors, g.sectorSize);
      n
    else
      n
  }

  function TailStart(g: Region): nat
    requires g.sectorSize > 0
  {
    g.start + g.sectors - HeadSectors(g)
  }

  /** The start of what the device has from `sector` on. */
  function DeviceWindow(disk: seq<byte>, g: Region, sector: nat): (w: Option<seq<byte>>)
    requires g.sectorSize > 0
    ensures w.Some? ==> |w.value| == Checked(Total(g))
  {
    var r := ReadStorage(disk, g.sectorSize, sector, HeadSectors(g));
    if r.None? then None else Some(r.value[..Checked(Total(g))])
  }

  /** The part of an image file of `fileSize` bytes that belongs to the region. */
  function ImageSize(fileSize: nat, g: Region): nat {
    Min(fileSize, Total(g))
  }

  // ----- The check -----

  /** compute_file_hashes: reads the first `size` bytes of the file, or their two ends. */
  method ComputeFileHashes(source: seq<byte>, size: nat, hash: Digest) returns (r: Result<(seq<byte>, seq<byte>)>)
    ensures size <= |source| ==>
              r == Success((hash(SourceHead(source[..size])), hash(SourceTail(source[..size]))))
    ensures size <= |source| ==>
              r == Success(if size <= 2097152 then (hash(source[..size]), hash(source[..size]))
                           else (hash(source[..1048576]), hash(source[size - 1048576..size])))
    ensures size > |source| ==> r.Failure? && r.error.Protocol?
  {
    var file := new Cursor(source);
    if size <= THRESHOLD {
      var ok, all := file.ReadExact(size);
      if !ok {
        return Failure(Protocol("Failed to read file for hashing"));
      }
      assert all == source[..size];
      return Success((hash(all), hash(all)));
    }
    var ok, head := file.ReadExact(VERIFY_CHUNK_SIZE);
    if !ok {
      return Failure(Protocol("Failed to read file head"));
    }
    assert size <= |source| ==> head == source[..size][..VERIFY_CHUNK_SIZE] == source[..VERIFY_CHUNK_SIZE];
    file.Seek(size - VERIFY_CHUNK_SIZE);
    var more, tail := file.ReadExact(VERIFY_CHUNK_SIZE);
    if !more {
      return Failure(Protocol("Failed to read file tail"));
    }
    assert tail == source[..size][size - VERIFY_CHUNK_SIZE..] == source[size - VERIFY_CHUNK_SIZE..size];
    r := Success((hash(head), hash(tail)));
  }

  /**
   * Fails exactly when the file turns out shorter than it was said to be or the device cannot deliver a
   * window; otherwise passes exactly when the digests of the windows agree, at the head and, for more
   * than two chunks, at the tail.
   */
  method VerifyWrite(disk: seq<byte>, g: Region, source: seq<byte>, fileSize: nat, hash: Digest)
    returns (r: Result<Verdict>)
    requires g.sectorSize > 0
    ensures var head, tail := DeviceWindow(disk, g, g.start), DeviceWindow(disk, g, TailStart(g));
            var n, large := ImageSize(fileSize, g), Total(g) > THRESHOLD;
            && (r.Success? <==> n <= |source| && head.Some? && (large ==> tail.Some?))
            && (r.Failure? ==> r.error.Protocol?)
            && (r.Success? ==>
                  && (r.value.passed <==>
                        && hash(head.value) == hash(SourceHead(source[..n]))
                        && (large ==> hash(tail.value) == hash(SourceTail(source[..n]))))
                  && r.value.bytesChecked == if large then 2097152 else Min(1048576, Total(g)))
  {
    var total := Size(g.sectors, g.sectorSize);
    var checkSize := Min(VERIFY_CHUNK_SIZE, total);
    var hashSize := Min(fileSize, total);
    var hashes := ComputeFileHashes(source, hashSize, hash);
    if hashes.Failure? {
      return Failure(hashes.error);
    }
    var headSectors := HeadSectors(g);
    var head := ReadStorage(disk, g.sectorSize, g.start, headSectors);
    if head.None? {
      return Failure(Protocol("Verify read (head) failed"));
    }
    var headOk := hash(head.value[..checkSize]) == hashes.value.0;
    if total <= THRESHOLD {
      return Success(Verdict(headOk, checkSize));
    }
    var tail := ReadStorage(disk, g.sectorSize, g.start + g.sectors - headSectors, headSectors);
    if tail.None? {
      return Failure(Protocol("Verify read (tail) failed"));
    }
    var tailOk := hash(tail.value[..checkSize]) == hashes.value.1;
    r := Success(Verdict(headOk && tailOk, checkSize * 2));
  }

  // ----- What passing means -----

  function Image(source: seq<byte>, g: Region): seq<byte> {
    source[..ImageSize(|source|, g)]
  }

  /** The windows agree. */
  predicate Passes(disk: seq<byte>, g: Region, source: seq<byte>)
    requires g.sectorSize > 0
  {
    var head, tail := DeviceWindow(disk, g, g.start), DeviceWindow(disk, g, TailStart(g));
    && head == Some(SourceHead(Image(source, g)))
    && (Total(g) > THRESHOLD ==> tail == Some(SourceTail(Image(source, g))))
  }

  /** With a hash without collisions the check passes exactly when the windows agree. */
  method PassesVerification(disk: seq<byte>, g: Region, source: seq<byte>, hash: Digest) returns (passed: bool)
    requires g.sectorSize > 0 && Injective(hash)
    ensures passed <==> Passes(disk, g, source)
  {
    var r := VerifyWrite(disk, g, source, |source|, hash);
    passed := r.Success? && r.value.passed;
  }

  /** The region lies on the device, and 32 bits hold the sectors at which its windows start. */
  predicate OnDevice(disk: seq<byte>, g: Region) {
    && g.sectorSize > 0 && Size(g.start + g.sectors, g.sectorSize) <= |disk|
    && (g.sectors > 0 ==> g.start < 0x1_0000_0000)
    && (Total(g) > THRESHOLD ==> TailStart(g) < 0x1_0000_0000)
  }

  function Content(disk: seq<byte>, g: Region): (c: seq<byte>)
    requires OnDevice(disk, g)
    ensures |c| == Total(g)
  {
    SizeDifference(g.start + g.sectors, g.start, g.sectorSize);
    disk[Size(g.start, g.sectorSize)..Size(g.start + g.sectors, g.sectorSize)]
  }

  lemma Nested(disk: seq<byte>, from: nat, end: nat, start: nat, stop: nat, k: nat)
    requires start <= from && from + k <= end <= stop <= |disk|
    ensures disk[from..end][..k] == disk[start..stop][from - start..from - start + k]
  {
    var outer, skip := disk[start..stop], from - start;
    forall i | 0 <= i < k ensures disk[from..end][..k][i] == outer[skip..skip + k][i] {
      assert outer[skip + i] == disk[from + i];
    }
  }

  /** A window inside the region is what the region holds there. */
  lemma WindowAt(disk: seq<byte>, g: Region, skip: nat)
    requires OnDevice(disk, g) && skip + HeadSectors(g) <= g.sectors
    requires HeadSectors(g) > 0 ==> g.start + skip < 0x1_0000_0000
    ensures var at, k := Size(skip, g.sectorSize), Checked(Total(g));
            at + k <= Total(g) && DeviceWindow(disk, g, g.start + skip) == Some(Content(disk, g)[at..at + k])
  {
    var n, ss, sector := HeadSectors(g), g.sectorSize, g.start + skip;
    var stop := g.start + g.sectors;
    SizeDifference(stop, sector + n, ss);
    SizeDifference(stop, g.start, ss);
    SizeDifference(sector, g.start, ss);
    SizeDifference(sector + n, sector, ss);
    if n > 0 {
      assert ReadStorage(disk, ss, sector, n) == Some(disk[Size(sector, ss)..Size(sector + n, ss)]);
      Nested(disk, Size(sector, ss), Size(sector + n, ss), Size(g.start, ss), Size(stop, ss), Checked(Total(g)));
    } else {
      NoSectors(disk, ss, sector);
    }
  }

  lemma NoSectors(disk: seq<byte>, sectorSize: nat, sector: nat)
    requires Size(sector, sectorSize) <= |disk|
    ensures ReadStorage(disk, sectorSize, sector, 0) == Some([])
  {
    LowIsSmall(sector);
    SizeDifference(sector, Low32(sector), sectorSize);
  }

  lemma LowIsSmall(n: nat)
    ensures Low32(n) <= n
  {
  }

  lemma HeadWindow(disk: seq<byte>, g: Region)
    requires OnDevice(disk, g)
    ensures DeviceWindow(disk, g, g.start) == Some(Content(disk, g)[..Checked(Total(g))])
  {
    WindowAt(disk, g, 0);
    assert Size(0, g.sectorSize) == 0;
  }

  /** Where the tail window starts in the region: at the last chunk exactly when sectors divide the chunk. */
  lemma TailOffset(g: Region)
    requires g.sectorSize > 0 && Total(g) > THRESHOLD
    ensures Size(g.sectors - HeadSectors(g), g.sectorSize) <= Total(g) - VERIFY_CHUNK_SIZE
    ensures Size(g.sectors - HeadSectors(g), g.sectorSize) == Total(g) - VERIFY_CHUNK_SIZE <==>
              VERIFY_CHUNK_SIZE % g.sectorSize == 0
  {
    var n, ss := HeadSectors(g), g.sectorSize;
    SizeDifference(g.sectors, n, ss);
    WholeSectors(VERIFY_CHUNK_SIZE, ss, n);
  }

  lemma WholeSectors(size: nat, sectorSize: nat, n: nat)
    requires sectorSize > 0 && size <= Size(n, sectorSize) < size + sectorSize
    ensures Size(n, sectorSize) == size <==> size % sectorSize == 0
  {
    if size % sectorSize == 0 {
      assert size == sectorSize * (size / sectorSize);
      Between(n, size / sectorSize, sectorSize);
    } else if Size(n, sectorSize) == size {
      M.ModUnique(size, n, 0, sectorSize);
      assert false;
    }
  }

  lemma Between(n: nat, q: nat, s: nat)
    requires q * s <= n * s < q * s + s
    ensures n == q
  {
    assert (n - q) * s == n * s - q * s;
    assert n - q >= 1 ==> (n - q) * s >= s;
    assert n - q <= -1 ==> (n - q) * s <= -(s as int);
  }

  lemma TailWindow(disk: seq<byte>, g: Region)
    requires OnDevice(disk, g) && Total(g) > THRESHOLD && VERIFY_CHUNK_SIZE % g.sectorSize == 0
    ensures DeviceWindow(disk, g, TailStart(g)) == Some(Content(disk, g)[Total(g) - VERIFY_CHUNK_SIZE..])
  {
    TailOffset(g);
    var skip := g.sectors - HeadSectors(g);
    WindowAt(disk, g, skip);
    var c, at := Content(disk, g), Size(skip, g.sectorSize);
    assert TailStart(g) == g.start + skip && at + Checked(Total(g)) == |c|;
    assert c[at..|c|] == c[at..];
  }

  /**
   * What the check compares: all of a partition of at most one chunk; of one of up to two chunks only its
   * first, against the whole image; and both ends of a larger one, against both ends of the image.
   */
  predicate Confirms(content: seq<byte>, image: seq<byte>) {
    if |content| <= 1048576 then content == image
    else if |content| <= 2097152 then content[..1048576] == image
    else
      && (|image| == 1048576 || |image| > 2097152)
      && content[..1048576] == image[..1048576]
      && content[|content| - 1048576..] == image[|image| - 1048576..]
  }

  /**
   * Exactly when the check passes, for images of every size and sectors that divide the chunk.  The end
   * of an image shorter than a large partition is compared with the end of the partition, not with the
   * place it was written to.
   */
  lemma PassesExactly(disk: seq<byte>, g: Region, source: seq<byte>)
    requires OnDevice(disk, g) && VERIFY_CHUNK_SIZE % g.sectorSize == 0
    ensures Passes(disk, g, source) <==> Confirms(Content(disk, g), Image(source, g))
  {
    if Total(g) > THRESHOLD {
      LargePasses(disk, g, source);
      EndsMatch(Content(disk, g), Image(source, g));
    } else {
      SmallPasses(disk, g, source);
      HeadMatches(Content(disk, g), Image(source, g));
    }
  }

  lemma LargePasses(disk: seq<byte>, g: Region, source: seq<byte>)
    requires OnDevice(disk, g) && Total(g) > THRESHOLD && VERIFY_CHUNK_SIZE % g.sectorSize == 0
    ensures var c, image := Content(disk, g), Image(source, g);
            Passes(disk, g, source) <==>
              c[..VERIFY_CHUNK_SIZE] == SourceHead(image) && c[|c| - VERIFY_CHUNK_SIZE..] == SourceTail(image)
  {
    HeadWindow(disk, g);
    TailWindow(disk, g);
  }

  lemma SmallPasses(disk: seq<byte>, g: Region, source: seq<byte>)
    requires OnDevice(disk, g) && Total(g) <= THRESHOLD
    ensures var c := Content(disk, g);
            Passes(disk, g, source) <==> c[..Checked(|c|)] == SourceHead(Image(source, g))
  {
    HeadWindow(disk, g);
  }

  lemma EndsMatch(content: seq<byte>, image: seq<byte>)
    requires |content| > THRESHOLD
    ensures Confirms(content, image) <==>
              && content[..VERIFY_CHUNK_SIZE] == SourceHead(image)
              && content[|content| - VERIFY_CHUNK_SIZE..] == SourceTail(image)
  {
    if |image| <= THRESHOLD {
      if |image| == VERIFY_CHUNK_SIZE {
        assert image[..VERIFY_CHUNK_SIZE] == image && image[0..] == image;
      } else {
        assert |content[..VERIFY_CHUNK_SIZE]| != |image|;
      }
    }
  }

  lemma HeadMatches(content: seq<byte>, image: seq<byte>)
    requires |image| <= |content| <= THRESHOLD
    ensures Confirms(content, image) <==> content[..Checked(|content|)] == SourceHead(image)
  {
    assert |content| <= VERIFY_CHUNK_SIZE ==> content[..|content|] == content;
  }

  /**
   * For an image that fills the partition: the first and the last chunk of the partition must be those of
   * the image; but a partition of more than one and at most two chunks never passes.
   */
  lemma FullImage(disk: seq<byte>, g: Region, source: seq<byte>)
    requires OnDevice(disk, g) && VERIFY_CHUNK_SIZE % g.sectorSize == 0
    requires |source| >= Total(g)
    ensures var content, image := Content(disk, g), source[..Total(g)];
            Passes(disk, g, source) <==>
              || (Total(g) <= VERIFY_CHUNK_SIZE && content == image)
              || (&& Total(g) > THRESHOLD
                  && content[..VERIFY_CHUNK_SIZE] == image[..VERIFY_CHUNK_SIZE]
                  && content[Total(g) - VERIFY_CHUNK_SIZE..] == image[Total(g) - VERIFY_CHUNK_SIZE..])
  {
    PassesExactly(disk, g, source);
    var content := Content(disk, g);
    assert Total(g) > VERIFY_CHUNK_SIZE ==> |content[..VERIFY_CHUNK_SIZE]| != |Image(source, g)|;
  }

  /** A perfect write passes exactly outside that gap. */
  lemma PerfectWrite(disk: seq<byte>, g: Region, source: seq<byte>)
    requires OnDevice(disk, g) && VERIFY_CHUNK_SIZE % g.sectorSize == 0
    requires |source| >= Total(g) && Content(disk, g) == source[..Total(g)]
    ensures Passes(disk, g, source) <==> Total(g) <= 1048576 || Total(g) > 2097152
  {
    FullImage(disk, g, source);
  }

  /**
   * A perfectly written image that is shorter than its partition: passes exactly if it has one chunk, or
   * more than two, in a larger partition whose last chunk happens to equal the image's.
   */
  lemma ShortImage(disk: seq<byte>, g: Region, source: seq<byte>)
    requires OnDevice(disk, g) && VERIFY_CHUNK_SIZE % g.sectorSize == 0
    requires |source| < Total(g) && source == Content(disk, g)[..|source|]
    ensures Passes(disk, g, source) <==>
              && (|source| == VERIFY_CHUNK_SIZE || (|source| > THRESHOLD && Total(g) > THRESHOLD))
              && (Total(g) > THRESHOLD ==>
                    Content(disk, g)[Total(g) - VERIFY_CHUNK_SIZE..] == source[|source| - VERIFY_CHUNK_SIZE..])
  {
    PassesExactly(disk, g, source);
    var content := Content(disk, g);
    assert Image(source, g) == source;
    assert |source| >= VERIFY_CHUNK_SIZE ==> content[..|source|][..VERIFY_CHUNK_SIZE] == content[..VERIFY_CHUNK_SIZE];
    assert Total(g) > VERIFY_CHUNK_SIZE && |source| != VERIFY_CHUNK_SIZE ==> |content[..VERIFY_CHUNK_SIZE]| != |source|;
  }

  lemma LowWraps(n: nat)
    ensures Low32(n + 0x1_0000_0000) == Low32(n)
  {
  }

  lemma WindowWraps(disk: seq<byte>, g: Region, far: Region, sector: nat)
    requires g.sectorSize > 0 && far == g.(start := g.start + 0x1_0000_0000)
    ensures DeviceWindow(disk, far, sector + 0x1_0000_0000) == DeviceWindow(disk, g, sector)
  {
    LowWraps(sector);
    assert HeadSectors(far) == HeadSectors(g) && Total(far) == Total(g);
  }

  /** Sectors beyond 32 bits are read as if the region began 2^32 sectors earlier. */
  lemma SectorsWrap(disk: seq<byte>, g: Region, source: seq<byte>)
    requires g.sectorSize > 0
    ensures Passes(disk, g.(start := g.start + 0x1_0000_0000), source) <==> Passes(disk, g, source)
  {
    var far := g.(start := g.start + 0x1_0000_0000);
    WindowWraps(disk, g, far, g.start);
    WindowWraps(disk, g, far, TailStart(g));
    assert TailStart(far) == TailStart(g) + 0x1_0000_0000;
  }
}

/** Results of the flashing commands, and the local files they read and write. */
module Flash {
  import opened Bytes
  import opened Wrappers

  datatype FlashError = DeviceDisconnected | Protocol(why: string) | Validation(why: string) | Io

  datatype Result<+T> = Success(value: T) | Failure(error: FlashError)

  // ----- Reading a file in pieces -----

  /**
   * What one read of at most `max` bytes yields, if it works; nothing at the end of the file.  How many
   * bytes it is is up to the system: `sizes` is a script of that, with zero for a failing read.
   */
  function NextPiece(rest: seq<byte>, sizes: seq<nat>, max: nat): (p: Option<seq<byte>>)
    requires max > 0
    ensures p.Some? ==> p.value <= rest && |p.value| <= max && (p.value == [] <==> rest == [])
  {
    var size := if sizes == [] then max else sizes[0];
    if size == 0 then None else Some(rest[..Min(Min(size, max), |rest|)])
  }

  /** The pieces a file comes in, and whether it was read to its end. */
  datatype Reading = Reading(pieces: seq<seq<byte>>, whole: bool)

  function ReadAll(rest: seq<byte>, sizes: seq<nat>, max: nat): Reading
    requires max > 0
    decreases |rest|
  {
    var p := NextPiece(rest, sizes, max);
    if p.None? then Reading([], false)
    else if p.value == [] then Reading([], true)
    else
      var more := ReadAll(rest[|p.value|..], Tail(sizes), max);
      more.(pieces := [p.value] + more.pieces)
  }

  /** The pieces cut the start of the file, or all of it. */
  lemma {:induction false} ReadingCuts(rest: seq<byte>, sizes: seq<nat>, max: nat)
    requires max > 0
    ensures var r := ReadAll(rest, sizes, max);
            && Concat(r.pieces) <= rest
            && (forall p <- r.pieces :: 0 < |p| <= max)
            && (r.whole ==> Concat(r.pieces) == rest)
    decreases |rest|
  {
    var p := NextPiece(rest, sizes, max);
    if p.Some? && p.value != [] {
      ReadingCuts(rest[|p.value|..], Tail(sizes), max);
      assert rest == p.value + rest[|p.value|..];
      assert ReadAll(rest, sizes, max).pieces[1..] == ReadAll(rest[|p.value|..], Tail(sizes), max).pieces;
    }
  }

  function Lengths(pieces: seq<seq<byte>>): seq<nat> {
    if pieces == [] then [] else [|pieces[0]|] + Lengths(pieces[1..])
  }

  /** Every cutting of a file into pieces that fit is one it can come in. */
  lemma {:induction false} EveryCuttingComes(pieces: seq<seq<byte>>, max: nat)
    requires max > 0 && forall p <- pieces :: 0 < |p| <= max
    ensures ReadAll(Concat(pieces), Lengths(pieces), max) == Reading(pieces, true)
  {
    if pieces != [] {
      var rest := Concat(pieces);
      assert pieces[0] in pieces && rest[..|pieces[0]|] == pieces[0] && rest[|pieces[0]|..] == Concat(pieces[1..]);
      EveryCuttingComes(pieces[1..], max);
      assert Lengths(pieces)[1..] == Lengths(pieces[1..]);
      assert [pieces[0]] + pieces[1..] == pieces;
    }
  }

  /** None of the first `n` reads fails. */
  predicate NoFault(sizes: seq<nat>, n: nat) {
    forall i :: 0 <= i < n && i < |sizes| ==> sizes[i] != 0
  }

  lemma NoFaultStep(sizes: seq<nat>, n: nat)
    requires n > 0
    ensures NoFault(sizes, n) <==> (sizes == [] || sizes[0] != 0) && NoFault(Tail(sizes), n - 1)
  {
    if NoFault(sizes, n) && sizes != [] {
      assert forall i :: 0 <= i < n - 1 && i < |Tail(sizes)| ==> Tail(sizes)[i] == sizes[i + 1];
    }
    if NoFault(Tail(sizes), n - 1) && sizes != [] {
      assert forall i :: 0 < i < n && i < |sizes| ==> sizes[i] == Tail(sizes)[i - 1];
    }
  }

  /** A file is read to its end exactly if none of the reads that takes, with the one that finds the end, fails. */
  lemma {:induction false} WholeUnlessFault(rest: seq<byte>, sizes: seq<nat>, max: nat)
    requires max > 0
    ensures var r := ReadAll(rest, sizes, max); r.whole <==> NoFault(sizes, |r.pieces| + 1)
    decreases |rest|
  {
    NoFaultStep(sizes, |ReadAll(rest, sizes, max).pieces| + 1);
    var p := NextPiece(rest, sizes, max);
    if p.Some? && p.value != [] {
      WholeUnlessFault(rest[|p.value|..], Tail(sizes), max);
    }
  }

  /** `chunks` of all that is to be read have been read, and `rest` is still ahead. */
  predicate ReadSoFar(all: Reading, chunks: seq<seq<byte>>, rest: Reading) {
    all == Reading(chunks + rest.pieces, rest.whole)
  }

  lemma ReadOneMore(all: Reading, chunks: seq<seq<byte>>, c: seq<byte>, rest: Reading)
    requires ReadSoFar(all, chunks, rest.(pieces := [c] + rest.pieces))
    ensures ReadSoFar(all, chunks + [c], rest)
  {
    Assoc(chunks, [c], rest.pieces);
  }

  /** A local file open for reading. */
  class Source {
    const content: seq<byte>
    var pos: nat
    var sizes: seq<nat>

    ghost predicate Valid()
      reads this
    {
      pos <= |content|
    }

    ghost function Ahead(max: nat): Reading
      requires Valid() && max > 0
      reads this
    {
      ReadAll(content[pos..], sizes, max)
    }

    constructor (content: seq<byte>, sizes: seq<nat>)
      ensures Valid() && this.content == content && pos == 0 && this.sizes == sizes
    {
      this.content, this.pos, this.sizes := content, 0, sizes;
    }

    /** The next piece of the file, at most `max` bytes; empty exactly at the end. */
    method Read(max: nat) returns (ok: bool, piece: seq<byte>)
      requires Valid() && max > 0
      modifies this
      ensures Valid() && |piece| <= max
      ensures pos == old(pos) + |piece| && piece == content[old(pos)..pos]
      ensures ok && piece == [] ==> pos == |content|
      ensures !ok ==> piece == []
      ensures !ok ==> old(Ahead(max)) == Reading([], false)
      ensures ok && piece == [] ==> old(Ahead(max)) == Reading([], true)
      ensures ok && piece != [] ==> old(Ahead(max)) == Ahead(max).(pieces := [piece] + Ahead(max).pieces)
    {
      ghost var rest := content[pos..];
      var size := if sizes == [] then max else sizes[0];
      sizes := Tail(sizes);
      if size == 0 {
        return false, [];
      }
      var n := Min(Min(size, max), |content| - pos);
      ok, piece := true, content[pos..pos + n];
      assert rest[..n] == piece && rest[n..] == content[pos + n..];
      pos := pos + n;
    }
  }

  /** A local file open for writing on a medium with `room` bytes left. */
  class Sink {
    var written: seq<byte>
    var room: nat

    constructor (room: nat)
      ensures written == [] && this.room == room
    {
      written, this.room := [], room;
    }

    method WriteAll(data: seq<byte>) returns (ok: bool)
      modifies this
      ensures ok == (|data| <= old(room))
      ensures ok ==> written == old(written) + data && room == old(room) - |data|
      ensures !ok ==> written == old(written) + data[..old(room)] && room == 0
    {
      ok := |data| <= room;
      var n := Min(|data|, room);
      written, room := written + data[..n], room - n;
    }
  }

  /** A local file open for seeking and reading. */
  class Cursor {
    const data: seq<byte>
    var pos: nat

    constructor (data: seq<byte>)
      ensures this.data == data && pos == 0
    {
      this.data, this.pos := data, 0;
    }

    method Seek(to: nat)
      modifies this
      ensures pos == to
    {
      pos := to;
    }

    /** All `n` bytes from the cursor on, or a failure if the file ends before. */
    method ReadExact(n: nat) returns (ok: bool, piece: seq<byte>)
      modifies this
      ensures ok == (n == 0 || old(pos) + n <= |data|)
      ensures ok ==> pos == old(pos) + n && |piece| == n && (n > 0 ==> piece == data[old(pos)..pos])
      ensures !ok ==> piece == []
    {
      if n == 0 {
        return true, [];
      }
      ok := pos + n <= |data|;
      piece := [];
      if ok {
        piece := data[pos..pos + n];
        pos := pos + n;
      }
    }
  }

  /** The last component of a path that can name a file. */
  predicate NamesFile(name: string) {
    name !in {"", ".", ".."}
  }

  /** The first of these operations works. */
  predicate Healthy(faults: seq<bool>) {
    faults == [] || !faults[0]
  }

  /** The directory a file is downloaded into; `faults` says which operations on names fail. */
  class Directory {
    var files: map<string, seq<byte>>
    var room: nat
    var faults: seq<bool>

    constructor (files: map<string, seq<byte>>, room: nat, faults: seq<bool>)
      ensures this.files == files && this.room == room && this.faults == faults
    {
      this.files, this.room, this.faults := files, room, faults;
    }

    /** Whether the next operation works. */
    method Works() returns (ok: bool)
      modifies this`faults
      ensures ok == Healthy(old(faults)) && faults == Tail(old(faults))
    {
      ok := Healthy(faults);
      faults := Tail(faults);
    }

    /** Fails for a name that names no file. */
    method Create(name: string) returns (ok: bool)
      modifies this
      ensures ok == (Healthy(old(faults)) && NamesFile(name))
      ensures files == (if ok then old(files)[name := []] else old(files)) && room == old(room)
      ensures faults == Tail(old(faults))
    {
      ok := Works();
      ok := ok && NamesFile(name);
      if ok {
        files := files[name := []];
      }
    }

    /** Appends to an open file; works exactly when there is room, and may leave part of the data behind else. */
    method Append(name: string, data: seq<byte>) returns (ok: bool)
      requires name in files
      modifies this`files, this`room
      ensures ok == (|data| <= old(room))
      ensures files.Keys == old(files).Keys && forall k <- files :: k != name ==> files[k] == old(files)[k]
      ensures ok ==> files == old(files)[name := old(files)[name] + data] && room == old(room) - |data|
    {
      ok := |data| <= room;
      var n := Min(|data|, room);
      assert ok ==> data[..n] == data;
      files, room := files[name := files[name] + data[..n]], room - n;
    }

    method Rename(from: string, to: string) returns (ok: bool)
      requires from in files && from != to
      modifies this
      ensures ok == Healthy(old(faults)) && faults == Tail(old(faults))
      ensures files == if ok then (old(files) - {from})[to := old(files)[from]] else old(files)
    {
      ok := Works();
      if ok {
        files := (files - {from})[to := files[from]];
      }
    }

    method Remove(name: string) returns (ok: bool)
      modifies this
      ensures ok == Healthy(old(faults)) && faults == Tail(old(faults))
      ensures files == if ok then old(files) - {name} else old(files)
    {
      ok := Works();
      if ok {
        files := files - {name};
      }
    }
  }
}

/** The binary logcat stream: entries, and the parser that reassembles them from chunks. */
module Logcat {
  import opened Bytes

  const MAX_BUF_SIZE: nat := 1024 * 1024

  datatype LogPriority = Verbose | Debug | Info | Warn | Error | Fatal

  /** Text is kept as bytes. */
  datatype LogcatEntry = LogcatEntry(
    pid: u32, tid: u32, sec: u32, nsec: u32, priority: LogPriority, tag: seq<byte>, message: seq<byte>)

  /** An unknown priority byte counts as verbose. */
  function PriorityOf(b: byte): LogPriority {
    if b == 3 then Debug else if b == 4 then Info else if b == 5 then Warn
    else if b == 6 then Error else if b == 7 then Fatal else Verbose
  }

  /** Priorities are numbered from 2 on, and any other number is taken for the lowest. */
  lemma PrioritiesInOrder(b: byte)
    ensures PriorityOf(b) == if 2 <= b < 8 then [Verbose, Debug, Info, Warn, Error, Fatal][b - 2] else Verbose
  {
  }

  function PriorityByte(p: LogPriority): byte {
    match p
    case Verbose => 2
    case Debug => 3
    case Info => 4
    case Warn => 5
    case Error => 6
    case Fatal => 7
  }

  // ----- One entry -----

  /** Index of the first NUL at or after `from`, or the length if there is none. */
  function FindNul(s: seq<byte>, from: nat): (i: nat)
    requires from <= |s|
    ensures from <= i <= |s| && (i < |s| ==> s[i] == 0) && 0 !in s[from..i]
    decreases |s| - from
  {
    if from == |s| || s[from] == 0 then from else FindNul(s, from + 1)
  }

  function PayloadLen(buf: seq<byte>): u16
    requires |buf| >= 4
  {
    FromLe16(buf[0..2])
  }

  function HeaderSize(buf: seq<byte>): u16
    requires |buf| >= 4
  {
    FromLe16(buf[2..4])
  }

  function Word(buf: seq<byte>, at: nat): u32
    requires at + 4 <= |buf|
  {
    FromLe32(buf[at..at + 4])
  }

  predicate GoodHeaderSize(n: nat) { 20 <= n <= 64 }

  /** The entry of a header and a payload of at least one byte. */
  function ParseEntry(header: seq<byte>, payload: seq<byte>): LogcatEntry
    requires |header| >= 20 && |payload| >= 1
  {
    var tagEnd := FindNul(payload, 1);
    var msgStart := if tagEnd < |payload| then tagEnd + 1 else |payload|;
    var msgEnd := FindNul(payload, msgStart);
    LogcatEntry(Word(header, 4), Word(header, 8), Word(header, 12), Word(header, 16),
                PriorityOf(payload[0]), payload[1..tagEnd], payload[msgStart..msgEnd])
  }

  // ----- One pass over a buffer -----

  /** Why a pass stops: more data needed, a bad header size, or an entry without payload, on which the parser panics. */
  datatype Stop = NeedMore | BadHeader | EmptyPayload

  datatype Pass = Pass(entries: seq<LogcatEntry>, rest: seq<byte>, stop: Stop)

  function Push(e: LogcatEntry, p: Pass): Pass {
    p.(entries := [e] + p.entries)
  }

  /** The first entry of a buffer, the rest behind it, or the reason there is none. */
  datatype Head = Entry(e: LogcatEntry, size: nat) | None(stop: Stop)

  function FirstEntry(buf: seq<byte>): (h: Head)
    ensures h.Entry? ==> 20 <= h.size <= |buf|
  {
    if |buf| < 4 then None(NeedMore)
    else
      var headerSize: nat := HeaderSize(buf);
      if !GoodHeaderSize(headerSize) then None(BadHeader)
      else
        var total: nat := headerSize + PayloadLen(buf) as nat;
        if |buf| < total then None(NeedMore)
        else if PayloadLen(buf) == 0 then None(EmptyPayload)
        else Entry(ParseEntry(buf[..headerSize], buf[headerSize..total]), total)
  }

  /** All complete entries; a bad header drops everything behind it. */
  function ParseAll(buf: seq<byte>): Pass
    decreases |buf|
  {
    var h := FirstEntry(buf);
    if h.Entry? then Push(h.e, ParseAll(buf[h.size..]))
    else Pass([], if h.stop == BadHeader then [] else buf, h.stop)
  }

  /** What waits for more data is shorter than the largest entry. */
  lemma {:induction false} LeftoverIsShort(buf: seq<byte>)
    ensures ParseAll(buf).stop == NeedMore ==> |ParseAll(buf).rest| <= 65598
    decreases |buf|
  {
    var h := FirstEntry(buf);
    if h.Entry? {
      LeftoverIsShort(buf[h.size..]);
    }
  }

  // ----- Incrementality -----

  lemma EntryOfPrefix(a: seq<byte>, b: seq<byte>)
    ensures !(FirstEntry(a).None? && FirstEntry(a).stop == NeedMore) ==> FirstEntry(a + b) == FirstEntry(a)
  {
    if |a| >= 4 {
      assert (a + b)[0..2] == a[0..2] && (a + b)[2..4] == a[2..4];
      var headerSize: nat := HeaderSize(a);
      var total: nat := headerSize + PayloadLen(a) as nat;
      if |a| >= total {
        assert (a + b)[..headerSize] == a[..headerSize] && (a + b)[headerSize..total] == a[headerSize..total];
      }
    }
  }

  /** Parsing a prefix first and the leftover with the rest later is parsing the whole. */
  lemma {:induction false} ParseIncrementally(a: seq<byte>, b: seq<byte>)
    ensures ParseAll(a).stop == NeedMore ==>
              var p, q := ParseAll(a), ParseAll(ParseAll(a).rest + b);
              ParseAll(a + b) == Pass(p.entries + q.entries, q.rest, q.stop)
    ensures ParseAll(a).stop != NeedMore ==>
              ParseAll(a + b).stop == ParseAll(a).stop && ParseAll(a + b).entries == ParseAll(a).entries
    decreases |a|
  {
    var h := FirstEntry(a);
    EntryOfPrefix(a, b);
    if h.Entry? {
      assert (a + b)[h.size..] == a[h.size..] + b;
      ParseIncrementally(a[h.size..], b);
      var p := ParseAll(a[h.size..]);
      if p.stop == NeedMore {
        Assoc([h.e], p.entries, ParseAll(p.rest + b).entries);
      }
    } else if h.stop == NeedMore {
      assert [] + ParseAll(a + b).entries == ParseAll(a + b).entries;
    }
  }

  // ----- feed -----

  datatype FeedResult = Entries(es: seq<LogcatEntry>) | Panicked

  /** One call: the entries it returns and the buffer it leaves. */
  function FeedOnce(buf: seq<byte>, data: seq<byte>): (FeedResult, seq<byte>) {
    var all := buf + data;
    if |all| > MAX_BUF_SIZE then (Entries([]), [])
    else
      var p := ParseAll(all);
      (if p.stop == EmptyPayload then Panicked else Entries(p.entries), p.rest)
  }

  /** The entries of successive calls, concatenated, and the final buffer. */
  function FeedAll(buf: seq<byte>, chunks: seq<seq<byte>>): (FeedResult, seq<byte>)
    decreases |chunks|
  {
    if chunks == [] then (Entries([]), buf)
    else
      var (r, buf1) := FeedOnce(buf, chunks[0]);
      if r.Panicked? then (Panicked, buf1)
      else
        var (rest, buf2) := FeedAll(buf1, chunks[1..]);
        (if rest.Panicked? then Panicked else Entries(r.es + rest.es), buf2)
  }

  /** Four bytes are enough to tell a bad header, and no fewer tell anything. */
  lemma FourBytesTell(buf: seq<byte>)
    ensures |buf| < 4 ==> ParseAll(buf) == Pass([], buf, NeedMore)
    ensures |buf| >= 4 && (FromLe16(buf[2..4]) < 20 || FromLe16(buf[2..4]) > 64) ==>
              ParseAll(buf) == Pass([], [], BadHeader)
    ensures |buf| >= 4 && 20 <= FromLe16(buf[2..4]) <= 64 ==> ParseAll(buf).stop != BadHeader || ParseAll(buf).entries != []
  {
  }

  /**
   * More than a mebibyte in the buffer empties it, whatever is in it: the call returns nothing, and those
   * behind it return what they would to a new parser.
   */
  lemma OverflowStartsOver(buf: seq<byte>, data: seq<byte>, chunks: seq<seq<byte>>)
    ensures |buf| + |data| > 1048576 ==>
              FeedOnce(buf, data) == (Entries([]), []) && FeedAll(buf, [data] + chunks) == FeedAll([], chunks)
    ensures |buf| + |data| <= 1048576 && ParseAll(buf + data).stop != EmptyPayload ==>
              FeedOnce(buf, data) == (Entries(ParseAll(buf + data).entries), ParseAll(buf + data).rest)
  {
    assert ([data] + chunks)[1..] == chunks;
    if |buf| + |data| > 1048576 && FeedAll([], chunks).0.Entries? {
      assert [] + FeedAll([], chunks).0.es == FeedAll([], chunks).0.es;
    }
  }

  const SAFE_CHUNK: nat := MAX_BUF_SIZE - 65598

  /** A stream in which one pass meets neither a bad header nor an entry without payload. */
  predicate WellFormed(stream: seq<byte>) {
    ParseAll(stream).stop == NeedMore
  }

  lemma FeedSafely(buf: seq<byte>, c: seq<byte>)
    requires ParseAll(buf) == Pass([], buf, NeedMore) && |c| <= SAFE_CHUNK && WellFormed(buf + c)
    ensures var p := ParseAll(buf + c);
            FeedOnce(buf, c) == (Entries(p.entries), p.rest) && ParseAll(p.rest) == Pass([], p.rest, NeedMore)
  {
    LeftoverIsShort(buf);
    ParseRest(buf + c);
  }

  lemma {:induction false} FeedFrom(buf: seq<byte>, chunks: seq<seq<byte>>)
    requires WellFormed(buf + Concat(chunks)) && ParseAll(buf) == Pass([], buf, NeedMore)
    requires forall c <- chunks :: |c| <= SAFE_CHUNK
    ensures var whole := ParseAll(buf + Concat(chunks));
            FeedAll(buf, chunks) == (Entries(whole.entries), whole.rest)
    decreases |chunks|
  {
    if chunks == [] {
      assert buf + Concat(chunks) == buf;
    } else {
      var c, more := chunks[0], Concat(chunks[1..]);
      assert c in chunks;
      Assoc(buf, c, more);
      ParseIncrementally(buf + c, more);
      FeedSafely(buf, c);
      FeedFrom(ParseAll(buf + c).rest, chunks[1..]);
    }
  }

  /** What a pass leaves holds no further entry. */
  lemma {:induction false} ParseRest(buf: seq<byte>)
    ensures ParseAll(buf).stop == NeedMore ==> ParseAll(ParseAll(buf).rest) == Pass([], ParseAll(buf).rest, NeedMore)
    decreases |buf|
  {
    var h := FirstEntry(buf);
    if h.Entry? {
      ParseRest(buf[h.size..]);
    }
  }

  /**
   * Chunk independence: for every well-formed stream and every way of cutting it into chunks that
   * cannot overflow the buffer, the calls of feed together return what one pass over the stream finds.
   */
  lemma ChunkIndependence(chunks: seq<seq<byte>>)
    requires WellFormed(Concat(chunks)) && forall c <- chunks :: |c| <= SAFE_CHUNK
    ensures var whole := ParseAll(Concat(chunks));
            FeedAll([], chunks) == (Entries(whole.entries), whole.rest) && |whole.rest| <= 65598
  {
    assert [] + Concat(chunks) == Concat(chunks);
    FeedFrom([], chunks);
    LeftoverIsShort(Concat(chunks));
  }

  lemma {:induction false} FeedAppend(buf: seq<byte>, a: seq<seq<byte>>, b: seq<seq<byte>>)
    ensures var (ra, bufA) := FeedAll(buf, a); var (rb, bufB) := FeedAll(bufA, b);
            FeedAll(buf, a + b) == if ra.Panicked? then (Panicked, bufA)
                                   else (if rb.Panicked? then Panicked else Entries(ra.es + rb.es), bufB)
    decreases |a|
  {
    if a == [] {
      assert a + b == b;
      var rb := FeedAll(buf, b).0;
      assert rb.Entries? ==> [] + rb.es == rb.es;
    } else {
      assert (a + b)[1..] == a[1..] + b;
      var (r, buf1) := FeedOnce(buf, a[0]);
      if r.Entries? {
        FeedAppend(buf1, a[1..], b);
        var (ra, bufA) := FeedAll(buf1, a[1..]);
        var rb := FeedAll(bufA, b).0;
        if ra.Entries? && rb.Entries? {
          Assoc(r.es, ra.es, rb.es);
        }
      }
    }
  }

  lemma FeedOnly(buf: seq<byte>, c: seq<byte>)
    ensures FeedAll(buf, [c]) == FeedOnce(buf, c)
  {
    var (r, buf1) := FeedOnce(buf, c);
    assert [c][1..] == [];
    assert r.Entries? ==> r.es + [] == r.es;
  }

  /** Where one pass would stop for good, the calls of feed have returned what came before. */
  lemma FeedUpToStop(cs: seq<seq<byte>>, c: seq<byte>)
    requires (forall x <- cs :: |x| <= SAFE_CHUNK) && |c| <= SAFE_CHUNK
    requires WellFormed(Concat(cs)) && !WellFormed(Concat(cs) + c)
    ensures var p := ParseAll(Concat(cs) + c); var (r, buf) := FeedAll([], cs + [c]);
            if p.stop == EmptyPayload then r == Panicked else r == Entries(p.entries) && buf == []
  {
    ChunkIndependence(cs);
    ParseIncrementally(Concat(cs), c);
    FeedAppend([], cs, [c]);
    FeedOnly(ParseAll(Concat(cs)).rest, c);
    BadRest(Concat(cs) + c);
  }

  lemma {:induction false} BadRest(buf: seq<byte>)
    ensures ParseAll(buf).stop == BadHeader ==> ParseAll(buf).rest == []
    decreases |buf|
  {
    var h := FirstEntry(buf);
    if h.Entry? {
      BadRest(buf[h.size..]);
    }
  }

  /**
   * Resynchronisation: behind a bad header the rest of its chunk is dropped and parsing starts over with
   * the next chunk.  So the chunking shows, and the result is that of one pass, exactly when parsing what
   * comes in later chunks finds no entry.
   */
  lemma BadHeadersShowChunking(cs: seq<seq<byte>>, c: seq<byte>, more: seq<seq<byte>>)
    requires (forall x <- cs :: |x| <= SAFE_CHUNK) && |c| <= SAFE_CHUNK
    requires WellFormed(Concat(cs)) && ParseAll(Concat(cs) + c).stop == BadHeader
    ensures var before := ParseAll(Concat(cs) + c).entries;
            var r, later := FeedAll([], cs + [c] + more).0, FeedAll([], more).0;
            && r == (if later.Panicked? then Panicked else Entries(before + later.es))
            && (r == Entries(ParseAll(Concat(cs + [c] + more)).entries) <==> later == Entries([]))
  {
    FeedUpToStop(cs, c);
    FeedAppend([], cs + [c], more);
    ConcatSnoc(cs, c);
    ConcatAppend(cs + [c], more);
    ParseIncrementally(Concat(cs) + c, Concat(more));
    var before, later := ParseAll(Concat(cs) + c).entries, FeedAll([], more).0;
    assert before + [] == before;
    assert later.Entries? && before + later.es == before ==> |later.es| == 0;
  }

  /** Once one pass meets an entry without payload, the call that completes its header panics. */
  lemma EmptyPayloadPanics(cs: seq<seq<byte>>, c: seq<byte>, more: seq<seq<byte>>)
    requires (forall x <- cs :: |x| <= SAFE_CHUNK) && |c| <= SAFE_CHUNK
    requires WellFormed(Concat(cs)) && ParseAll(Concat(cs) + c).stop == EmptyPayload
    ensures FeedAll([], cs + [c] + more).0 == Panicked
  {
    FeedUpToStop(cs, c);
    FeedAppend([], cs + [c], more);
  }

  // ----- Encoding -----

  predicate NulFree(s: seq<byte>) { 0 !in s }

  function EncodePayload(e: LogcatEntry): seq<byte> {
    [PriorityByte(e.priority)] + e.tag + [0] + e.message + [0]
  }

  /** An entry with a version 1 header (extra empty) or a version 3 header (extra the log id). */
  function EncodeEntry(e: LogcatEntry, extra: seq<byte>): seq<byte>
    requires |EncodePayload(e)| < 0x1_0000 && |extra| <= 44
  {
    EncodeHeader(e, |EncodePayload(e)|, extra) + EncodePayload(e)
  }

  function EncodeHeader(e: LogcatEntry, payloadLen: u16, extra: seq<byte>): seq<byte>
    requires |extra| <= 44
  {
    Le16(payloadLen) + Le16(20 + |extra|) + Le32(e.pid) + Le32(e.tid) + Le32(e.sec) + Le32(e.nsec) + extra
  }

  lemma HeaderWords(e: LogcatEntry, payloadLen: u16, extra: seq<byte>)
    requires |extra| <= 44
    ensures var h := EncodeHeader(e, payloadLen, extra);
            && |h| == 20 + |extra| && PayloadLen(h) == payloadLen && HeaderSize(h) == 20 + |extra|
            && Word(h, 4) == e.pid && Word(h, 8) == e.tid && Word(h, 12) == e.sec && Word(h, 16) == e.nsec
  {
    var a, b := Le16(payloadLen), Le16(20 + |extra|);
    Pieces(a, b, Le32(e.pid), Le32(e.tid), Le32(e.sec), Le32(e.nsec), extra);
    Le16RoundTrip(payloadLen);
    Le16RoundTrip(20 + |extra|);
    Le32RoundTrip(e.pid);
    Le32RoundTrip(e.tid);
    Le32RoundTrip(e.sec);
    Le32RoundTrip(e.nsec);
  }

  lemma Pieces(a: seq<byte>, b: seq<byte>, c: seq<byte>, d: seq<byte>, e: seq<byte>, f: seq<byte>, g: seq<byte>)
    requires |a| == |b| == 2 && |c| == |d| == |e| == |f| == 4
    ensures var h := a + b + c + d + e + f + g;
            && |h| == 20 + |g| && h[0..2] == a && h[2..4] == b
            && h[4..8] == c && h[8..12] == d && h[12..16] == e && h[16..20] == f
  {
  }

  lemma FindsTerminator(s: seq<byte>, from: nat, to: nat)
    requires from <= to < |s| && s[to] == 0 && 0 !in s[from..to]
    ensures FindNul(s, from) == to
  {
  }

  lemma PayloadInverts(e: LogcatEntry, header: seq<byte>)
    requires NulFree(e.tag) && NulFree(e.message) && |header| >= 20
    requires Word(header, 4) == e.pid && Word(header, 8) == e.tid && Word(header, 12) == e.sec && Word(header, 16) == e.nsec
    ensures ParseEntry(header, EncodePayload(e)) == e
  {
    var p := EncodePayload(e);
    var t, m := 1 + |e.tag|, 2 + |e.tag| + |e.message|;
    assert p[1..t] == e.tag && p[t + 1..m] == e.message;
    FindsTerminator(p, 1, t);
    FindsTerminator(p, t + 1, m);
  }

  /** Parsing inverts both encodings, whatever follows. */
  lemma {:induction false} NulAhead(s: seq<byte>, from: nat, k: nat)
    requires from <= k <= |s| && (forall i :: from <= i < k ==> s[i] != 0) && (k < |s| ==> s[k] == 0)
    ensures FindNul(s, from) == k
    decreases k - from
  {
    if from < k {
      NulAhead(s, from + 1, k);
    }
  }

  /** A payload without its NULs is all tag. */
  lemma BarePayload(h: seq<byte>, priority: byte, tag: seq<byte>)
    requires |h| >= 20 && NulFree(tag)
    ensures var e := ParseEntry(h, [priority] + tag); e.tag == tag && e.message == []
  {
    var p := [priority] + tag;
    assert p[1..] == tag && forall i :: 1 <= i < |p| ==> p[i] == tag[i - 1];
    NulAhead(p, 1, |p|);
    NulAhead(p, |p|, |p|);
  }

  /** A payload without its last NUL is read to its end, and what comes behind one is ignored. */
  lemma PayloadsAreCutAtNuls(h: seq<byte>, priority: byte, tag: seq<byte>, message: seq<byte>, more: seq<byte>)
    requires |h| >= 20 && NulFree(tag) && NulFree(message) && (more == [] || more[0] == 0)
    ensures var e := ParseEntry(h, [priority] + tag + [0] + message + more); e.tag == tag && e.message == message
  {
    var p, a, b := [priority] + tag + [0] + message + more, 1 + |tag|, 2 + |tag| + |message|;
    assert p[1..a] == tag && p[a + 1..b] == message;
    assert forall i :: 1 <= i < a ==> p[i] == tag[i - 1];
    assert forall i :: a + 1 <= i < b ==> p[i] == message[i - a - 1];
    assert p[a] == 0 && (b < |p| ==> p[b] == more[0]);
    NulAhead(p, 1, a);
    NulAhead(p, a + 1, b);
  }

  lemma ParseInvertsEncode(e: LogcatEntry, extra: seq<byte>, rest: seq<byte>)
    requires |EncodePayload(e)| < 0x1_0000 && |extra| <= 44 && NulFree(e.tag) && NulFree(e.message)
    ensures ParseAll(EncodeEntry(e, extra) + rest) == Push(e, ParseAll(rest))
  {
    var h, p := EncodeHeader(e, |EncodePayload(e)|, extra), EncodePayload(e);
    HeaderWords(e, |p|, extra);
    PayloadInverts(e, h);
    FirstIs(h, p, rest);
    assert (h + p + rest)[|h| + |p|..] == rest;
  }

  lemma FirstIs(h: seq<byte>, p: seq<byte>, rest: seq<byte>)
    requires 20 <= |h| <= 64 && HeaderSize(h) == |h| && PayloadLen(h) == |p| && |p| >= 1
    ensures FirstEntry(h + p + rest) == Entry(ParseEntry(h, p), |h| + |p|)
  {
    var buf := h + p + rest;
    assert buf[0..2] == h[0..2] && buf[2..4] == h[2..4];
    assert buf[..|h|] == h && buf[|h|..|h| + |p|] == p;
  }

  /** A list of entries with their header extensions. */
  function EncodeAll(es: seq<(LogcatEntry, seq<byte>)>): seq<byte>
    requires forall x <- es :: Encodable(x)
  {
    if es == [] then [] else assert Encodable(es[0]); EncodeEntry(es[0].0, es[0].1) + EncodeAll(es[1..])
  }

  predicate Encodable(x: (LogcatEntry, seq<byte>)) {
    |EncodePayload(x.0)| < 0x1_0000 && |x.1| <= 44 && NulFree(x.0.tag) && NulFree(x.0.message)
  }

  /** The whole path: encoded entries, cut anywhere, come out of feed as they went in. */
  lemma FeedInvertsEncode(es: seq<(LogcatEntry, seq<byte>)>, chunks: seq<seq<byte>>)
    requires (forall x <- es :: Encodable(x)) && Concat(chunks) == EncodeAll(es)
    requires forall c <- chunks :: |c| <= SAFE_CHUNK
    ensures FeedAll([], chunks) == (Entries(EntriesOf(es)), [])
  {
    ParseAllInverts(es);
    ChunkIndependence(chunks);
  }

  function EntriesOf(es: seq<(LogcatEntry, seq<byte>)>): seq<LogcatEntry> {
    if es == [] then [] else [es[0].0] + EntriesOf(es[1..])
  }

  lemma {:induction false} ParseAllInverts(es: seq<(LogcatEntry, seq<byte>)>)
    requires forall x <- es :: Encodable(x)
    ensures ParseAll(EncodeAll(es)) == Pass(EntriesOf(es), [], NeedMore)
  {
    if es == [] {
      assert FirstEntry([]) == None(NeedMore);
    } else {
      var x, rest := es[0], EncodeAll(es[1..]);
      assert Encodable(x);
      ParseInvertsEncode(x.0, x.1, rest);
      ParseAllInverts(es[1..]);
      assert ParseAll(EncodeEntry(x.0, x.1) + rest) == Push(x.0, ParseAll(rest));
    }
  }

  // ----- The parser object -----

  /** `entries` have been taken off the front of `all` and `buf` is left. */
  ghost predicate Ahead(all: seq<byte>, entries: seq<LogcatEntry>, buf: seq<byte>) {
    ParseAll(all) == Pass(entries + ParseAll(buf).entries, ParseAll(buf).rest, ParseAll(buf).stop)
  }

  lemma AheadStarts(all: seq<byte>)
    ensures Ahead(all, [], all)
  {
    assert [] + ParseAll(all).entries == ParseAll(all).entries;
  }

  lemma AheadContinues(all: seq<byte>, entries: seq<LogcatEntry>, buf: seq<byte>, h: Head)
    requires Ahead(all, entries, buf) && h == FirstEntry(buf)
    ensures if h.Entry? then Ahead(all, entries + [h.e], buf[h.size..])
            else ParseAll(all) == Pass(entries, if h.stop == BadHeader then [] else buf, h.stop)
  {
    if h.Entry? {
      Assoc(entries, [h.e], ParseAll(buf[h.size..]).entries);
    } else {
      assert entries + [] == entries;
    }
  }

  class LogcatParser {
    var buf: seq<byte>

    constructor ()
      ensures buf == []
    {
      buf := [];
    }

    method Feed(data: seq<byte>) returns (r: FeedResult)
      modifies this
      ensures (r, buf) == FeedOnce(old(buf), data)
    {
      buf := buf + data;
      if |buf| > MAX_BUF_SIZE {
        buf := [];
        return Entries([]);
      }
      ghost var all := buf;
      var entries: seq<LogcatEntry> := [];
      AheadStarts(all);
      while true
        invariant Ahead(all, entries, buf)
        decreases |buf|
      {
        var h := FirstEntry(buf);
        AheadContinues(all, entries, buf, h);
        if h.None? {
          if h.stop == EmptyPayload {
            return Panicked;
          }
          if h.stop == BadHeader {
            buf := [];
          }
          break;
        }
        entries := entries + [h.e];
        buf := buf[h.size..];
      }
      r := Entries(entries);
    }
  }
}

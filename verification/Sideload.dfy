/** Sideloading: the device asks for numbered blocks of a file until it is done. */
module Sideload {
  import opened Bytes
  import opened Adb
  import opened Flash
  import opened StreamSpec
  import opened StreamLoops
  import opened StreamWrites
  import opened UsbStreams

  const SIDELOAD_BLOCK_SIZE: nat := 65536

  datatype Request = Block(n: nat) | Done | Fail | Invalid

  const DONEDONE: seq<byte> := [0x44, 0x4F, 0x4E, 0x45, 0x44, 0x4F, 0x4E, 0x45]
  const FAILFAIL: seq<byte> := [0x46, 0x41, 0x49, 0x4C, 0x46, 0x41, 0x49, 0x4C]

  // ----- Decimal requests -----

  predicate IsDigit(b: byte) { 0x30 <= b <= 0x39 }

  predicate AllDigits(s: seq<byte>) {
    forall b <- s :: IsDigit(b)
  }

  function DecimalValue(s: seq<byte>): nat
    requires AllDigits(s)
  {
    if s == [] then 0 else assert s[|s| - 1] in s; 10 * DecimalValue(s[..|s| - 1]) + (s[|s| - 1] as int - 0x30)
  }

  function TrimZeros(s: seq<byte>): seq<byte> {
    if s != [] && s[0] == 0x30 then TrimZeros(s[1..]) else s
  }

  /** str::parse::<u64>, which takes a leading plus sign; eight characters cannot overflow it. */
  function ParseNumber(s: seq<byte>): Request {
    var digits := if s != [] && s[0] == 0x2B then s[1..] else s;
    if digits != [] && AllDigits(digits) then Block(DecimalValue(digits)) else Invalid
  }

  function ParseBlockRequest(buf: seq<byte>): Request
    requires |buf| == 8
  {
    if buf == DONEDONE then Done
    else if buf == FAILFAIL then Fail
    else
      var trimmed := TrimZeros(buf);
      if trimmed == [] then Block(0) else ParseNumber(trimmed)
  }

  /** `n` in decimal with `width` digits. */
  function Decimal(n: nat, width: nat): (s: seq<byte>)
    ensures |s| == width && AllDigits(s)
  {
    if width == 0 then [] else Decimal(n / 10, width - 1) + [0x30 + n % 10]
  }

  function Pow10(k: nat): nat {
    if k == 0 then 1 else 10 * Pow10(k - 1)
  }

  lemma {:induction false} DecimalInverts(n: nat, width: nat)
    requires n < Pow10(width)
    ensures DecimalValue(Decimal(n, width)) == n
  {
    if width > 0 {
      DecimalInverts(n / 10, width - 1);
      var s := Decimal(n, width);
      assert s[..width - 1] == Decimal(n / 10, width - 1);
    }
  }

  lemma {:induction false} LeadingZero(s: seq<byte>)
    requires s != [] && s[0] == 0x30 && AllDigits(s)
    ensures DecimalValue(s[1..]) == DecimalValue(s)
  {
    if |s| > 1 {
      var k := |s| - 1;
      LeadingZero(s[..k]);
      assert s[..k][1..] == s[1..][..k - 1];
      assert s[1..][k - 1] == s[k];
    } else {
      assert s[..0] == [];
    }
  }

  lemma {:induction false} TrimKeepsValue(s: seq<byte>)
    requires AllDigits(s)
    ensures AllDigits(TrimZeros(s)) && DecimalValue(TrimZeros(s)) == DecimalValue(s)
  {
    if s != [] && s[0] == 0x30 {
      LeadingZero(s);
      TrimKeepsValue(s[1..]);
    }
  }

  /** The request parser inverts eight-digit zero-padded decimal. */
  lemma ParseInvertsDecimal(n: nat)
    requires n < 1_0000_0000
    ensures ParseBlockRequest(Decimal(n, 8)) == Block(n)
  {
    var s := Decimal(n, 8);
    assert s[0] != DONEDONE[0] && s[0] != FAILFAIL[0] by { assert IsDigit(s[0]); }
    EightDigits(n);
    TrimKeepsValue(s);
    var t := TrimZeros(s);
    assert t != [] ==> IsDigit(t[0]);
  }

  lemma EightDigits(n: nat)
    requires n < 1_0000_0000
    ensures DecimalValue(Decimal(n, 8)) == n
  {
    assert Pow10(4) == 1_0000;
    assert Pow10(8) == 10 * (10 * (10 * (10 * Pow10(4))));
    DecimalInverts(n, 8);
  }

  lemma {:induction false} TrimmedZeros(s: seq<byte>) returns (k: nat)
    ensures k <= |s| && TrimZeros(s) == s[k..]
    ensures (forall i :: 0 <= i < k ==> s[i] == 0x30) && (k < |s| ==> s[k] != 0x30)
  {
    k := 0;
    if s != [] && s[0] == 0x30 {
      var k1 := TrimmedZeros(s[1..]);
      assert forall i :: 0 < i <= k1 ==> s[i] == s[1..][i - 1];
      k := k1 + 1;
    }
  }

  /** A plus sign with nothing but zeros before it and digits behind it. */
  predicate PlusNumber(q: seq<byte>, k: nat) {
    && k + 1 < |q| && q[k] == 0x2B
    && (forall i :: 0 <= i < k ==> q[i] == 0x30)
    && AllDigits(q[k + 1..])
  }

  lemma WordIsNoNumber(q: seq<byte>)
    requires |q| == 8 && q[0] > 0x39
    ensures !AllDigits(q) && forall k :: !PlusNumber(q, k)
  {
    assert q[0] in q && !IsDigit(q[0]);
  }

  /** How the two words are spelled. */
  lemma TwoWords()
    ensures Ascii("DONEDONE") == DONEDONE && Ascii("FAILFAIL") == FAILFAIL
    ensures DONEDONE[0] > 0x39 && FAILFAIL[0] > 0x39 && DONEDONE != FAILFAIL
  {
  }

  lemma DigitsBehindZeros(q: seq<byte>, k: nat)
    requires k <= |q| && forall i :: 0 <= i < k ==> q[i] == 0x30
    ensures AllDigits(q) <==> AllDigits(q[k..])
  {
    if AllDigits(q[k..]) {
      assert forall i :: k <= i < |q| ==> q[k..][i - k] == q[i];
    }
  }

  lemma TrimKeepsValueOf(s: seq<byte>)
    ensures AllDigits(s) ==> AllDigits(TrimZeros(s)) && DecimalValue(TrimZeros(s)) == DecimalValue(s)
  {
    if AllDigits(s) {
      TrimKeepsValue(s);
    }
  }

  /** Apart from the two words, requests are the numbers str::parse takes: all digits, or with a plus sign. */
  lemma NumbersAreParsed(q: seq<byte>)
    requires |q| == 8 && q != DONEDONE && q != FAILFAIL
    ensures ParseBlockRequest(q).Block? <==> AllDigits(q) || exists k :: PlusNumber(q, k)
    ensures AllDigits(q) ==> ParseBlockRequest(q) == Block(DecimalValue(q))
  {
    var k := TrimmedZeros(q);
    DigitsBehindZeros(q, k);
    TrimKeepsValueOf(q);
    if k < 8 {
      assert q[k..][0] == q[k] && q[k..][1..] == q[k + 1..];
      assert AllDigits(q) ==> IsDigit(q[k]);
      assert PlusNumber(q, k) <==> k < 7 && q[k] == 0x2B && AllDigits(q[k + 1..]);
    }
    assert forall j :: PlusNumber(q, j) ==> j == k;
  }

  /** A plus sign changes nothing about the number behind it. */
  lemma PlusIsParsed(q: seq<byte>, k: nat)
    requires |q| == 8 && PlusNumber(q, k)
    ensures ParseBlockRequest(q) == Block(DecimalValue(q[k + 1..]))
  {
    var j := TrimmedZeros(q);
    assert j == k && q[k..][1..] == q[k + 1..];
    TwoWords();
  }

  // ----- Blocks -----

  function SaturatingSub(a: nat, b: nat): nat {
    if a < b then 0 else a - b
  }

  function CalculateBlockRead(block: nat, fileSize: nat, blockSize: nat): (nat, nat) {
    var offset := block * blockSize;
    (offset, Min(blockSize, SaturatingSub(fileSize, offset)))
  }

  function DivCeil(a: nat, b: nat): nat
    requires b > 0
  {
    (a + b - 1) / b
  }

  /** The part of the file a block request asks for. */
  function Slice(file: seq<byte>, block: nat): seq<byte> {
    var (offset, len) := CalculateBlockRead(block, |file|, SIDELOAD_BLOCK_SIZE);
    if len == 0 then [] else file[offset..offset + len]
  }

  /** A block is refused exactly when it lies at or beyond the number of blocks of the file. */
  lemma RefusedBlocks(file: seq<byte>, block: nat)
    ensures Slice(file, block) == [] <==> block >= DivCeil(|file|, SIDELOAD_BLOCK_SIZE)
  {
  }

  function FirstBlocks(file: seq<byte>, k: nat): seq<seq<byte>> {
    seq(k, i requires 0 <= i < k => Slice(file, i))
  }

  lemma {:induction false} BlocksCover(file: seq<byte>, k: nat)
    requires k <= DivCeil(|file|, SIDELOAD_BLOCK_SIZE)
    ensures Concat(FirstBlocks(file, k)) == file[..Min(k * SIDELOAD_BLOCK_SIZE, |file|)]
    decreases k
  {
    if k > 0 {
      BlocksCover(file, k - 1);
      assert FirstBlocks(file, k) == FirstBlocks(file, k - 1) + [Slice(file, k - 1)];
      ConcatSnoc(FirstBlocks(file, k - 1), Slice(file, k - 1));
      RefusedBlocks(file, k - 1);
      var a, b := (k - 1) * SIDELOAD_BLOCK_SIZE, Min(k * SIDELOAD_BLOCK_SIZE, |file|);
      assert Slice(file, k - 1) == file[a..b];
      assert file[..a] + file[a..b] == file[..b];
    }
  }

  /** The blocks tile the file: non-empty, disjoint, in order and complete. */
  lemma BlocksTile(file: seq<byte>)
    ensures var n := DivCeil(|file|, SIDELOAD_BLOCK_SIZE);
            && Concat(FirstBlocks(file, n)) == file
            && (forall i :: 0 <= i < n ==> Slice(file, i) != [])
            && (forall i: nat :: i + 1 < n ==> |Slice(file, i)| == SIDELOAD_BLOCK_SIZE)
  {
    var n := DivCeil(|file|, SIDELOAD_BLOCK_SIZE);
    BlocksCover(file, n);
    assert file[..|file|] == file;
    forall i | 0 <= i < n ensures Slice(file, i) != [] {
      RefusedBlocks(file, i);
    }
    forall i: nat | i + 1 < n ensures |Slice(file, i)| == SIDELOAD_BLOCK_SIZE {
      RefusedBlocks(file, i + 1);
    }
  }

  // ----- Serving -----

  datatype Outcome = Served | Complete | Rejected | BadRequest | BeyondEnd | Broken

  /** What a request means for a file. */
  function Verdict(file: seq<byte>, q: seq<byte>): Outcome
    requires |q| == 8
  {
    match ParseBlockRequest(q)
    case Done => Complete
    case Fail => Rejected
    case Invalid => BadRequest
    case Block(n) => if Slice(file, n) != [] then Served else BeyondEnd
  }

  predicate IsServed(file: seq<byte>, q: seq<byte>) {
    |q| == 8 && Verdict(file, q) == Served
  }

  /** The reply to a served request. */
  function Reply(file: seq<byte>, q: seq<byte>): seq<byte> {
    if IsServed(file, q) then Slice(file, ParseBlockRequest(q).n) else []
  }

  function Replies(file: seq<byte>, requests: seq<seq<byte>>): seq<byte> {
    if requests == [] then [] else Replies(file, requests[..|requests| - 1]) + Reply(file, requests[|requests| - 1])
  }

  lemma RepliesMore(file: seq<byte>, served: seq<seq<byte>>, q: seq<byte>)
    ensures Replies(file, served + [q]) == Replies(file, served) + Reply(file, q)
  {
    assert (served + [q])[..|served|] == served;
  }

  /** The replies to all served requests but the last. */
  function AllButLast(file: seq<byte>, requests: seq<seq<byte>>): (r: seq<byte>)
    ensures r <= Replies(file, requests)
  {
    if requests == [] then [] else Replies(file, requests[..|requests| - 1])
  }

  lemma AllButLastMore(file: seq<byte>, served: seq<seq<byte>>, q: seq<byte>)
    ensures AllButLast(file, served + [q]) == Replies(file, served)
  {
    assert (served + [q])[..|served|] == served;
  }

  /** The requests answered so far account for every byte read and every byte sent. */
  ghost predicate Serving(s0: State, s: State, file: seq<byte>, served: seq<seq<byte>>, out: seq<seq<byte>>) {
    && (forall q <- served :: IsServed(file, q))
    && Handed(s) == Handed(s0) + Concat(served)
    && SentSince(s0, s, out)
    && Concat(out) == Replies(file, served)
  }

  /** One served block, or as much of it as could be sent. */
  lemma ServeMore(s0: State, s: State, file: seq<byte>, served: seq<seq<byte>>, out: seq<seq<byte>>, q: seq<byte>)
    returns (out1: seq<seq<byte>>)
    requires Serving(s0, s, file, served, out) && IsServed(file, q)
    requires ReadExact(s, 8).r == Ok(q)
    ensures var st := WriteAll(ReadExact(s, 8).s, Reply(file, q));
            && SentSince(s0, st.s, out1)
            && Replies(file, served) <= Concat(out1) <= Replies(file, served + [q])
            && Handed(st.s) == Handed(s0) + Concat(served + [q])
            && (st.r.Ok? ==> Serving(s0, st.s, file, served + [q], out1) && Shrinks(s, st.s))
  {
    ReadExactHands(s, 8);
    ReadExactShrinks(s, 8);
    var asked := ReadExact(s, 8).s;
    WriteAllUsesUp(asked, Reply(file, q));
    out1 := SendMore(s0, asked, out, Reply(file, q));
    RepliesMore(file, served, q);
    ConcatSnoc(served, q);
    Assoc(Handed(s0), Concat(served), q);
  }

  /** How things stand after a request: answered, or the last one of the run. */
  ghost predicate After(s0: State, s: State, file: seq<byte>, served: seq<seq<byte>>, out: seq<seq<byte>>,
                        last: seq<byte>, outcome: Outcome)
  {
    match outcome
    case Served => Serving(s0, s, file, served, out)
    case Broken =>
      && (forall q <- served :: IsServed(file, q))
      && SentSince(s0, s, out) && Concat(out) <= Replies(file, served)
      && AllButLast(file, served) <= Concat(out)
      && Handed(s0) + Concat(served) <= Handed(s)
      && |Handed(s)| < |Handed(s0)| + |Concat(served)| + 8
    case _ =>
      && |last| == 8 && Verdict(file, last) == outcome
      && (forall q <- served :: IsServed(file, q))
      && SentSince(s0, s, out) && Concat(out) == Replies(file, served)
      && Handed(s) == Handed(s0) + Concat(served) + last
  }

  lemma RequestBreaks(s0: State, s: State, file: seq<byte>, served: seq<seq<byte>>, out: seq<seq<byte>>)
    requires Serving(s0, s, file, served, out) && ReadExact(s, 8).r.Err?
    ensures After(s0, ReadExact(s, 8).s, file, served, out, [], Broken)
  {
    ReadExactHands(s, 8);
  }

  lemma RequestEnds(s0: State, s: State, file: seq<byte>, served: seq<seq<byte>>, out: seq<seq<byte>>, q: seq<byte>)
    requires Serving(s0, s, file, served, out)
    requires ReadExact(s, 8).r == Ok(q) && |q| == 8 && Verdict(file, q) != Served
    ensures Verdict(file, q) != Broken && After(s0, ReadExact(s, 8).s, file, served, out, q, Verdict(file, q))
  {
    ReadExactHands(s, 8);
  }

  lemma SliceIsThere(file: seq<byte>, n: nat)
    ensures Slice(file, n) == if n * 65536 < |file| then file[n * 65536..Min(n * 65536 + 65536, |file|)] else []
    ensures Slice(file, n) != [] <==> n * 65536 < |file|
  {
  }

  /**
   * What every request means, byte for byte: success and rejection have one spelling each, a number asks for
   * its 65536 bytes of the file, and all else is an error.
   */
  lemma RequestsAreJudged(file: seq<byte>, q: seq<byte>)
    requires |q| == 8
    ensures Verdict(file, q) == Complete <==> q == Ascii("DONEDONE")
    ensures Verdict(file, q) == Rejected <==> q == Ascii("FAILFAIL")
    ensures Verdict(file, q) in {Served, BeyondEnd} <==> AllDigits(q) || exists k :: PlusNumber(q, k)
    ensures AllDigits(q) ==>
              var from, end := DecimalValue(q) * 65536, DecimalValue(q) * 65536 + 65536;
              && (Verdict(file, q) == Served <==> from < |file|)
              && Reply(file, q) == if from < |file| then file[from..Min(end, |file|)] else []
  {
    TwoWords();
    if q == DONEDONE || q == FAILFAIL {
      WordIsNoNumber(q);
    } else {
      NumbersAreParsed(q);
    }
    if AllDigits(q) {
      SliceIsThere(file, DecimalValue(q));
    }
  }

  // ----- Serving terminates: each request uses up what the channel holds -----

  lemma {:induction false} AwaitUsesUp(s: State, k: nat)
    ensures |AwaitOkay(s, k).s.incoming| <= |s.incoming|
    ensures AwaitOkay(s, k).r.Ok? ==> |AwaitOkay(s, k).s.incoming| < |s.incoming|
    decreases |s.incoming|
  {
    if NextEvent(s).Msg? {
      var m := NextEvent(s).m;
      var s1 := Pop(s, Recv(m, true));
      if m.command == A_WRTE {
        AwaitUsesUp(Send(s1, OkayMessage(s1), true).s.(unread := s.unread + m.data), k);
      } else if m.command != A_CLSE && m.command != A_OKAY {
        AwaitUsesUp(s1, k);
      }
    }
  }

  lemma {:induction false} WriteAllUsesUp(s: State, buf: seq<byte>)
    ensures buf != [] && WriteAll(s, buf).r.Ok? ==> |WriteAll(s, buf).s.incoming| < |s.incoming|
    decreases |buf|
  {
    if buf != [] {
      WriteCount(s, buf);
      var m := WrteMessage(s, buf[..Min(|buf|, s.maxPayload)]);
      AwaitUsesUp(Send(s, m, true).s, |m.data|);
      var part := Write(s, buf);
      if part.r.Ok? && part.r.value != 0 {
        WriteAllUsesUp(part.s, buf[part.r.value..]);
      }
    }
  }

  // ----- The rounds -----

  /** A request and what became of it. */
  datatype Round = Round(outcome: Outcome, q: seq<byte>, s: State)

  function OneRound(s: State, file: seq<byte>): Round {
    var req := ReadExact(s, 8);
    ReadExactHands(s, 8);
    if req.r.Err? then Round(Broken, [], req.s)
    else
      var q := req.r.value;
      if Verdict(file, q) != Served then Round(Verdict(file, q), q, req.s)
      else
        var w := WriteAll(req.s, Reply(file, q));
        Round(if w.r.Ok? then Served else Broken, q, w.s)
  }

  lemma RoundShrinks(s: State, file: seq<byte>)
    ensures OneRound(s, file).outcome == Served ==> Shrinks(s, OneRound(s, file).s)
  {
    ReadExactShrinks(s, 8);
    var req := ReadExact(s, 8);
    if req.r.Ok? {
      WriteAllUsesUp(req.s, Reply(file, req.r.value));
    }
  }

  /** The requests answered, the last of them perhaps in part; the last one read; and the state before its round. */
  datatype Service = Service(served: seq<seq<byte>>, last: seq<byte>, outcome: Outcome, at: State, s: State)

  function ServeAll(s: State, file: seq<byte>): (v: Service)
    ensures v.outcome != Served
    decreases |s.incoming|, |s.unread|
  {
    RoundShrinks(s, file);
    var round := OneRound(s, file);
    if round.outcome == Served then
      var more := ServeAll(round.s, file);
      more.(served := [round.q] + more.served)
    else
      Service(if round.outcome == Broken && round.q != [] then [round.q] else [], round.q, round.outcome, s, round.s)
  }

  /** One round accounts for every byte read and sent. */
  lemma RoundAccounts(s0: State, s: State, file: seq<byte>, served: seq<seq<byte>>, out: seq<seq<byte>>)
    returns (out1: seq<seq<byte>>)
    requires Serving(s0, s, file, served, out)
    ensures var round := OneRound(s, file);
            var served1 := if round.outcome == Served || (round.outcome == Broken && round.q != []) then served + [round.q] else served;
            After(s0, round.s, file, served1, out1, round.q, round.outcome)
  {
    ReadExactHands(s, 8);
    out1 := out;
    var req := ReadExact(s, 8);
    if req.r.Err? {
      RequestBreaks(s0, s, file, served, out);
    } else if Verdict(file, req.r.value) != Served {
      RequestEnds(s0, s, file, served, out, req.r.value);
    } else {
      out1 := ServeMore(s0, s, file, served, out, req.r.value);
      AllButLastMore(file, served, req.r.value);
    }
  }

  /** And so does the whole run. */
  lemma {:induction false} ServiceAccounts(s0: State, s: State, file: seq<byte>, served: seq<seq<byte>>, out: seq<seq<byte>>)
    returns (out1: seq<seq<byte>>)
    requires Serving(s0, s, file, served, out)
    ensures var v := ServeAll(s, file); After(s0, v.s, file, served + v.served, out1, v.last, v.outcome)
    decreases |s.incoming|, |s.unread|
  {
    RoundShrinks(s, file);
    var round := OneRound(s, file);
    out1 := RoundAccounts(s0, s, file, served, out);
    if round.outcome == Served {
      out1 := ServiceAccounts(s0, round.s, file, served + [round.q], out1);
      Assoc(served, [round.q], ServeAll(round.s, file).served);
    } else {
      assert served + [] == served;
    }
  }

  /** A run completes exactly if the last request says so. */
  lemma {:induction false} LastWord(s: State, file: seq<byte>)
    ensures var v := ServeAll(s, file); v.outcome == Complete <==> v.last == Ascii("DONEDONE")
    decreases |s.incoming|, |s.unread|
  {
    RoundShrinks(s, file);
    var round := OneRound(s, file);
    if round.outcome == Served {
      LastWord(round.s, file);
    } else if round.q != [] {
      ReadExactHands(s, 8);
      RequestsAreJudged(file, round.q);
    }
  }

  // ----- Why a run breaks, and when it does not -----

  /** Fewer bytes ahead than a request has, or fewer answers than the block asked for takes. */
  ghost predicate Starved(s: State, file: seq<byte>) {
    var a := Available(s);
    |a| < 8 || (IsServed(file, a[..8]) && !Affords(ReadExact(s, 8).s, [Reply(file, a[..8])]))
  }

  lemma RoundBreaks(s: State, file: seq<byte>)
    requires Accepting(s)
    ensures var round := OneRound(s, file);
            (round.outcome == Broken <==> Starved(s, file)) && (round.outcome == Served ==> Accepting(round.s))
  {
    ReadExactStock(s, 8);
    ReadExactHands(s, 8);
    var req := ReadExact(s, 8);
    if req.r.Ok? && Verdict(file, req.r.value) == Served {
      WriteEachAnswered(req.s, [Reply(file, req.r.value)]);
      WriteEachOne(req.s, Reply(file, req.r.value));
    }
  }

  /** If the acknowledgements go out, a run breaks exactly when its last round is starved. */
  lemma {:induction false} ServiceBreaks(s: State, file: seq<byte>)
    requires Accepting(s)
    ensures var v := ServeAll(s, file); Accepting(v.at) && (v.outcome == Broken <==> Starved(v.at, file))
    decreases |s.incoming|, |s.unread|
  {
    RoundShrinks(s, file);
    RoundBreaks(s, file);
    if OneRound(s, file).outcome == Served {
      ServiceBreaks(OneRound(s, file).s, file);
    }
  }

  /** `n` answers. */
  function Okays(s: State, n: nat): seq<Event> {
    seq(n, _ => Msg(Message(A_OKAY, s.remoteId, s.localId, [])))
  }

  /** A stream between two rounds, with the given events ahead. */
  ghost predicate Ready(s: State, events: seq<Event>) {
    !s.closed && s.unread == [] && Accepting(s) && s.incoming == events
  }

  predicate SameEnds(s: State, s1: State) {
    s1.localId == s.localId && s1.remoteId == s.remoteId && s1.maxPayload == s.maxPayload
  }

  lemma OkayAnswers(s: State, buf: seq<byte>, rest: seq<Event>)
    requires Ready(s, Okays(s, 1) + rest)
    ensures var st := Write(s, buf);
            st.r == Ok(Min(|buf|, s.maxPayload)) && Ready(st.s, rest) && SameEnds(s, st.s)
  {
    assert (Okays(s, 1) + rest)[0] == Okays(s, 1)[0] && (Okays(s, 1) + rest)[1..] == rest;
  }

  lemma {:induction false} OkaysAnswer(s: State, buf: seq<byte>, rest: seq<Event>)
    requires s.maxPayload > 0 && Ready(s, Okays(s, |Pieces(buf, s.maxPayload)|) + rest)
    ensures var st := WriteAll(s, buf); st.r.Ok? && Ready(st.s, rest) && SameEnds(s, st.s)
    decreases |buf|
  {
    if buf == [] {
      assert Okays(s, 0) + rest == rest;
    } else {
      WriteCount(s, buf);
      var n := Min(|buf|, s.maxPayload);
      var more := Okays(s, |Pieces(buf[n..], s.maxPayload)|) + rest;
      assert Okays(s, |Pieces(buf, s.maxPayload)|) + rest == Okays(s, 1) + more;
      OkayAnswers(s, buf, more);
      OkaysAnswer(Write(s, buf).s, buf[n..], rest);
    }
  }

  /** A request in one payload is read whole. */
  lemma RequestArrives(s: State, q: seq<byte>, rest: seq<Event>)
    requires |q| == 8 && Ready(s, [Msg(Message(A_WRTE, s.remoteId, s.localId, q))] + rest)
    ensures var st := ReadExact(s, 8); st.r == Ok(q) && Ready(st.s, rest) && SameEnds(s, st.s)
  {
    var event := Msg(Message(A_WRTE, s.remoteId, s.localId, q));
    assert ([event] + rest)[0] == event && ([event] + rest)[1..] == rest;
    ReadIsShort(s, 8);
    var part := Read(s, 8);
    assert q[..8] == q && q[8..] == [];
    assert part.r == Ok(q) && Ready(part.s, rest);
    assert ReadExact(part.s, 0) == Step(part.s, Ok([])) && q + [] == q;
  }

  /** A device that asks for the blocks `qs`, one payload each, and answers every payload it gets. */
  function Dialogue(s: State, file: seq<byte>, qs: seq<seq<byte>>): seq<Event>
    requires s.maxPayload > 0
  {
    if qs == [] then []
    else
      [Msg(Message(A_WRTE, s.remoteId, s.localId, qs[0]))]
      + Okays(s, |Pieces(Reply(file, qs[0]), s.maxPayload)|)
      + Dialogue(s, file, qs[1..])
  }

  lemma DialogueEnds(s: State, s1: State, file: seq<byte>, qs: seq<seq<byte>>)
    requires s.maxPayload > 0 && SameEnds(s, s1)
    ensures Dialogue(s, file, qs) == Dialogue(s1, file, qs)
  {
  }

  lemma CooperativeRound(s: State, file: seq<byte>, q: seq<byte>, rest: seq<Event>)
    requires s.maxPayload > 0 && IsServed(file, q)
    requires Ready(s, [Msg(Message(A_WRTE, s.remoteId, s.localId, q))] + (Okays(s, |Pieces(Reply(file, q), s.maxPayload)|) + rest))
    ensures var round := OneRound(s, file);
            round.outcome == Served && round.q == q && Ready(round.s, rest) && SameEnds(s, round.s)
  {
    RequestArrives(s, q, Okays(s, |Pieces(Reply(file, q), s.maxPayload)|) + rest);
    OkaysAnswer(ReadExact(s, 8).s, Reply(file, q), rest);
  }

  lemma DialogueNext(s: State, file: seq<byte>, qs: seq<seq<byte>>, done: seq<Event>)
    requires s.maxPayload > 0 && qs != []
    ensures Dialogue(s, file, qs) + done ==
              [Msg(Message(A_WRTE, s.remoteId, s.localId, qs[0]))]
              + (Okays(s, |Pieces(Reply(file, qs[0]), s.maxPayload)|) + (Dialogue(s, file, qs[1..]) + done))
  {
    var request := [Msg(Message(A_WRTE, s.remoteId, s.localId, qs[0]))];
    var okays := Okays(s, |Pieces(Reply(file, qs[0]), s.maxPayload)|);
    Assoc(request + okays, Dialogue(s, file, qs[1..]), done);
    Assoc(request, okays, Dialogue(s, file, qs[1..]) + done);
  }

  predicate AllServed(file: seq<byte>, qs: seq<seq<byte>>) {
    qs == [] || (IsServed(file, qs[0]) && AllServed(file, qs[1..]))
  }

  /** The device says that it is done. */
  function Goodbye(s: State, later: seq<Event>): seq<Event> {
    [Msg(Message(A_WRTE, s.remoteId, s.localId, DONEDONE))] + later
  }

  lemma GoodbyeCompletes(s: State, file: seq<byte>, later: seq<Event>)
    requires Ready(s, Goodbye(s, later))
    ensures var v := ServeAll(s, file); v.outcome == Complete && v.served == []
  {
    RequestArrives(s, DONEDONE, later);
  }

  lemma ServesNext(s: State, file: seq<byte>)
    requires OneRound(s, file).outcome == Served
    ensures var round := OneRound(s, file); var v, more := ServeAll(s, file), ServeAll(round.s, file);
            v.outcome == more.outcome && v.served == [round.q] + more.served
  {
  }

  /**
   * A cooperative device is served: whatever blocks it asks for, in whatever order and however often, all
   * its requests are answered, and the run completes when it says it is done.
   */
  lemma {:induction false} CooperativeDeviceIsServed(s: State, file: seq<byte>, qs: seq<seq<byte>>, later: seq<Event>)
    requires s.maxPayload > 0 && AllServed(file, qs)
    requires Ready(s, Dialogue(s, file, qs) + Goodbye(s, later))
    ensures var v := ServeAll(s, file); v.outcome == Complete && v.served == qs
    decreases |qs|
  {
    if qs == [] {
      assert [] + Goodbye(s, later) == Goodbye(s, later);
      GoodbyeCompletes(s, file, later);
    } else {
      var rest := Dialogue(s, file, qs[1..]) + Goodbye(s, later);
      DialogueNext(s, file, qs, Goodbye(s, later));
      CooperativeRound(s, file, qs[0], rest);
      var s1 := OneRound(s, file).s;
      DialogueEnds(s, s1, file, qs[1..]);
      ServesNext(s, file);
      assert [qs[0]] + qs[1..] == qs;
      CooperativeDeviceIsServed(s1, file, qs[1..], later);
    }
  }

  // ----- The loop -----

  /** Reads one block of the file and sends it. */
  method ServeBlock(stream: UsbStream, file: Cursor, offset: nat, len: nat, ghost q: seq<byte>) returns (ok: bool)
    requires stream.Valid() && IsServed(file.data, q)
    requires 0 < len && offset + len <= |file.data| && Reply(file.data, q) == file.data[offset..offset + len]
    modifies stream, file
    ensures stream.Valid()
    ensures var st := WriteAll(old(stream.Abs()), Reply(file.data, q)); stream.Abs() == st.s && ok == st.r.Ok?
  {
    ghost var asked := stream.Abs();
    file.Seek(offset);
    var read, piece := file.ReadExact(len);
    assert piece == Reply(file.data, q) && stream.Abs() == asked;
    var w := stream.WriteAll(piece);
    ok := w.Ok?;
  }

  /** Answers one request, or says what it means. */
  method Answer(stream: UsbStream, file: Cursor, q: seq<byte>) returns (outcome: Outcome)
    requires stream.Valid() && |q| == 8
    modifies stream, file
    ensures stream.Valid()
    ensures var st := WriteAll(old(stream.Abs()), Reply(file.data, q)); var v := Verdict(file.data, q);
            if v != Served then outcome == v && stream.Abs() == old(stream.Abs())
            else stream.Abs() == st.s && outcome == if st.r.Ok? then Served else Broken
  {
    match ParseBlockRequest(q) {
      case Done => outcome := Complete;
      case Fail => outcome := Rejected;
      case Invalid => outcome := BadRequest;
      case Block(block) =>
        var (offset, readLen) := CalculateBlockRead(block, |file.data|, SIDELOAD_BLOCK_SIZE);
        if readLen == 0 {
          outcome := BeyondEnd;
        } else {
          var ok := ServeBlock(stream, file, offset, readLen, q);
          outcome := if ok then Served else Broken;
        }
    }
  }

  /** One round: a request and its answer. */
  method ServeRequest(stream: UsbStream, file: Cursor) returns (outcome: Outcome, ghost q: seq<byte>)
    requires stream.Valid()
    modifies stream, file
    ensures stream.Valid() && Round(outcome, q, stream.Abs()) == OneRound(old(stream.Abs()), file.data)
  {
    ReadExactHands(stream.Abs(), 8);
    var req := stream.ReadExact(8);
    if req.Err? {
      return Broken, [];
    }
    q := req.value;
    outcome := Answer(stream, file, req.value);
  }

  /**
   * Serves a file.  The run is that of `ServeAll`: it breaks off only where the stream does, and if the
   * acknowledgements go out exactly when too few bytes for a request, or too few answers for a block, are
   * ahead.  In every run the bytes read are the served requests and at most one more, or less than one
   * more on a stream that broke; and the bytes sent are exactly those requests' slices of the file, all
   * whole but perhaps the last one on a broken stream; the outcome is the meaning of the last request, and
   * it is a success exactly if that request says DONEDONE.
   */
  method AdbSideload(stream: UsbStream, file: Cursor)
    returns (r: Result<()>, ghost v: Service, ghost out: seq<seq<byte>>)
    requires stream.Valid()
    modifies stream, file
    ensures stream.Valid()
    ensures file.data == [] ==> r == Failure(Validation("Sideload file is empty")) && stream.Abs() == old(stream.Abs())
    ensures file.data != [] ==>
              && v == ServeAll(old(stream.Abs()), file.data) && stream.Abs() == v.s
              && (r.Success? <==> v.outcome == Complete) && (r.Success? <==> v.last == Ascii("DONEDONE"))
              && (old(Accepting(stream.Abs())) ==> (v.outcome == Broken <==> Starved(v.at, file.data)))
              && After(old(stream.Abs()), stream.Abs(), file.data, v.served, out, v.last, v.outcome)
  {
    ghost var s0 := stream.Abs();
    v, out := ServeAll(s0, file.data), [];
    LastWord(s0, file.data);
    if |file.data| == 0 {
      r := Failure(Validation("Sideload file is empty"));
      return;
    }
    assert Handed(s0) + [] == Handed(s0) && Chunks(s0) + [] == Chunks(s0);
    assert [] + v.served == v.served;
    out := ServiceAccounts(s0, s0, file.data, [], []);
    if Accepting(s0) {
      ServiceBreaks(s0, file.data);
    }
    while true
      invariant stream.Valid()
      invariant var more := ServeAll(stream.Abs(), file.data); v == more.(served := v.served)
      decreases |stream.incoming|, |stream.readBuf| - stream.readPos
    {
      RoundShrinks(stream.Abs(), file.data);
      var round;
      ghost var q;
      round, q := ServeRequest(stream, file);
      if round != Served {
        r := if round == Complete then Success(()) else Failure(Protocol("sideload failed"));
        return;
      }
    }
  }
}

/** When writing succeeds: what the device must answer, and what a series of write_alls has then sent. */
module StreamWrites {
  import opened Bytes
  import opened Adb
  import opened StreamSpec
  import opened StreamLoops

  // ----- The answers ahead -----

  /** The OKAYs ahead of any timeout, CLSE or hang-up. */
  function Answers(events: seq<Event>): nat {
    if events == [] || !events[0].Msg? || events[0].m.command == A_CLSE then 0
    else (if events[0].m.command == A_OKAY then 1 else 0) + Answers(events[1..])
  }

  /** The WRTEs a stream can still have answered. */
  function Credit(s: State): nat {
    if s.closed then 0 else Answers(s.incoming)
  }

  lemma {:induction false} AwaitAnswered(s: State, k: nat)
    requires !s.closed && Accepting(s)
    ensures var st := AwaitOkay(s, k);
            && Accepting(st.s) && st.s.maxPayload == s.maxPayload
            && (st.r.Ok? <==> Credit(s) > 0)
            && (st.r.Ok? ==> st.r.value == k && Credit(st.s) == Credit(s) - 1)
    decreases |s.incoming|
  {
    if NextEvent(s).Msg? {
      var m := NextEvent(s).m;
      var s1 := Pop(s, Recv(m, true));
      if m.command == A_WRTE {
        AwaitAnswered(Send(s1, OkayMessage(s1), true).s.(unread := s.unread + m.data), k);
      } else if m.command != A_CLSE && m.command != A_OKAY {
        AwaitAnswered(s1, k);
      }
    }
  }

  /** A write works exactly when an answer to it is ahead, and uses it up. */
  lemma WriteAnswered(s: State, buf: seq<byte>)
    requires Accepting(s)
    ensures var st := Write(s, buf);
            && Accepting(st.s) && st.s.maxPayload == s.maxPayload
            && (st.r.Ok? <==> Credit(s) > 0)
            && (st.r.Ok? ==> st.r.value == Min(|buf|, s.maxPayload) && Credit(st.s) == Credit(s) - 1)
  {
    if !s.closed {
      var chunk := buf[..Min(|buf|, s.maxPayload)];
      AwaitAnswered(Send(s, WrteMessage(s, chunk), true).s, |chunk|);
    }
  }

  /** WRTEs that a buffer takes; a limit of zero fits nothing, so it takes none and fails. */
  function Cost(buf: seq<byte>, max: nat): nat {
    if max == 0 then 0 else |Pieces(buf, max)|
  }

  predicate FitsLimit(buf: seq<byte>, max: nat) {
    max == 0 ==> buf == []
  }

  /** write_all works exactly when there are as many answers ahead as its buffer takes WRTEs. */
  lemma {:induction false} WriteAllAnswered(s: State, buf: seq<byte>)
    requires Accepting(s)
    ensures var st := WriteAll(s, buf);
            && Accepting(st.s) && st.s.maxPayload == s.maxPayload
            && (st.r.Ok? <==> FitsLimit(buf, s.maxPayload) && Cost(buf, s.maxPayload) <= Credit(s))
            && (st.r.Ok? ==> Credit(st.s) == Credit(s) - Cost(buf, s.maxPayload))
    decreases |buf|
  {
    if buf != [] {
      WriteCount(s, buf);
      WriteAnswered(s, buf);
      var part := Write(s, buf);
      if part.r.Ok? && part.r.value != 0 {
        WriteAllAnswered(part.s, buf[part.r.value..]);
      }
    }
  }

  // ----- A series of write_alls -----

  function WriteEach(s: State, bufs: seq<seq<byte>>): Step<()>
    decreases |bufs|
  {
    if bufs == [] then Step(s, Ok(()))
    else
      var first := WriteAll(s, bufs[0]);
      if first.r.Err? then first else WriteEach(first.s, bufs[1..])
  }

  /** It goes on where it was, or has failed already. */
  lemma {:induction false} WriteEachAppend(s: State, a: seq<seq<byte>>, b: seq<seq<byte>>)
    ensures WriteEach(s, a + b) == if WriteEach(s, a).r.Err? then WriteEach(s, a) else WriteEach(WriteEach(s, a).s, b)
    decreases |a|
  {
    if a == [] {
      assert a + b == b;
    } else {
      assert (a + b)[1..] == a[1..] + b;
      var first := WriteAll(s, a[0]);
      if first.r.Ok? {
        WriteEachAppend(first.s, a[1..], b);
      }
    }
  }

  lemma WriteEachSnoc(s: State, a: seq<seq<byte>>, buf: seq<byte>)
    ensures WriteEach(s, a).r.Ok? ==> WriteEach(s, a + [buf]) == WriteAll(WriteEach(s, a).s, buf)
    ensures WriteEach(s, a).r.Err? ==> WriteEach(s, a + [buf]) == WriteEach(s, a)
  {
    WriteEachAppend(s, a, [buf]);
    if WriteEach(s, a).r.Ok? {
      WriteEachOne(WriteEach(s, a).s, buf);
    }
  }

  lemma WriteEachOne(s: State, buf: seq<byte>)
    ensures WriteEach(s, [buf]) == WriteAll(s, buf)
  {
    var first := WriteAll(s, buf);
    assert [buf][1..] == [];
    assert first.r.Ok? ==> first.r.value == ();
  }

  function TotalCost(bufs: seq<seq<byte>>, max: nat): nat {
    if bufs == [] then 0 else Cost(bufs[0], max) + TotalCost(bufs[1..], max)
  }

  predicate AllFit(bufs: seq<seq<byte>>, max: nat) {
    bufs == [] || (FitsLimit(bufs[0], max) && AllFit(bufs[1..], max))
  }

  /** The device will answer all that these buffers take. */
  predicate Affords(s: State, bufs: seq<seq<byte>>) {
    AllFit(bufs, s.maxPayload) && TotalCost(bufs, s.maxPayload) <= Credit(s)
  }

  /** A series of write_alls works exactly when the answers ahead suffice for all of it. */
  lemma {:induction false} WriteEachAnswered(s: State, bufs: seq<seq<byte>>)
    requires Accepting(s)
    ensures var st := WriteEach(s, bufs);
            && Accepting(st.s) && st.s.maxPayload == s.maxPayload
            && (st.r.Ok? <==> Affords(s, bufs))
            && (st.r.Ok? ==> Credit(st.s) == Credit(s) - TotalCost(bufs, s.maxPayload))
    decreases |bufs|
  {
    if bufs != [] {
      WriteAllAnswered(s, bufs[0]);
      var first := WriteAll(s, bufs[0]);
      if first.r.Ok? {
        WriteEachAnswered(first.s, bufs[1..]);
      }
    }
  }

  /** What it sends: all of the buffers, or the start of them. */
  lemma {:induction false} WriteEachSends(s0: State, s: State, out: seq<seq<byte>>, bufs: seq<seq<byte>>)
    returns (out1: seq<seq<byte>>)
    requires SentSince(s0, s, out)
    ensures var st := WriteEach(s, bufs);
            && SentSince(s0, st.s, out1)
            && Handed(st.s) == Handed(s)
            && Concat(out) <= Concat(out1) <= Concat(out) + Concat(bufs)
            && (st.r.Ok? ==> Concat(out1) == Concat(out) + Concat(bufs))
    decreases |bufs|
  {
    if bufs == [] {
      out1 := out;
      assert Concat(out) + [] == Concat(out);
    } else {
      out1 := SendMore(s0, s, out, bufs[0]);
      Assoc(Concat(out), bufs[0], Concat(bufs[1..]));
      var first := WriteAll(s, bufs[0]);
      if first.r.Ok? {
        out1 := WriteEachSends(s0, first.s, out1, bufs[1..]);
      } else {
        PrefixExtends(Concat(out1), Concat(out) + bufs[0], Concat(bufs[1..]));
      }
    }
  }

  lemma PrefixExtends(a: seq<byte>, b: seq<byte>, c: seq<byte>)
    requires a <= b
    ensures a <= b + c
  {
  }

  /** The same from the start of a series. */
  lemma SeriesSends(s: State, bufs: seq<seq<byte>>) returns (out: seq<seq<byte>>)
    ensures var st := WriteEach(s, bufs);
            && SentSince(s, st.s, out)
            && Handed(st.s) == Handed(s)
            && Concat(out) <= Concat(bufs)
            && (st.r.Ok? ==> Concat(out) == Concat(bufs))
  {
    assert Chunks(s) + [] == Chunks(s);
    out := WriteEachSends(s, s, [], bufs);
    assert [] + Concat(bufs) == Concat(bufs);
  }
}

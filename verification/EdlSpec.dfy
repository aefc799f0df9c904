/** The byte stream an EDL transport makes of bulk-in transfers, whatever calls read it. */
module EdlSpec {
  import opened Bytes
  import opened Wrappers

  const BUF_SIZE: nat := 4096
  const USB_READ_BUF: nat := 4096

  /** Bytes received and not yet taken, and the transfers the device will answer with; None is a failed one. */
  datatype State = State(pending: seq<byte>, transfers: seq<Option<seq<byte>>>)

  /** A transfer with room for `capacity` bytes; a longer answer is a bus error. */
  function BulkIn(transfers: seq<Option<seq<byte>>>, capacity: nat): (r: Option<seq<byte>>)
    ensures r.Some? ==> |r.value| <= capacity
  {
    if transfers != [] && transfers[0].Some? && |transfers[0].value| <= capacity then transfers[0] else None
  }

  datatype Call = Read(size: nat) | FillBuf | Consume(amount: nat)

  /** What a call took out of the stream, the bytes it received for it, whether it failed, and the state left. */
  datatype Step = Step(taken: seq<byte>, arrived: seq<byte>, ok: bool, state: State)

  /** `read`: what is pending first, else one transfer; what does not fit the caller stays pending. */
  function ReadStep(st: State, size: nat): Step {
    if st.pending != [] then
      var n := Min(size, |st.pending|);
      Step(st.pending[..n], [], true, st.(pending := st.pending[n..]))
    else
      var t := BulkIn(st.transfers, Max(size, 64));
      var ts := Tail(st.transfers);
      if t.None? then Step([], [], false, State([], ts))
      else
        var n := Min(|t.value|, size);
        Step(t.value[..n], t.value, true, State(t.value[n..], ts))
  }

  /** `fill_buf`: shows what is pending, after one transfer if nothing is. */
  function FillStep(st: State): Step {
    if st.pending != [] then Step([], [], true, st)
    else
      var t := BulkIn(st.transfers, USB_READ_BUF);
      var ts := Tail(st.transfers);
      if t.None? then Step([], [], false, State([], ts)) else Step([], t.value, true, State(t.value, ts))
  }

  /** `consume`: takes what `fill_buf` showed, clamped to what is there. */
  function ConsumeStep(st: State, amount: nat): Step {
    var n := Min(amount, |st.pending|);
    Step(st.pending[..n], [], true, st.(pending := st.pending[n..]))
  }

  function Do(st: State, call: Call): Step {
    match call
    case Read(size) => ReadStep(st, size)
    case FillBuf => FillStep(st)
    case Consume(amount) => ConsumeStep(st, amount)
  }

  /** The bytes taken and received over a whole run of calls. */
  function Run(st: State, calls: seq<Call>): Step
    decreases |calls|
  {
    if calls == [] then Step([], [], true, st)
    else
      var first := Do(st, calls[0]);
      var rest := Run(first.state, calls[1..]);
      Step(first.taken + rest.taken, first.arrived + rest.arrived, first.ok && rest.ok, rest.state)
  }

  lemma StepLosesNothing(st: State, call: Call)
    ensures var s := Do(st, call); s.taken + s.state.pending == st.pending + s.arrived
  {
  }

  /**
   * Nothing is lost, repeated or reordered: over every mix of calls, the bytes taken followed by the
   * bytes still buffered are the bytes buffered at first followed by all bytes received.
   */
  lemma {:induction false} NothingIsLost(st: State, calls: seq<Call>)
    ensures var r := Run(st, calls); r.taken + r.state.pending == st.pending + r.arrived
    decreases |calls|
  {
    if calls != [] {
      var first := Do(st, calls[0]);
      var rest := Run(first.state, calls[1..]);
      StepLosesNothing(st, calls[0]);
      NothingIsLost(first.state, calls[1..]);
      Chain(first.taken, rest.taken, rest.state.pending, first.state.pending, rest.arrived, st.pending, first.arrived);
    } else {
      assert [] + st.pending == st.pending + [];
    }
  }

  lemma Chain(t0: seq<byte>, t1: seq<byte>, p1: seq<byte>, p0: seq<byte>, a1: seq<byte>, p: seq<byte>, a0: seq<byte>)
    requires t1 + p1 == p0 + a1 && t0 + p0 == p + a0
    ensures (t0 + t1) + p1 == p + (a0 + a1)
  {
    assert (t0 + t1) + p1 == t0 + (t1 + p1) == (t0 + p0) + a1;
  }

  /** The next transfer comes and has at most `most` bytes. */
  predicate Comes(transfers: seq<Option<seq<byte>>>, most: nat) {
    transfers != [] && transfers[0].Some? && |transfers[0].value| <= most
  }

  /**
   * What each call takes and which transfers it works with: whatever is pending comes first and costs no
   * transfer; behind it a read works with one transfer of up to 64 bytes, or up to its own size if that is
   * more, and takes as much of it as it asked for; a look works with one of up to 4096 and takes nothing.
   */
  lemma CallsAreExact(st: State, n: nat)
    ensures st.pending != [] ==>
              && Do(st, Read(n)) == Do(st, Consume(n)) && Do(st, FillBuf) == Step([], [], true, st)
    ensures Do(st, Consume(n)).taken == st.pending[..Min(n, |st.pending|)] && Do(st, Consume(n)).ok
    ensures st.pending == [] ==>
              && (Do(st, Read(n)).ok <==> Comes(st.transfers, if n > 64 then n else 64))
              && (Do(st, Read(n)).ok ==>
                    && Do(st, Read(n)).state.transfers == st.transfers[1..]
                    && Do(st, Read(n)).taken == st.transfers[0].value[..Min(n, |st.transfers[0].value|)])
              && (Do(st, FillBuf).ok <==> Comes(st.transfers, 4096))
              && (Do(st, FillBuf).ok ==>
                    var t := st.transfers[0].value; Do(st, FillBuf) == Step([], t, true, State(t, st.transfers[1..])))
  {
  }

  // ----- The calls make no difference -----

  /** All the device is going to send. */
  function Sent(transfers: seq<Option<seq<byte>>>): seq<byte> {
    if transfers == [] then []
    else (if transfers[0].Some? then transfers[0].value else []) + Sent(transfers[1..])
  }

  function All(st: State): seq<byte> {
    st.pending + Sent(st.transfers)
  }

  lemma StepKeepsAll(st: State, call: Call)
    requires Do(st, call).ok
    ensures var s := Do(st, call); s.taken + All(s.state) == All(st)
  {
    var s := Do(st, call);
    StepLosesNothing(st, call);
    if s.state.transfers == st.transfers {
      assert s.arrived == [] && s.taken + s.state.pending == st.pending;
      Assoc(s.taken, s.state.pending, Sent(st.transfers));
    } else {
      assert s.arrived == st.transfers[0].value;
      Assoc(s.taken, s.state.pending, Sent(s.state.transfers));
      Assoc(st.pending, s.arrived, Sent(s.state.transfers));
    }
  }

  /** Every mix of calls that work takes a prefix of one and the same stream and leaves exactly its rest. */
  lemma {:induction false} MixMakesNoDifference(st: State, calls: seq<Call>)
    requires Run(st, calls).ok
    ensures var r := Run(st, calls); r.taken + All(r.state) == All(st)
    decreases |calls|
  {
    if calls == [] {
      assert [] + All(st) == All(st);
    } else {
      var first := Do(st, calls[0]);
      StepKeepsAll(st, calls[0]);
      MixMakesNoDifference(first.state, calls[1..]);
      var rest := Run(first.state, calls[1..]);
      Assoc(first.taken, rest.taken, All(rest.state));
    }
  }

  /** So of any two mixes of calls, the one that takes less takes a prefix of what the other takes. */
  lemma MixesAgree(st: State, calls: seq<Call>, others: seq<Call>)
    requires Run(st, calls).ok && Run(st, others).ok
    requires |Run(st, calls).taken| <= |Run(st, others).taken|
    ensures Run(st, calls).taken <= Run(st, others).taken
  {
    MixMakesNoDifference(st, calls);
    MixMakesNoDifference(st, others);
    var r, o := Run(st, calls), Run(st, others);
    assert All(st)[..|r.taken|] == r.taken && All(st)[..|o.taken|] == o.taken;
  }

  /** A read works and takes nothing, as at the end of a file, exactly when an empty transfer comes next. */
  lemma EmptyTransferLooksLikeTheEnd(st: State, size: nat)
    requires size > 0
    ensures ReadStep(st, size).ok && ReadStep(st, size).taken == [] <==>
              st.pending == [] && st.transfers != [] && st.transfers[0] == Some([])
  {
  }
}

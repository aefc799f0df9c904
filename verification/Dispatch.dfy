/**
 * The shared USB connection as a step system: connecting and invalidating under the cache lock,
 * opening and dropping streams, and one reader per connection that routes what it decodes.
 * Steps of different threads interleave freely; what a lock makes atomic is one step, and what
 * happens while the cache lock is held is spread over several.
 */
module Dispatch {
  import opened Bytes
  import opened Adb
  import opened Wrappers

  datatype ReaderPc = AtTop | Reading | Stopping | Stopped

  /** A dispatcher: its shutdown flag, its reader and its registry. */
  datatype Conn = Conn(
    serial: string,
    shutdown: bool,
    pc: ReaderPc,
    streams: map<u32, nat>,    // local id to the open that registered it
    decoded: seq<Message>)     // everything the reader has decoded

  /** Allocated an id; registered; OPEN sent; accepted; taken out of the registry; receiver dropped. */
  datatype Phase = Allocated | Registered | OpenSent | Accepted | Unregistered | Dropped

  /** One adb_usb_open and the stream it yields. */
  datatype Open = Open(
    conn: nat,
    phase: Phase,
    received: seq<Message>,    // everything ever put into its channel
    from: nat,                 // length of the decoded log at registration
    sentAt: nat,               // and when OPEN was sent
    until: Option<nat>)        // and when its channel was cut off

  /** What the holder of the cache lock is doing. */
  datatype Lock =
    | Free
    | Connecting(serial: string)
    | Handshaking(serial: string)
    | Starting(conn: nat)
    | Invalidating(conn: nat)
    | Clearing(pending: set<nat>)

  datatype State = State(conns: seq<Conn>, cache: map<string, nat>, lock: Lock, opens: seq<Open>)

  const IDS: nat := 0x1_0000_0000

  /** The atomic counter starts at 1 and wraps. */
  function LocalId(k: nat): u32 {
    (k + 1) % 0x1_0000_0000
  }

  lemma LocalIdsDistinct(j: nat, k: nat)
    requires j < IDS && k < IDS
    ensures LocalId(j) == LocalId(k) <==> j == k
  {
    assert LocalId(j) == if j + 1 == IDS then 0 else j + 1;
    assert LocalId(k) == if k + 1 == IDS then 0 else k + 1;
  }

  datatype StepOf =
    | LockForConnect(serial: string)
    | Reuse
    | GoHandshake
    | HandshakeFails
    | StartDispatcher
    | InsertCached
    | LockForInvalidate(serial: string)
    | FinishInvalidate
    | LockForClear
    | ClearOne(conn: nat)
    | FinishClear
    | DropDispatcher(conn: nat)
    | CheckFlag(conn: nat)
    | Route(conn: nat, m: Message)
    | Idle(conn: nat)
    | Die(conn: nat)
    | ClearStreams(conn: nat)
    | Allocate(conn: nat)
    | Register(open: nat)
    | SendOpen(open: nat)
    | SendOpenFails(open: nat)
    | Accept(open: nat)
    | Unregister(open: nat)
    | DropReceiver(open: nat)

  /** Whether the lock holder still has the dispatcher in its hands. */
  predicate Held(s: State, c: nat) {
    match s.lock
    case Starting(d) => c == d
    case Invalidating(d) => c == d
    case Clearing(pending) => c in pending
    case _ => false
  }

  predicate Cached(s: State, c: nat)
    requires c < |s.conns|
  {
    s.conns[c].serial in s.cache && s.cache[s.conns[c].serial] == c
  }

  predicate Enabled(s: State, t: StepOf) {
    match t
    case LockForConnect(_) => s.lock.Free?
    case Reuse => s.lock.Connecting? && s.lock.serial in s.cache && s.cache[s.lock.serial] < |s.conns| &&
                  !s.conns[s.cache[s.lock.serial]].shutdown
    case GoHandshake =>
      s.lock.Connecting? &&
      (s.lock.serial in s.cache ==> (s.cache[s.lock.serial] < |s.conns| && s.conns[s.cache[s.lock.serial]].shutdown))
    case HandshakeFails => s.lock.Handshaking?
    case StartDispatcher => s.lock.Handshaking?
    case InsertCached => s.lock.Starting? && s.lock.conn < |s.conns|
    case LockForInvalidate(_) => s.lock.Free?
    case FinishInvalidate => s.lock.Invalidating? && s.lock.conn < |s.conns|
    case LockForClear => s.lock.Free?
    case ClearOne(c) => s.lock.Clearing? && c in s.lock.pending && c < |s.conns|
    case FinishClear => s.lock.Clearing? && s.lock.pending == {}
    case DropDispatcher(c) => c < |s.conns| && !Cached(s, c) && !Held(s, c)
    case CheckFlag(c) => c < |s.conns| && s.conns[c].pc == AtTop
    case Route(c, _) => c < |s.conns| && s.conns[c].pc == Reading
    case Idle(c) => c < |s.conns| && s.conns[c].pc == Reading
    case Die(c) => c < |s.conns| && s.conns[c].pc == Reading
    case ClearStreams(c) => c < |s.conns| && s.conns[c].pc == Stopping
    case Allocate(c) => c < |s.conns|
    case Register(k) => k < |s.opens| && s.opens[k].phase == Allocated && s.opens[k].conn < |s.conns|
    case SendOpen(k) => k < |s.opens| && s.opens[k].phase == Registered && s.opens[k].conn < |s.conns|
    case SendOpenFails(k) => k < |s.opens| && s.opens[k].phase == Registered && s.opens[k].conn < |s.conns|
    case Accept(k) => k < |s.opens| && s.opens[k].phase == OpenSent
    case Unregister(k) => k < |s.opens| && s.opens[k].phase in {OpenSent, Accepted} && s.opens[k].conn < |s.conns|
    case DropReceiver(k) => k < |s.opens| && s.opens[k].phase == Unregistered
  }

  function SetConn(s: State, c: nat, conn: Conn): State
    requires c < |s.conns|
  {
    s.(conns := s.conns[c := conn])
  }

  function SetOpen(s: State, k: nat, o: Open): State
    requires k < |s.opens|
  {
    s.(opens := s.opens[k := o])
  }

  function CutOff(o: Open, at: nat): Open {
    if o.until.None? then o.(until := Some(at)) else o
  }

  /** Every channel registered with the connection is cut off where its log ends. */
  function CutAll(opens: seq<Open>, c: nat, at: nat): seq<Open> {
    seq(|opens|, k requires 0 <= k < |opens| =>
      if opens[k].conn == c && opens[k].phase != Allocated then CutOff(opens[k], at) else opens[k])
  }

  /** Sends a message into the channel its target id is registered with, if its receiver still exists. */
  function Deliver(s: State, c: nat, m: Message): seq<Open>
    requires c < |s.conns|
  {
    var streams := s.conns[c].streams;
    if m.arg1 in streams && streams[m.arg1] < |s.opens| && s.opens[streams[m.arg1]].until.None? then
      var k := streams[m.arg1];
      s.opens[k := s.opens[k].(received := s.opens[k].received + [m])]
    else
      s.opens
  }

  function Apply(s: State, t: StepOf): State
    requires Enabled(s, t)
  {
    match t
    case LockForConnect(serial) => s.(lock := Connecting(serial))
    case Reuse => s.(lock := Free)
    case GoHandshake => s.(cache := s.cache - {s.lock.serial}, lock := Handshaking(s.lock.serial))
    case HandshakeFails => s.(cache := s.cache - {s.lock.serial}, lock := Free)
    case StartDispatcher =>
      s.(conns := s.conns + [Conn(s.lock.serial, false, AtTop, map[], [])], lock := Starting(|s.conns|))
    case InsertCached => s.(cache := s.cache[s.conns[s.lock.conn].serial := s.lock.conn], lock := Free)
    case LockForInvalidate(serial) =>
      if serial in s.cache then s.(cache := s.cache - {serial}, lock := Invalidating(s.cache[serial])) else s
    case FinishInvalidate =>
      SetConn(s, s.lock.conn, s.conns[s.lock.conn].(shutdown := true)).(lock := Free)
    case LockForClear => s.(cache := map[], lock := Clearing(s.cache.Values))
    case ClearOne(c) =>
      SetConn(s, c, s.conns[c].(shutdown := true)).(lock := Clearing(s.lock.pending - {c}))
    case FinishClear => s.(lock := Free)
    case DropDispatcher(c) => SetConn(s, c, s.conns[c].(shutdown := true))
    case CheckFlag(c) => SetConn(s, c, s.conns[c].(pc := if s.conns[c].shutdown then Stopping else Reading))
    case Route(c, m) =>
      SetConn(s, c, s.conns[c].(decoded := s.conns[c].decoded + [m], pc := AtTop)).(opens := Deliver(s, c, m))
    case Idle(c) => SetConn(s, c, s.conns[c].(pc := AtTop))
    case Die(c) => SetConn(s, c, s.conns[c].(shutdown := true, pc := Stopping))
    case ClearStreams(c) =>
      SetConn(s, c, s.conns[c].(streams := map[], pc := Stopped)).(opens := CutAll(s.opens, c, |s.conns[c].decoded|))
    case Allocate(c) => s.(opens := s.opens + [Open(c, Allocated, [], 0, 0, None)])
    case Register(k) =>
      var c := s.opens[k].conn;
      var s1 := SetConn(s, c, s.conns[c].(streams := s.conns[c].streams[LocalId(k) := k]));
      SetOpen(s1, k, s.opens[k].(phase := Registered, from := |s.conns[c].decoded|))
    case SendOpen(k) =>
      SetOpen(s, k, s.opens[k].(phase := OpenSent, sentAt := |s.conns[s.opens[k].conn].decoded|))
    case SendOpenFails(k) =>
      SetOpen(s, k, CutOff(s.opens[k], |s.conns[s.opens[k].conn].decoded|).(phase := Dropped))
    case Accept(k) => SetOpen(s, k, s.opens[k].(phase := Accepted))
    case Unregister(k) =>
      var c := s.opens[k].conn;
      var s1 := SetConn(s, c, s.conns[c].(streams := s.conns[c].streams - {LocalId(k)}));
      SetOpen(s1, k, CutOff(s.opens[k], |s.conns[c].decoded|).(phase := Unregistered))
    case DropReceiver(k) => SetOpen(s, k, s.opens[k].(phase := Dropped))
  }

  const START: State := State([], map[], Free, [])

  ghost predicate Possible(s: State, steps: seq<StepOf>)
    decreases |steps|
  {
    steps != [] ==> Enabled(s, steps[0]) && Possible(Apply(s, steps[0]), steps[1..])
  }

  function Run(s: State, steps: seq<StepOf>): State
    requires Possible(s, steps)
    decreases |steps|
  {
    if steps == [] then s else Run(Apply(s, steps[0]), steps[1..])
  }

  // ----- The cache -----

  ghost predicate CacheInv(s: State) {
    && (forall x <- s.cache :: s.cache[x] < |s.conns| && s.conns[s.cache[x]].serial == x)
    && (forall c :: 0 <= c < |s.conns| && !s.conns[c].shutdown ==> Cached(s, c) || Held(s, c))
    && (forall c: nat :: Held(s, c) ==> c < |s.conns| && s.conns[c].serial !in s.cache)
    && (forall c: nat, d: nat :: Held(s, c) && Held(s, d) && s.conns[c].serial == s.conns[d].serial ==> c == d)
    && (s.lock.Handshaking? ==> s.lock.serial !in s.cache)
  }

  /** Steps of readers and streams only ever raise shutdown flags. */
  lemma FlagsOnlyRise(s: State, s1: State)
    requires CacheInv(s) && s1.cache == s.cache && s1.lock == s.lock && |s1.conns| == |s.conns|
    requires forall c :: 0 <= c < |s.conns| ==>
               s1.conns[c].serial == s.conns[c].serial && (s.conns[c].shutdown ==> s1.conns[c].shutdown)
    ensures CacheInv(s1)
  {
    forall c: nat | c < |s1.conns| && !s1.conns[c].shutdown ensures Cached(s1, c) || Held(s1, c) {
      assert Cached(s, c) || Held(s, c);
    }
    assert forall c: nat :: Held(s1, c) ==> Held(s, c);
  }

  /** Steps that take an entry out of the cache, or none. */
  lemma ConnectKeepsCache(s: State, t: StepOf)
    requires CacheInv(s) && Enabled(s, t)
    requires t.LockForConnect? || t.Reuse? || t.GoHandshake? || t.HandshakeFails?
    ensures CacheInv(Apply(s, t))
  {
    var s1 := Apply(s, t);
    forall c: nat | c < |s1.conns| && !s1.conns[c].shutdown ensures Cached(s1, c) || Held(s1, c) {
      assert Cached(s, c) || Held(s, c);
    }
  }

  lemma StartKeepsCache(s: State)
    requires CacheInv(s) && s.lock.Handshaking?
    ensures CacheInv(Apply(s, StartDispatcher))
  {
    var s1 := Apply(s, StartDispatcher);
    forall c: nat | c < |s1.conns| && !s1.conns[c].shutdown ensures Cached(s1, c) || Held(s1, c) {
      if c < |s.conns| {
        assert Cached(s, c) || Held(s, c);
      }
    }
  }

  lemma InsertKeepsCache(s: State)
    requires CacheInv(s) && Enabled(s, InsertCached)
    ensures CacheInv(Apply(s, InsertCached))
  {
    var s1 := Apply(s, InsertCached);
    assert Held(s, s.lock.conn);
    forall c: nat | c < |s1.conns| && !s1.conns[c].shutdown ensures Cached(s1, c) || Held(s1, c) {
      assert Cached(s, c) || Held(s, c);
    }
  }

  lemma InvalidateKeepsCache(s: State, t: StepOf)
    requires CacheInv(s) && Enabled(s, t) && (t.LockForInvalidate? || t.FinishInvalidate?)
    ensures CacheInv(Apply(s, t))
  {
    var s1 := Apply(s, t);
    forall c: nat | c < |s1.conns| && !s1.conns[c].shutdown ensures Cached(s1, c) || Held(s1, c) {
      assert Cached(s, c) || Held(s, c);
    }
  }

  lemma ClearKeepsCache(s: State, t: StepOf)
    requires CacheInv(s) && Enabled(s, t) && (t.LockForClear? || t.ClearOne? || t.FinishClear?)
    ensures CacheInv(Apply(s, t))
  {
    var s1 := Apply(s, t);
    forall c: nat | c < |s1.conns| && !s1.conns[c].shutdown ensures Cached(s1, c) || Held(s1, c) {
      assert Cached(s, c) || Held(s, c);
      assert t.LockForClear? ==> s.cache[s.conns[c].serial] in s.cache.Values;
    }
    forall c: nat | Held(s1, c) ensures t.LockForClear? ==> c < |s.conns| && Cached(s, c) {
      if t.LockForClear? {
        var x :| x in s.cache && s.cache[x] == c;
      }
    }
    assert !t.LockForClear? ==> forall c: nat :: Held(s1, c) ==> Held(s, c);
  }

  lemma StepKeepsCache(s: State, t: StepOf)
    requires CacheInv(s) && Enabled(s, t)
    ensures CacheInv(Apply(s, t))
  {
    match t {
      case LockForConnect(_) | Reuse | GoHandshake | HandshakeFails => ConnectKeepsCache(s, t);
      case StartDispatcher => StartKeepsCache(s);
      case InsertCached => InsertKeepsCache(s);
      case LockForInvalidate(_) | FinishInvalidate => InvalidateKeepsCache(s, t);
      case LockForClear | ClearOne(_) | FinishClear => ClearKeepsCache(s, t);
      case DropDispatcher(_) | CheckFlag(_) | Route(_, _) | Idle(_) | Die(_) | ClearStreams(_) => ReaderKeepsCache(s, t);
      case _ => StreamKeepsCache(s, t);
    }
  }

  predicate OfReader(t: StepOf) {
    t.DropDispatcher? || t.CheckFlag? || t.Route? || t.Idle? || t.Die? || t.ClearStreams?
  }

  predicate OfStream(t: StepOf) {
    t.Allocate? || t.Register? || t.SendOpen? || t.SendOpenFails? || t.Accept? || t.Unregister? || t.DropReceiver?
  }

  lemma ReaderKeepsCache(s: State, t: StepOf)
    requires CacheInv(s) && Enabled(s, t) && OfReader(t)
    ensures CacheInv(Apply(s, t))
  {
    FlagsOnlyRise(s, Apply(s, t));
  }

  lemma StreamKeepsCache(s: State, t: StepOf)
    requires CacheInv(s) && Enabled(s, t) && OfStream(t)
    ensures CacheInv(Apply(s, t))
  {
    FlagsOnlyRise(s, Apply(s, t));
  }

  lemma {:induction false} RunKeepsCache(s: State, steps: seq<StepOf>)
    requires CacheInv(s) && Possible(s, steps)
    ensures CacheInv(Run(s, steps))
    decreases |steps|
  {
    if steps != [] {
      StepKeepsCache(s, steps[0]);
      RunKeepsCache(Apply(s, steps[0]), steps[1..]);
    }
  }

  /**
   * In every run a dispatcher that has not been told to shut down is the cached one for its serial,
   * unless the lock holder is about to insert or stop it; so there is never more than one per serial.
   */
  lemma LiveDispatchersAreCached(steps: seq<StepOf>)
    requires Possible(START, steps)
    ensures var s := Run(START, steps);
            && (s.lock.Free? ==> forall c :: 0 <= c < |s.conns| && !s.conns[c].shutdown ==> Cached(s, c))
            && (forall c, d :: (0 <= c < |s.conns| && 0 <= d < |s.conns| && !s.conns[c].shutdown && !s.conns[d].shutdown &&
                                s.conns[c].serial == s.conns[d].serial) ==> c == d)
  {
    RunKeepsCache(START, steps);
    var s := Run(START, steps);
    forall c, d | 0 <= c < |s.conns| && 0 <= d < |s.conns| && !s.conns[c].shutdown && !s.conns[d].shutdown &&
                  s.conns[c].serial == s.conns[d].serial
      ensures c == d
    {
      assert Cached(s, c) || Held(s, c);
      assert Cached(s, d) || Held(s, d);
    }
  }

  // ----- Readers and their flags -----

  /** A reader that stops has raised its flag, or found it raised. */
  ghost predicate FlagInv(s: State) {
    forall c :: 0 <= c < |s.conns| && s.conns[c].pc in {Stopping, Stopped} ==> s.conns[c].shutdown
  }

  lemma StepKeepsFlags(s: State, t: StepOf)
    requires FlagInv(s) && Enabled(s, t)
    ensures FlagInv(Apply(s, t))
  {
  }

  lemma {:induction false} RunKeepsFlags(s: State, steps: seq<StepOf>)
    requires FlagInv(s) && Possible(s, steps)
    ensures FlagInv(Run(s, steps))
    decreases |steps|
  {
    if steps != [] {
      StepKeepsFlags(s, steps[0]);
      RunKeepsFlags(Apply(s, steps[0]), steps[1..]);
    }
  }

  predicate IsRunning(c: Conn) {
    c.pc == AtTop || c.pc == Reading
  }

  /**
   * In every run, whoever holds the lock to connect reuses a dispatcher exactly if there is one for that
   * serial that has not been told to shut down, and else connects anew; a dispatcher that is reused is for
   * that serial, and its reader runs.
   */
  lemma ReuseIsAlive(steps: seq<StepOf>)
    requires Possible(START, steps) && Run(START, steps).lock.Connecting?
    ensures var s := Run(START, steps); var serial := s.lock.serial;
            && (Enabled(s, Reuse) <==>
                  exists c :: 0 <= c < |s.conns| && s.conns[c].serial == serial && !s.conns[c].shutdown)
            && (Enabled(s, GoHandshake) <==> !Enabled(s, Reuse))
            && (Enabled(s, Reuse) ==>
                  && serial in s.cache && s.cache[serial] < |s.conns|
                  && s.conns[s.cache[serial]].serial == serial && IsRunning(s.conns[s.cache[serial]]))
  {
    RunKeepsCache(START, steps);
    RunKeepsFlags(START, steps);
    var s := Run(START, steps);
    forall c | 0 <= c < |s.conns| && !s.conns[c].shutdown ensures Cached(s, c) {
      assert Cached(s, c) || Held(s, c);
    }
  }

  /** The steps of one connection's reader. */
  predicate IsReadersStep(t: StepOf, c: nat) {
    t == CheckFlag(c) || t == Idle(c) || t == Die(c) || t == ClearStreams(c) || (t.Route? && t.conn == c)
  }

  function ReaderSteps(steps: seq<StepOf>, c: nat): nat {
    if steps == [] then 0 else (if IsReadersStep(steps[0], c) then 1 else 0) + ReaderSteps(steps[1..], c)
  }

  function StepsLeft(pc: ReaderPc): nat {
    match pc
    case Reading => 3
    case AtTop => 2
    case Stopping => 1
    case Stopped => 0
  }

  /** What a step does to a flagged connection: its reader comes closer to its end, or is left where it is. */
  ghost predicate WindsDown(c0: Conn, c1: Conn, readersStep: bool) {
    && c1.shutdown
    && StepsLeft(c1.pc) + (if readersStep then 1 else 0) <= StepsLeft(c0.pc)
    && (c1.decoded == c0.decoded
        || (c0.pc == Reading && c1.pc != Reading && c0.decoded < c1.decoded && |c1.decoded| == |c0.decoded| + 1))
  }

  lemma ReaderWindsDown(s: State, t: StepOf, c: nat)
    requires Enabled(s, t) && c < |s.conns| && s.conns[c].shutdown && OfReader(t)
    ensures var s1 := Apply(s, t); c < |s1.conns| && WindsDown(s.conns[c], s1.conns[c], IsReadersStep(t, c))
  {
  }

  lemma OthersWindDown(s: State, t: StepOf, c: nat)
    requires Enabled(s, t) && c < |s.conns| && s.conns[c].shutdown && !OfReader(t)
    ensures var s1 := Apply(s, t); c < |s1.conns| && WindsDown(s.conns[c], s1.conns[c], IsReadersStep(t, c))
  {
  }

  /**
   * A reader whose flag is up stops: in every run from there it decodes at most the one message it was
   * waiting for and takes at most three steps, and until it has stopped it can always take one.
   */
  lemma {:induction false} FlaggedReaderStops(s: State, steps: seq<StepOf>, c: nat)
    requires Possible(s, steps) && c < |s.conns| && s.conns[c].shutdown
    ensures var s1 := Run(s, steps);
            && c < |s1.conns| && s1.conns[c].shutdown
            && ReaderSteps(steps, c) + StepsLeft(s1.conns[c].pc) <= StepsLeft(s.conns[c].pc) <= 3
            && s.conns[c].decoded <= s1.conns[c].decoded
            && |s1.conns[c].decoded| <= |s.conns[c].decoded| + (if s.conns[c].pc == Reading then 1 else 0)
            && (s1.conns[c].pc == Stopped ||
                Enabled(s1, CheckFlag(c)) || Enabled(s1, Idle(c)) || Enabled(s1, ClearStreams(c)))
    decreases |steps|
  {
    if steps != [] {
      if OfReader(steps[0]) {
        ReaderWindsDown(s, steps[0], c);
      } else {
        OthersWindDown(s, steps[0], c);
      }
      FlaggedReaderStops(Apply(s, steps[0]), steps[1..], c);
    }
  }

  // ----- Routing -----

  /** The messages of a log that name a local id. */
  function Naming(log: seq<Message>, id: u32): seq<Message> {
    if log == [] then []
    else Naming(log[..|log| - 1], id) + (if log[|log| - 1].arg1 == id then [log[|log| - 1]] else [])
  }

  lemma NamingSnoc(log: seq<Message>, m: Message, from: nat, id: u32)
    requires from <= |log|
    ensures Naming((log + [m])[from..], id) == Naming(log[from..], id) + (if m.arg1 == id then [m] else [])
  {
    var part := (log + [m])[from..];
    assert part[..|part| - 1] == log[from..];
  }

  function EndOf(o: Open, c: Conn): nat {
    if o.until.None? then |c.decoded| else o.until.value
  }

  /** What an open's channel has received, exactly. */
  ghost predicate Channelled(o: Open, c: Conn, id: u32) {
    && o.from <= EndOf(o, c) <= |c.decoded|
    && o.received == Naming(c.decoded[o.from..EndOf(o, c)], id)
    && (o.phase in {OpenSent, Accepted} ==> o.from <= o.sentAt <= |c.decoded|)
  }

  ghost predicate OpenInv(s: State, k: nat)
    requires k < |s.opens|
  {
    var o := s.opens[k];
    && o.conn < |s.conns|
    && (o.phase == Allocated ==> o.until.None? && o.received == [])
    && (o.phase != Allocated ==>
          var c := s.conns[o.conn];
          && Channelled(o, c, LocalId(k))
          && (o.until.None? ==> LocalId(k) in c.streams && c.streams[LocalId(k)] == k)
          && (o.until.Some? && o.phase in {Registered, OpenSent, Accepted} ==> c.pc == Stopped))
  }

  ghost predicate EntryInv(s: State, c: nat, id: u32)
    requires c < |s.conns| && id in s.conns[c].streams
  {
    var k := s.conns[c].streams[id];
    && k < |s.opens| && s.opens[k].conn == c && s.opens[k].phase != Allocated && LocalId(k) == id
    && (s.opens[k].until.Some? ==> s.opens[k].phase == Dropped)
  }

  ghost predicate RouteInv(s: State) {
    && (forall k :: 0 <= k < |s.opens| ==> OpenInv(s, k))
    && (forall c, id :: 0 <= c < |s.conns| && id in s.conns[c].streams ==> EntryInv(s, c, id))
  }

  /** The registry entry under the id of open `k` is absent, its own, or without a receiver. */
  predicate IdFree(s: State, k: nat)
    requires k < |s.opens| && s.opens[k].conn < |s.conns|
  {
    var streams := s.conns[s.opens[k].conn].streams;
    LocalId(k) in streams ==>
      streams[LocalId(k)] == k || (streams[LocalId(k)] < |s.opens| && s.opens[streams[LocalId(k)]].until.Some?)
  }

  /** A step that touches a registry entry does not take it from an open that still listens. */
  predicate Guarded(s: State, t: StepOf)
    requires Enabled(s, t)
  {
    t.Register? || t.Unregister? ==> IdFree(s, t.open)
  }

  /** Steps that leave registries, logs and opens alone and stop no reader. */
  lemma RoutingUntouched(s: State, s1: State)
    requires RouteInv(s) && s1.opens == s.opens && |s1.conns| >= |s.conns|
    requires forall c :: 0 <= c < |s.conns| ==>
               s1.conns[c].streams == s.conns[c].streams && s1.conns[c].decoded == s.conns[c].decoded &&
               (s.conns[c].pc == Stopped ==> s1.conns[c].pc == Stopped)
    requires forall c :: |s.conns| <= c < |s1.conns| ==> s1.conns[c].streams == map[]
    ensures RouteInv(s1)
  {
    forall k | 0 <= k < |s1.opens| ensures OpenInv(s1, k) {
      assert OpenInv(s, k);
    }
    forall c, id | 0 <= c < |s1.conns| && id in s1.conns[c].streams ensures EntryInv(s1, c, id) {
      assert EntryInv(s, c, id);
    }
  }

  /** Decoding `m` changes what a channel must hold by `m`, if it names it and the channel is open. */
  lemma LogGrows(o: Open, c: Conn, m: Message, id: u32)
    requires Channelled(o, c, id)
    ensures var c1 := c.(decoded := c.decoded + [m], pc := AtTop);
            Channelled(if o.until.None? && m.arg1 == id then o.(received := o.received + [m]) else o, c1, id)
  {
    var log := c.decoded;
    if o.until.None? {
      NamingSnoc(log, m, o.from, id);
      assert log[o.from..|log|] == log[o.from..];
      assert (log + [m])[o.from..|log| + 1] == (log + [m])[o.from..];
    } else {
      assert (log + [m])[o.from..o.until.value] == log[o.from..o.until.value];
    }
  }

  /** A message goes to the open registered under its target, on that connection only. */
  lemma DeliverHits(s: State, c: nat, m: Message, k: nat)
    requires RouteInv(s) && c < |s.conns| && k < |s.opens|
    ensures var o := s.opens[k];
            |Deliver(s, c, m)| == |s.opens| &&
            Deliver(s, c, m)[k] ==
              if o.conn == c && o.phase != Allocated && o.until.None? && m.arg1 == LocalId(k)
              then o.(received := o.received + [m]) else o
  {
    assert OpenInv(s, k);
    if m.arg1 in s.conns[c].streams {
      assert EntryInv(s, c, m.arg1);
    }
  }

  lemma RouteKeeps(s: State, c: nat, m: Message)
    requires RouteInv(s) && Enabled(s, Route(c, m))
    ensures RouteInv(Apply(s, Route(c, m)))
  {
    var s1 := Apply(s, Route(c, m));
    DeliverLength(s, c, m);
    forall k | 0 <= k < |s1.opens| ensures OpenInv(s1, k) {
      DeliverHits(s, c, m, k);
      assert OpenInv(s, k);
      if s.opens[k].conn == c && s.opens[k].phase != Allocated {
        LogGrows(s.opens[k], s.conns[c], m, LocalId(k));
      }
    }
    forall d, id | 0 <= d < |s1.conns| && id in s1.conns[d].streams ensures EntryInv(s1, d, id) {
      assert EntryInv(s, d, id);
      DeliverHits(s, c, m, s.conns[d].streams[id]);
    }
  }

  lemma DeliverLength(s: State, c: nat, m: Message)
    requires c < |s.conns|
    ensures |Deliver(s, c, m)| == |s.opens|
  {
  }

  lemma ClearKeeps(s: State, c: nat)
    requires RouteInv(s) && Enabled(s, ClearStreams(c))
    ensures RouteInv(Apply(s, ClearStreams(c)))
  {
    var s1 := Apply(s, ClearStreams(c));
    forall k | 0 <= k < |s1.opens| ensures OpenInv(s1, k) {
      assert OpenInv(s, k);
    }
    forall d, id | 0 <= d < |s1.conns| && id in s1.conns[d].streams ensures EntryInv(s1, d, id) {
      assert EntryInv(s, d, id);
    }
  }

  lemma RegisterKeeps(s: State, k: nat)
    requires RouteInv(s) && Enabled(s, Register(k)) && IdFree(s, k)
    ensures RouteInv(Apply(s, Register(k)))
  {
    var s1 := Apply(s, Register(k));
    var c := s.opens[k].conn;
    assert s.conns[c].decoded[|s.conns[c].decoded|..|s.conns[c].decoded|] == [];
    assert OpenInv(s, k);
    forall j | 0 <= j < |s1.opens| ensures OpenInv(s1, j) {
      assert OpenInv(s, j);
    }
    forall d, id | 0 <= d < |s1.conns| && id in s1.conns[d].streams ensures EntryInv(s1, d, id) {
      if d != c || id != LocalId(k) {
        assert EntryInv(s, d, id);
      }
    }
  }

  lemma UnregisterKeeps(s: State, k: nat)
    requires RouteInv(s) && Enabled(s, Unregister(k)) && IdFree(s, k)
    ensures RouteInv(Apply(s, Unregister(k)))
  {
    var s1 := Apply(s, Unregister(k));
    assert OpenInv(s, k);
    forall j | 0 <= j < |s1.opens| ensures OpenInv(s1, j) {
      assert OpenInv(s, j);
    }
    forall d, id | 0 <= d < |s1.conns| && id in s1.conns[d].streams ensures EntryInv(s1, d, id) {
      assert EntryInv(s, d, id);
    }
  }

  /** Steps that only move opens on leave the registries and the logs alone. */
  lemma PhaseKeeps(s: State, k: nat, o: Open)
    requires RouteInv(s) && k < |s.opens|
    requires OpenInv(SetOpen(s, k, o), k) && o.conn == s.opens[k].conn && o.phase != Allocated
    requires o.until.Some? ==> o.phase == Dropped || s.opens[k].until.Some?
    requires s.opens[k].phase == Dropped ==> o.phase == Dropped
    ensures RouteInv(SetOpen(s, k, o))
  {
    var s1 := SetOpen(s, k, o);
    forall j | 0 <= j < |s1.opens| ensures OpenInv(s1, j) {
      assert OpenInv(s, j);
    }
    forall c, id | 0 <= c < |s1.conns| && id in s1.conns[c].streams ensures EntryInv(s1, c, id) {
      assert EntryInv(s, c, id);
    }
  }

  lemma SendKeeps(s: State, t: StepOf)
    requires RouteInv(s) && Enabled(s, t) && (t.SendOpen? || t.SendOpenFails?)
    ensures RouteInv(Apply(s, t))
  {
    assert OpenInv(s, t.open);
    PhaseKeeps(s, t.open, Apply(s, t).opens[t.open]);
  }

  lemma TailKeeps(s: State, t: StepOf)
    requires RouteInv(s) && Enabled(s, t) && (t.Accept? || t.DropReceiver?)
    ensures RouteInv(Apply(s, t))
  {
    assert OpenInv(s, t.open);
    PhaseKeeps(s, t.open, Apply(s, t).opens[t.open]);
  }

  lemma AllocateKeeps(s: State, c: nat)
    requires RouteInv(s) && Enabled(s, Allocate(c))
    ensures RouteInv(Apply(s, Allocate(c)))
  {
    var s1 := Apply(s, Allocate(c));
    forall k | 0 <= k < |s1.opens| ensures OpenInv(s1, k) {
      if k < |s.opens| {
        assert OpenInv(s, k);
      }
    }
    forall d, id | 0 <= d < |s1.conns| && id in s1.conns[d].streams ensures EntryInv(s1, d, id) {
      assert EntryInv(s, d, id);
    }
  }

  lemma LockKeepsRouting(s: State, t: StepOf)
    requires RouteInv(s) && Enabled(s, t) && !OfReader(t) && !OfStream(t)
    ensures RouteInv(Apply(s, t))
  {
    RoutingUntouched(s, Apply(s, t));
  }

  lemma ReaderKeepsRouting(s: State, t: StepOf)
    requires RouteInv(s) && Enabled(s, t) && OfReader(t)
    ensures RouteInv(Apply(s, t))
  {
    if t.Route? {
      RouteKeeps(s, t.conn, t.m);
    } else if t.ClearStreams? {
      ClearKeeps(s, t.conn);
    } else {
      RoutingUntouched(s, Apply(s, t));
    }
  }

  lemma StreamKeepsRouting(s: State, t: StepOf)
    requires RouteInv(s) && Enabled(s, t) && Guarded(s, t) && OfStream(t)
    ensures RouteInv(Apply(s, t))
  {
    match t {
      case Register(k) => RegisterKeeps(s, k);
      case Unregister(k) => UnregisterKeeps(s, k);
      case SendOpen(_) | SendOpenFails(_) => SendKeeps(s, t);
      case Accept(_) | DropReceiver(_) => TailKeeps(s, t);
      case Allocate(c) => AllocateKeeps(s, c);
    }
  }

  lemma StepKeepsRouting(s: State, t: StepOf)
    requires RouteInv(s) && Enabled(s, t) && Guarded(s, t)
    ensures RouteInv(Apply(s, t))
  {
    if OfReader(t) {
      ReaderKeepsRouting(s, t);
    } else if OfStream(t) {
      StreamKeepsRouting(s, t);
    } else {
      LockKeepsRouting(s, t);
    }
  }

  /** An unguarded step takes the entry of an open that still listens. */
  lemma UnguardedBreaks(s: State, t: StepOf)
    requires RouteInv(s) && Enabled(s, t) && !Guarded(s, t)
    ensures !RouteInv(Apply(s, t))
  {
    var c, id := s.opens[t.open].conn, LocalId(t.open);
    var j := s.conns[c].streams[id];
    assert EntryInv(s, c, id);
    assert !OpenInv(Apply(s, t), j);
  }

  /** The guard is exactly what routing needs. */
  lemma GuardIsExact(s: State, t: StepOf)
    requires RouteInv(s) && Enabled(s, t)
    ensures RouteInv(Apply(s, t)) <==> Guarded(s, t)
  {
    if Guarded(s, t) {
      StepKeepsRouting(s, t);
    } else {
      UnguardedBreaks(s, t);
    }
  }

  lemma OpensGrow(s: State, t: StepOf)
    requires Enabled(s, t)
    ensures |Apply(s, t).opens| >= |s.opens|
  {
  }

  lemma {:induction false} OpensGrowAll(s: State, steps: seq<StepOf>)
    requires Possible(s, steps)
    ensures |Run(s, steps).opens| >= |s.opens|
    decreases |steps|
  {
    if steps != [] {
      OpensGrow(s, steps[0]);
      OpensGrowAll(Apply(s, steps[0]), steps[1..]);
    }
  }

  /** A possible run in which no open takes the registry entry of another that still listens. */
  ghost predicate Sound(s: State, steps: seq<StepOf>)
    decreases |steps|
  {
    steps != [] ==> Enabled(s, steps[0]) && Guarded(s, steps[0]) && Sound(Apply(s, steps[0]), steps[1..])
  }

  lemma {:induction false} SoundIsPossible(s: State, steps: seq<StepOf>)
    requires Sound(s, steps)
    ensures Possible(s, steps)
    decreases |steps|
  {
    if steps != [] {
      SoundIsPossible(Apply(s, steps[0]), steps[1..]);
    }
  }

  lemma {:induction false} RunKeepsRouting(s: State, steps: seq<StepOf>)
    requires RouteInv(s) && Sound(s, steps)
    ensures Possible(s, steps) && RouteInv(Run(s, steps))
    decreases |steps|
  {
    if steps != [] {
      StepKeepsRouting(s, steps[0]);
      RunKeepsRouting(Apply(s, steps[0]), steps[1..]);
    }
  }

  /** With at most 2^32 opens, every run is of this kind, because no id is given out twice. */
  lemma {:induction false} FewOpensAreSound(s: State, steps: seq<StepOf>)
    requires RouteInv(s) && Possible(s, steps) && |Run(s, steps).opens| <= IDS
    ensures Sound(s, steps)
    decreases |steps|
  {
    if steps != [] {
      OpensGrowAll(s, steps);
      FewOpensAreGuarded(s, steps[0]);
      StepKeepsRouting(s, steps[0]);
      FewOpensAreSound(Apply(s, steps[0]), steps[1..]);
    }
  }

  lemma FewOpensAreGuarded(s: State, t: StepOf)
    requires RouteInv(s) && Enabled(s, t) && |s.opens| <= IDS
    ensures Guarded(s, t)
  {
    if t.Register? || t.Unregister? {
      var c, id := s.opens[t.open].conn, LocalId(t.open);
      if id in s.conns[c].streams {
        assert EntryInv(s, c, id);
        LocalIdsDistinct(s.conns[c].streams[id], t.open);
      }
    }
  }

  /**
   * Routing, over every run in which no listening id is reused: a channel has received exactly the messages of
   * its own connection that name its id, in wire order, from its registration until it was cut off.
   */
  lemma ChannelsHoldTheirMessages(steps: seq<StepOf>, k: nat)
    requires Sound(START, steps) && Possible(START, steps)
    requires var s := Run(START, steps); k < |s.opens| && s.opens[k].phase != Allocated
    ensures var s := Run(START, steps); var o := s.opens[k];
            && o.conn < |s.conns|
            && o.from <= EndOf(o, s.conns[o.conn]) <= |s.conns[o.conn].decoded|
            && o.received == Naming(s.conns[o.conn].decoded[o.from..EndOf(o, s.conns[o.conn])], LocalId(k))
  {
    RunKeepsRouting(START, steps);
    assert OpenInv(Run(START, steps), k);
  }

  /**
   * No reply to an OPEN is discarded: while the opener or its stream still listens and the reader
   * runs, its channel holds every message naming it that was decoded since the OPEN was sent, and
   * the next one will be added to it and to no other channel.
   */
  lemma RepliesReachTheirOpener(steps: seq<StepOf>, k: nat, m: Message)
    requires Sound(START, steps) && Possible(START, steps)
    requires var s := Run(START, steps);
             k < |s.opens| && s.opens[k].phase in {OpenSent, Accepted} && m.arg1 == LocalId(k)
    ensures var s := Run(START, steps); var o := s.opens[k];
            && o.conn < |s.conns|
            && (s.conns[o.conn].pc != Stopped ==>
                  && o.from <= o.sentAt <= |s.conns[o.conn].decoded|
                  && o.received == Naming(s.conns[o.conn].decoded[o.from..], LocalId(k)))
            && (Enabled(s, Route(o.conn, m)) ==>
                  Apply(s, Route(o.conn, m)).opens == s.opens[k := o.(received := o.received + [m])])
  {
    RunKeepsRouting(START, steps);
    var s := Run(START, steps);
    assert OpenInv(s, k);
    var o := s.opens[k];
    var log := s.conns[o.conn].decoded;
    assert log[o.from..|log|] == log[o.from..];
  }

  /** ClearStreams of connection `c` comes behind the registration of open `k`. */
  predicate Cleared(steps: seq<StepOf>, k: nat, c: nat) {
    steps != [] &&
    var init, last := steps[..|steps| - 1], steps[|steps| - 1];
    Cleared(init, k, c) || (last == ClearStreams(c) && Register(k) in init)
  }

  lemma {:induction false} ClearedIsRegistered(steps: seq<StepOf>, k: nat, c: nat)
    requires Cleared(steps, k, c)
    ensures Register(k) in steps
  {
    var init := steps[..|steps| - 1];
    if Cleared(init, k, c) {
      ClearedIsRegistered(init, k, c);
    }
    assert steps == init + [steps[|steps| - 1]];
  }

  /** What the steps so far tell of an open that has been registered and nothing more. */
  ghost predicate History(s: State, steps: seq<StepOf>, k: nat) {
    && (Register(k) in steps <==> k < |s.opens| && s.opens[k].phase != Allocated)
    && (k < |s.opens| && s.opens[k].phase == Registered ==>
          (s.opens[k].until.Some? <==> Cleared(steps, k, s.opens[k].conn)))
  }

  lemma StepKeepsHistory(s: State, steps: seq<StepOf>, t: StepOf, k: nat)
    requires RouteInv(s) && History(s, steps, k) && Enabled(s, t)
    ensures History(Apply(s, t), steps + [t], k)
  {
    if OfReader(t) {
      ReaderKeepsHistory(s, steps, t, k);
    } else if OfStream(t) {
      StreamKeepsHistory(s, steps, t, k);
    } else {
      assert (steps + [t])[..|steps|] == steps;
    }
  }

  lemma ReaderKeepsHistory(s: State, steps: seq<StepOf>, t: StepOf, k: nat)
    requires RouteInv(s) && History(s, steps, k) && Enabled(s, t) && OfReader(t)
    ensures History(Apply(s, t), steps + [t], k)
  {
    assert (steps + [t])[..|steps|] == steps;
    if t.Route? {
      DeliverLength(s, t.conn, t.m);
    }
  }

  lemma StreamKeepsHistory(s: State, steps: seq<StepOf>, t: StepOf, k: nat)
    requires RouteInv(s) && History(s, steps, k) && Enabled(s, t) && OfStream(t)
    ensures History(Apply(s, t), steps + [t], k)
  {
    assert (steps + [t])[..|steps|] == steps;
    if k < |s.opens| {
      assert OpenInv(s, k);
      if Cleared(steps, k, s.opens[k].conn) {
        ClearedIsRegistered(steps, k, s.opens[k].conn);
      }
    }
  }

  lemma {:induction false} RunKeepsHistory(steps: seq<StepOf>, n: nat, k: nat)
    requires Sound(START, steps) && Possible(START, steps) && n <= |steps|
    ensures Possible(START, steps[..n])
    ensures History(Run(START, steps[..n]), steps[..n], k)
  {
    RunPrefix(START, steps, n);
    if n > 0 {
      RunKeepsHistory(steps, n - 1, k);
      RunPrefix(START, steps, n - 1);
      RunSnoc(START, steps, n - 1);
      var s := Run(START, steps[..n - 1]);
      SoundPrefix(START, steps, n - 1);
      RunKeepsRouting(START, steps[..n - 1]);
      StepKeepsHistory(s, steps[..n - 1], steps[n - 1], k);
      assert steps[..n] == steps[..n - 1] + [steps[n - 1]];
    }
  }

  lemma {:induction false} SoundPrefix(s: State, steps: seq<StepOf>, n: nat)
    requires Sound(s, steps) && n <= |steps|
    ensures Sound(s, steps[..n])
    decreases n
  {
    if n > 0 {
      assert steps[..n][1..] == steps[1..][..n - 1];
      SoundPrefix(Apply(s, steps[0]), steps[1..], n - 1);
    }
  }

  lemma {:induction false} RunPrefix(s: State, steps: seq<StepOf>, n: nat)
    requires Possible(s, steps) && n <= |steps|
    ensures Possible(s, steps[..n]) && |Run(s, steps[..n]).opens| <= |Run(s, steps).opens|
    decreases n
  {
    if n == 0 {
      OpensGrowAll(s, steps);
    } else {
      assert steps[..n][1..] == steps[1..][..n - 1];
      RunPrefix(Apply(s, steps[0]), steps[1..], n - 1);
    }
  }

  lemma {:induction false} RunSnoc(s: State, steps: seq<StepOf>, n: nat)
    requires Possible(s, steps) && n < |steps|
    ensures Possible(s, steps[..n]) && Possible(s, steps[..n + 1])
    ensures Enabled(Run(s, steps[..n]), steps[n])
    ensures Run(s, steps[..n + 1]) == Apply(Run(s, steps[..n]), steps[n])
    decreases n
  {
    if n == 0 {
      assert steps[..1][1..] == [];
    } else {
      assert steps[..n][1..] == steps[1..][..n - 1] && steps[..n + 1][1..] == steps[1..][..n];
      RunSnoc(Apply(s, steps[0]), steps[1..], n - 1);
    }
  }

  /**
   * An OPEN that could not be sent stays registered, in every run in which no listening id is reused,
   * exactly if its connection's reader has not cleared the registry since; what is then sent to its id is
   * found there and discarded for want of a receiver.
   */
  lemma FailedOpensStayRegistered(steps: seq<StepOf>, k: nat, m: Message)
    requires Sound(START, steps) && Possible(START, steps)
    requires Enabled(Run(START, steps), SendOpenFails(k)) && m.arg1 == LocalId(k)
    ensures var s1 := Apply(Run(START, steps), SendOpenFails(k)); var c := s1.opens[k].conn;
            && c < |s1.conns|
            && (LocalId(k) in s1.conns[c].streams && s1.conns[c].streams[LocalId(k)] == k <==> !Cleared(steps, k, c))
            && (!Cleared(steps, k, c) ==> Deliver(s1, c, m) == s1.opens)
            && (|s1.opens| <= IDS && Cleared(steps, k, c) ==> LocalId(k) !in s1.conns[c].streams)
  {
    var s := Run(START, steps);
    assert steps[..|steps|] == steps;
    RunKeepsHistory(steps, |steps|, k);
    RunKeepsRouting(START, steps);
    assert OpenInv(s, k);
    var c := s.opens[k].conn;
    if LocalId(k) in s.conns[c].streams {
      assert EntryInv(s, c, LocalId(k));
      if |s.opens| <= IDS {
        LocalIdsDistinct(s.conns[c].streams[LocalId(k)], k);
      }
    }
  }

  // ----- What becomes of an open -----

  /** The phase of an open is told by which of its steps have been taken. */
  predicate PhaseTold(phase: Phase, steps: seq<StepOf>, k: nat) {
    match phase
    case Allocated => Register(k) !in steps
    case Registered => Register(k) in steps && SendOpen(k) !in steps && SendOpenFails(k) !in steps
    case OpenSent => SendOpen(k) in steps && Accept(k) !in steps && Unregister(k) !in steps
    case Accepted => Accept(k) in steps && Unregister(k) !in steps
    case Unregistered => Unregister(k) in steps && DropReceiver(k) !in steps
    case Dropped => DropReceiver(k) in steps || SendOpenFails(k) in steps
  }

  /** No step is taken before those it needs. */
  predicate InOrder(steps: seq<StepOf>, k: nat) {
    && (SendOpen(k) in steps || SendOpenFails(k) in steps ==> Register(k) in steps)
    && !(SendOpen(k) in steps && SendOpenFails(k) in steps)
    && (Accept(k) in steps || Unregister(k) in steps ==> SendOpen(k) in steps)
    && (DropReceiver(k) in steps ==> Unregister(k) in steps)
  }

  ghost predicate Lifetime(s: State, steps: seq<StepOf>, k: nat) {
    && InOrder(steps, k)
    && (k >= |s.opens| ==> Register(k) !in steps)
    && (k < |s.opens| ==> PhaseTold(s.opens[k].phase, steps, k))
  }

  predicate IsOpensStep(t: StepOf, k: nat) {
    || t == Register(k) || t == SendOpen(k) || t == SendOpenFails(k)
    || t == Accept(k) || t == Unregister(k) || t == DropReceiver(k)
  }

  lemma OthersKeepPhase(s: State, t: StepOf, k: nat)
    requires Enabled(s, t) && !IsOpensStep(t, k) && k < |s.opens|
    ensures k < |Apply(s, t).opens| && Apply(s, t).opens[k].phase == s.opens[k].phase
  {
  }

  lemma OthersKeepLifetime(s: State, steps: seq<StepOf>, t: StepOf, k: nat)
    requires Enabled(s, t) && Lifetime(s, steps, k) && !IsOpensStep(t, k)
    ensures Lifetime(Apply(s, t), steps + [t], k)
  {
    OpensGrow(s, t);
    if k < |s.opens| {
      OthersKeepPhase(s, t, k);
    }
  }

  lemma OwnStepsKeepLifetime(s: State, steps: seq<StepOf>, t: StepOf, k: nat)
    requires Enabled(s, t) && Lifetime(s, steps, k) && IsOpensStep(t, k)
    ensures Lifetime(Apply(s, t), steps + [t], k)
  {
  }

  /** Over every run: an open goes through its phases in order, and is in the one its last step led to. */
  lemma {:induction false} OpensGoThroughPhases(steps: seq<StepOf>, k: nat)
    requires Possible(START, steps)
    ensures Lifetime(Run(START, steps), steps, k)
    decreases |steps|
  {
    if steps != [] {
      var n := |steps| - 1;
      assert steps[..n + 1] == steps && steps == steps[..n] + [steps[n]];
      RunSnoc(START, steps, n);
      OpensGoThroughPhases(steps[..n], k);
      if IsOpensStep(steps[n], k) {
        OwnStepsKeepLifetime(Run(START, steps[..n]), steps[..n], steps[n], k);
      } else {
        OthersKeepLifetime(Run(START, steps[..n]), steps[..n], steps[n], k);
      }
    }
  }

  // ----- Nobody is stuck -----

  /** The steps that bring the holder of the cache lock closer to letting it go. */
  predicate IsHoldersStep(t: StepOf) {
    || t.Reuse? || t.GoHandshake? || t.HandshakeFails? || t.StartDispatcher? || t.InsertCached?
    || t.FinishInvalidate? || t.ClearOne? || t.FinishClear?
  }

  /** How many of them it can still take. */
  function HoldersSteps(l: Lock): nat {
    match l
    case Free => 0
    case Connecting(_) => 4
    case Handshaking(_) => 3
    case Starting(_) => 1
    case Invalidating(_) => 1
    case Clearing(pending) => |pending| + 1
  }

  lemma HolderComesCloser(s: State, t: StepOf)
    requires Enabled(s, t) && IsHoldersStep(t)
    ensures HoldersSteps(Apply(s, t).lock) < HoldersSteps(s.lock)
  {
  }

  /**
   * No deadlock, in any run: the lock can be taken if it is free, and else its holder can take a step and
   * needs only so many until it lets go.
   */
  lemma NobodyIsStuck(steps: seq<StepOf>, serial: string)
    requires Possible(START, steps)
    ensures var s := Run(START, steps);
            && (s.lock.Free? ==>
                  Enabled(s, LockForConnect(serial)) && Enabled(s, LockForInvalidate(serial)) && Enabled(s, LockForClear))
            && (!s.lock.Free? ==>
                  exists t :: IsHoldersStep(t) && Enabled(s, t) && HoldersSteps(Apply(s, t).lock) < HoldersSteps(s.lock))
            && (s.lock.Handshaking? ==> Enabled(s, HandshakeFails) && Enabled(s, StartDispatcher))
  {
    RunKeepsCache(START, steps);
    var s := Run(START, steps);
    if !s.lock.Free? {
      var t := HoldersNext(s);
      HolderComesCloser(s, t);
    }
  }

  lemma HoldersNext(s: State) returns (t: StepOf)
    requires CacheInv(s) && !s.lock.Free?
    ensures IsHoldersStep(t) && Enabled(s, t)
  {
    match s.lock {
      case Connecting(serial) => t := if Enabled(s, Reuse) then Reuse else GoHandshake;
      case Handshaking(_) => t := StartDispatcher;
      case Starting(c) =>
        assert Held(s, c);
        t := InsertCached;
      case Invalidating(c) =>
        assert Held(s, c);
        t := FinishInvalidate;
      case Clearing(pending) =>
        t := FinishClear;
        if c :| c in pending {
          assert Held(s, c);
          t := ClearOne(c);
        }
    }
  }

  /** A reader that is not flagged goes on to read, and then takes whatever comes. */
  lemma ReadersGoOn(s: State, c: nat, m: Message)
    requires c < |s.conns|
    ensures s.conns[c].pc == AtTop && !s.conns[c].shutdown ==>
              Enabled(s, CheckFlag(c)) && Apply(s, CheckFlag(c)).conns[c].pc == Reading
    ensures s.conns[c].pc == Reading ==> Enabled(s, Route(c, m)) && Enabled(s, Idle(c)) && Enabled(s, Die(c))
  {
  }

  /** And an open can go on, or be given up, from wherever it is. */
  lemma OpensGoOn(steps: seq<StepOf>, k: nat)
    requires Possible(START, steps) && k < |Run(START, steps).opens|
    ensures var s := Run(START, steps);
            match s.opens[k].phase
            case Allocated => Enabled(s, Register(k))
            case Registered => Enabled(s, SendOpen(k)) && Enabled(s, SendOpenFails(k))
            case OpenSent => Enabled(s, Accept(k)) && Enabled(s, Unregister(k))
            case Accepted => Enabled(s, Unregister(k))
            case Unregistered => Enabled(s, DropReceiver(k))
            case Dropped => true
  {
    RunKeepsConns(START, steps);
    OpenGoesOn(Run(START, steps), k);
  }

  lemma OpenGoesOn(s: State, k: nat)
    requires ConnsInv(s) && k < |s.opens|
    ensures s.opens[k].phase == Allocated ==> Enabled(s, Register(k))
    ensures s.opens[k].phase == Registered ==> Enabled(s, SendOpen(k)) && Enabled(s, SendOpenFails(k))
    ensures s.opens[k].phase == OpenSent ==> Enabled(s, Accept(k)) && Enabled(s, Unregister(k))
    ensures s.opens[k].phase == Accepted ==> Enabled(s, Unregister(k))
    ensures s.opens[k].phase == Unregistered ==> Enabled(s, DropReceiver(k))
  {
  }

  /** An open belongs to a connection there is. */
  ghost predicate ConnsInv(s: State) {
    forall k :: 0 <= k < |s.opens| ==> s.opens[k].conn < |s.conns|
  }

  lemma {:induction false} RunKeepsConns(s: State, steps: seq<StepOf>)
    requires ConnsInv(s) && Possible(s, steps)
    ensures ConnsInv(Run(s, steps))
    decreases |steps|
  {
    if steps != [] {
      StepKeepsConns(s, steps[0]);
      RunKeepsConns(Apply(s, steps[0]), steps[1..]);
    }
  }

  lemma StepKeepsConns(s: State, t: StepOf)
    requires ConnsInv(s) && Enabled(s, t)
    ensures ConnsInv(Apply(s, t))
  {
  }

  // ----- Reusing the id of a listening open -----

  lemma IdsComeRound(k: nat)
    ensures LocalId(k + IDS) == LocalId(k)
  {
  }

  /**
   * Registering an open under the id of another that still listens misroutes: what the device sends to
   * that id then reaches the new open's channel, and never the other's.
   */
  lemma ReuseMisroutes(s: State, k: nat, m: Message)
    requires RouteInv(s) && Enabled(s, Register(k)) && !IdFree(s, k) && m.arg1 == LocalId(k)
    ensures var c := s.opens[k].conn; var j := s.conns[c].streams[LocalId(k)];
            var s1 := Apply(s, Register(k)); var opens := Deliver(s1, c, m);
            && j != k && j < |s.opens| && s.opens[j].until.None? && LocalId(j) == LocalId(k)
            && opens[k].received == s1.opens[k].received + [m] && opens[j].received == s.opens[j].received
  {
    assert OpenInv(s, k);
    assert EntryInv(s, s.opens[k].conn, LocalId(k));
  }

  /** `n` opens on connection `c`. */
  function Allocations(c: nat, n: nat): seq<StepOf> {
    if n == 0 then [] else [Allocate(c)] + Allocations(c, n - 1)
  }

  function Fresh(c: nat, n: nat): (opens: seq<Open>)
    ensures |opens| == n
  {
    seq(n, _ => Open(c, Allocated, [], 0, 0, None))
  }

  lemma {:induction false} AllocateMany(s: State, c: nat, n: nat, rest: seq<StepOf>)
    requires c < |s.conns|
    requires Possible(s.(opens := s.opens + Fresh(c, n)), rest)
    ensures Possible(s, Allocations(c, n) + rest)
    ensures Run(s, Allocations(c, n) + rest) == Run(s.(opens := s.opens + Fresh(c, n)), rest)
    decreases n
  {
    if n == 0 {
      assert s.opens + Fresh(c, 0) == s.opens && [] + rest == rest;
    } else {
      var s1 := Apply(s, Allocate(c));
      assert s1.opens + Fresh(c, n - 1) == s.opens + Fresh(c, n);
      assert Allocations(c, n) + rest == [Allocate(c)] + (Allocations(c, n - 1) + rest);
      AllocateMany(s1, c, n - 1, rest);
    }
  }

  /** One connection, and `n` opens on it that have not registered. */
  function Lap(serial: string, n: nat): State {
    State([Conn(serial, false, AtTop, map[], [])], map[serial := 0], Free, Fresh(0, n))
  }

  lemma LapRun(serial: string) returns (steps: seq<StepOf>)
    ensures Possible(START, steps) && Run(START, steps) == Apply(Lap(serial, IDS + 1), Register(0))
  {
    var s4 := Lap(serial, 0);
    assert s4.(opens := s4.opens + Fresh(0, IDS + 1)) == Lap(serial, IDS + 1);
    assert [Register(0)][1..] == [];
    AllocateMany(s4, 0, IDS + 1, [Register(0)]);
    Connected(serial, s4, Allocations(0, IDS + 1) + [Register(0)]);
    steps := ConnectSteps(serial) + (Allocations(0, IDS + 1) + [Register(0)]);
  }

  /**
   * It can happen: a possible run of 2^32 + 1 opens, after which the first listens and the last is about
   * to be registered under its id.
   */
  lemma SecondLapReuses(serial: string) returns (steps: seq<StepOf>)
    ensures Possible(START, steps)
    ensures var s := Run(START, steps);
            RouteInv(s) && |s.opens| == IDS + 1 && Enabled(s, Register(IDS)) && !IdFree(s, IDS)
  {
    steps := LapRun(serial);
    IdsComeRound(0);
    var full := Lap(serial, IDS + 1);
    FreshIsRouted(serial, IDS + 1);
    assert full.opens[0].phase == Allocated && full.opens[IDS].phase == Allocated;
    RegisterKeeps(full, 0);
  }

  lemma FreshIsRouted(serial: string, n: nat)
    ensures RouteInv(Lap(serial, n))
  {
    var s := Lap(serial, n);
    forall k | 0 <= k < n ensures OpenInv(s, k) {
      assert s.opens[k] == Open(0, Allocated, [], 0, 0, None);
    }
  }

  /** The steps of one connect. */
  function ConnectSteps(serial: string): seq<StepOf> {
    [LockForConnect(serial), GoHandshake, StartDispatcher, InsertCached]
  }

  lemma Connected(serial: string, s4: State, rest: seq<StepOf>)
    requires s4 == Lap(serial, 0)
    requires Possible(s4, rest)
    ensures Possible(START, ConnectSteps(serial) + rest) && Run(START, ConnectSteps(serial) + rest) == Run(s4, rest)
  {
    var s1 := Apply(START, LockForConnect(serial));
    var s2 := Apply(s1, GoHandshake);
    var s3 := Apply(s2, StartDispatcher);
    ConnectingLeads(serial);
    RunOne(s3, InsertCached, rest);
    RunOne(s2, StartDispatcher, [InsertCached] + rest);
    RunOne(s1, GoHandshake, [StartDispatcher] + ([InsertCached] + rest));
    RunOne(START, LockForConnect(serial), [GoHandshake] + ([StartDispatcher] + ([InsertCached] + rest)));
    OneByOne(LockForConnect(serial), GoHandshake, StartDispatcher, InsertCached, rest);
  }

  lemma ConnectingLeads(serial: string)
    ensures var s1 := Apply(START, LockForConnect(serial));
            && Enabled(s1, GoHandshake)
            && var s2 := Apply(s1, GoHandshake);
               && Enabled(s2, StartDispatcher)
               && var s3 := Apply(s2, StartDispatcher);
                  Enabled(s3, InsertCached) && Apply(s3, InsertCached) == Lap(serial, 0)
  {
    assert START.cache - {serial} == map[];
    assert Fresh(0, 0) == [];
  }

  lemma OneByOne(a: StepOf, b: StepOf, c: StepOf, d: StepOf, rest: seq<StepOf>)
    ensures [a, b, c, d] + rest == [a] + ([b] + ([c] + ([d] + rest)))
  {
  }

  lemma RunOne(s: State, t: StepOf, rest: seq<StepOf>)
    requires Enabled(s, t) && Possible(Apply(s, t), rest)
    ensures Possible(s, [t] + rest) && Run(s, [t] + rest) == Run(Apply(s, t), rest)
  {
    assert ([t] + rest)[1..] == rest;
  }
}

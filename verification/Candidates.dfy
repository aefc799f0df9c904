/** Scoring firmware programmers found on disk against the connected device. */
module Candidates {
  import opened Bytes
  import opened Wrappers
  import opened Text
  import opened Ranking

  const PKHASH_PREFIX_LEN: nat := 16

  /** Device keys and the path of the programmer used with each. */
  type Database = map<string, string>

  datatype Device = Device(hwId: string, pkHash: string)

  function MakeKey(d: Device): string {
    Lower(d.hwId) + ":" + Lower(d.pkHash)
  }

  function NormalizePath(p: string): string {
    var l := Lower(p);
    seq(|l|, i requires 0 <= i < |l| => if l[i] == '\\' then '/' else l[i])
  }

  function Prefix(s: string, n: nat): string {
    if |s| >= n then s[..n] else s
  }

  /** The first eight bytes of the raw identifier as a little-endian number, or the text if it has none. */
  function NormalizeHwid(raw: string): string {
    var hex := Lower(raw);
    var bytes := HexDecode(Prefix(hex, 16));
    if bytes.Some? && |bytes.value| >= 8 then HexDigits(BytesValue(bytes.value[..8]), 16) else hex
  }

  /** On sixteen lower-case digits it reverses the bytes, so doing it twice changes nothing. */
  lemma NormalizeTwice(s: string)
    requires |s| == 16 && AllLowerHex(s)
    ensures NormalizeHwid(s) == ReversePairs(s)
    ensures NormalizeHwid(NormalizeHwid(s)) == s
  {
    NormalizeReverses(s);
    ReversePairsHex(s);
    NormalizeReverses(ReversePairs(s));
    ReversePairsTwice(s);
  }

  lemma NormalizeReverses(s: string)
    requires |s| == 16 && AllLowerHex(s)
    ensures NormalizeHwid(s) == ReversePairs(s)
  {
    LittleEndianReverses(s);
    LowerHexUnchanged(s);
    assert s[..16] == s;
    var bytes := HexDecode(s).value;
    assert bytes[..8] == bytes;
  }

  lemma LowerHexUnchanged(s: string)
    requires AllLowerHex(s)
    ensures Lower(s) == s
  {
    forall i | 0 <= i < |s| ensures LowerChar(s[i]) == s[i] {
      assert s[i] in s;
    }
  }

  lemma {:induction false} ReversePairsHex(s: string)
    requires AllLowerHex(s)
    ensures AllLowerHex(ReversePairs(s))
  {
    if |s| >= 2 {
      assert forall c <- s[2..] :: c in s;
      ReversePairsHex(s[2..]);
      assert forall c <- s[..2] :: c in s;
    }
  }

  // ----- The rules -----

  predicate UsedWithDevice(c: Candidate, db: Database, d: Device) {
    MakeKey(d) in db && NormalizePath(db[MakeKey(d)]) == NormalizePath(c.path)
  }

  predicate UsedWithOther(c: Candidate, db: Database, d: Device) {
    exists key :: key in db && key != MakeKey(d) && NormalizePath(db[key]) == NormalizePath(c.path)
  }

  /** The hash prefixes agree, and so do the hardware identifiers unless the binary names none. */
  predicate IdentityMatches(i: Identity, d: Device) {
    && Prefix(Lower(i.pkHash), PKHASH_PREFIX_LEN) == Prefix(Lower(d.pkHash), PKHASH_PREFIX_LEN)
    && (i.hwId == "" || Lower(i.hwId) == Lower(d.hwId) || Lower(i.hwId) == NormalizeHwid(d.hwId))
  }

  predicate NameMatches(c: Candidate, d: Device) {
    var name, prefix := Lower(c.name), Prefix(Lower(d.pkHash), PKHASH_PREFIX_LEN);
    || (|d.hwId| >= 8 && Contains(name, Lower(d.hwId)))
    || (|prefix| >= 8 && Contains(name, prefix))
  }

  /** The condition for a level. */
  predicate Holds(l: MatchLevel, c: Candidate, db: Database, d: Device) {
    match l
    case DbExact => UsedWithDevice(c, db, d)
    case BinaryVerified => c.identity.Some? && IdentityMatches(c.identity.value, d)
    case FilenameMatch => NameMatches(c, d)
    case DbOtherDevice => UsedWithOther(c, db, d)
    case Unknown => true
  }

  /** The order in which the levels are considered, which is not that in which they are presented. */
  function Priority(l: MatchLevel): nat {
    match l
    case DbExact => 0
    case BinaryVerified => 1
    case FilenameMatch => 2
    case DbOtherDevice => 3
    case Unknown => 4
  }

  /** The level is the first whose condition holds. */
  ghost predicate FirstRule(l: MatchLevel, c: Candidate, db: Database, d: Device) {
    Holds(l, c, db, d) && forall k: MatchLevel :: Priority(k) < Priority(l) ==> !Holds(k, c, db, d)
  }

  ghost predicate Ruled(c: Candidate, db: Database, d: Device) {
    exists l: MatchLevel :: l != Unknown && Holds(l, c, db, d)
  }

  /** The level a candidate gets; one that no rule covers keeps the level it has. */
  function Score(c: Candidate, db: Database, d: Device): MatchLevel {
    if Holds(DbExact, c, db, d) then DbExact
    else if Holds(BinaryVerified, c, db, d) then BinaryVerified
    else if Holds(FilenameMatch, c, db, d) then FilenameMatch
    else if Holds(DbOtherDevice, c, db, d) then DbOtherDevice
    else c.level
  }

  /** The level is right, and then the only right one, exactly when a rule covers the candidate or it came without a level. */
  lemma ScoreIsFirstRule(c: Candidate, db: Database, d: Device)
    ensures FirstRule(Score(c, db, d), c, db, d) <==> Ruled(c, db, d) || c.level == Unknown
    ensures forall l: MatchLevel, k: MatchLevel :: FirstRule(l, c, db, d) && FirstRule(k, c, db, d) ==> l == k
  {
    forall l: MatchLevel, k: MatchLevel | FirstRule(l, c, db, d) && FirstRule(k, c, db, d) ensures l == k {
      assert !(Priority(l) < Priority(k)) && !(Priority(k) < Priority(l));
    }
    if Ruled(c, db, d) {
      var l: MatchLevel :| l != Unknown && Holds(l, c, db, d);
    } else {
      assert !Holds(DbExact, c, db, d) && !Holds(BinaryVerified, c, db, d);
      assert !Holds(FilenameMatch, c, db, d) && !Holds(DbOtherDevice, c, db, d);
    }
  }

  function Scored(s: seq<Candidate>, db: Database, d: Device): (r: seq<Candidate>)
    ensures |r| == |s|
  {
    seq(|s|, i requires 0 <= i < |s| => s[i].(level := Score(s[i], db, d)))
  }

  // ----- Scoring and sorting in place -----

  /**
   * The database is walked in any order; the result depends only on what it holds: every candidate with
   * its level, in the one stable order by level and name.
   */
  method ScoreCandidates(candidates: array<Candidate>, db: Database, d: Device)
    modifies candidates
    ensures candidates[..] == StableSort(Scored(old(candidates[..]), db, d))
  {
    var devicePaths, otherPaths := Paths(db, d);
    for i := 0 to candidates.Length
      invariant forall k :: 0 <= k < i ==> candidates[k] == Scored(old(candidates[..]), db, d)[k]
      invariant forall k :: i <= k < candidates.Length ==> candidates[k] == old(candidates[k])
    {
      var level := Level(candidates[i], db, d, devicePaths, otherPaths);
      candidates[i] := candidates[i].(level := level);
    }
    assert candidates[..] == Scored(old(candidates[..]), db, d);
    SortIsStable(candidates[..]);
    var sorted := StableSort(candidates[..]);
    forall i | 0 <= i < candidates.Length {
      candidates[i] := sorted[i];
    }
  }

  ghost predicate ArePaths(device: set<string>, other: set<string>, db: Database, d: Device) {
    && (forall p :: p in device <==> MakeKey(d) in db && NormalizePath(db[MakeKey(d)]) == p)
    && (forall p <- other :: exists key :: key in db && key != MakeKey(d) && NormalizePath(db[key]) == p)
    && (forall key <- db :: key != MakeKey(d) ==> NormalizePath(db[key]) in other)
  }

  method Paths(db: Database, d: Device) returns (device: set<string>, other: set<string>)
    ensures ArePaths(device, other, db, d)
  {
    device, other := {}, {};
    var keys := db.Keys;
    while keys != {}
      invariant keys <= db.Keys
      invariant forall p :: p in device <==> MakeKey(d) in db.Keys - keys && NormalizePath(db[MakeKey(d)]) == p
      invariant forall p <- other :: exists key :: key in db && key != MakeKey(d) && NormalizePath(db[key]) == p
      invariant forall key <- db.Keys - keys :: key != MakeKey(d) ==> NormalizePath(db[key]) in other
      decreases |keys|
    {
      var key :| key in keys;
      keys := keys - {key};
      if key == MakeKey(d) {
        device := device + {NormalizePath(db[key])};
      } else {
        other := other + {NormalizePath(db[key])};
      }
    }
  }

  method Level(c: Candidate, db: Database, d: Device, device: set<string>, other: set<string>)
    returns (l: MatchLevel)
    requires ArePaths(device, other, db, d)
    ensures l == Score(c, db, d)
  {
    var path := NormalizePath(c.path);
    if path in device {
      return DbExact;
    }
    if c.identity.Some? && IdentityMatches(c.identity.value, d) {
      return BinaryVerified;
    }
    if NameMatches(c, d) {
      return FilenameMatch;
    }
    l := if path in other then DbOtherDevice else c.level;
  }

  // ----- Scoring again -----

  predicate Settled(s: seq<Candidate>, db: Database, d: Device) {
    forall c <- s :: c.level == Score(c, db, d)
  }

  lemma ScoredIsSettled(s: seq<Candidate>, db: Database, d: Device)
    ensures Settled(Scored(s, db, d), db, d)
  {
    forall i | 0 <= i < |s| ensures Scored(s, db, d)[i].level == Score(Scored(s, db, d)[i], db, d) {
      ScoreIgnoresLevel(s[i], db, d);
    }
  }

  lemma ScoreIgnoresLevel(c: Candidate, db: Database, d: Device)
    ensures Score(c.(level := Score(c, db, d)), db, d) == Score(c, db, d)
  {
    var k := c.(level := Score(c, db, d));
    assert UsedWithOther(k, db, d) <==> UsedWithOther(c, db, d);
  }

  /** Scoring what was scored, with the same database and device, changes nothing. */
  lemma ScoringTwice(s: seq<Candidate>, db: Database, d: Device)
    ensures var once := StableSort(Scored(s, db, d)); StableSort(Scored(once, db, d)) == once
  {
    var scored := Scored(s, db, d);
    var once := StableSort(scored);
    ScoredIsSettled(s, db, d);
    SortIsStable(scored);
    forall c | c in once ensures c.level == Score(c, db, d) {
      assert c in multiset(once);
      assert c in scored;
    }
    assert Scored(once, db, d) == once;
    SortTwice(scored);
  }

  /** Nothing is lost or changed but the levels, and equals keep their order. */
  lemma ScoringPermutes(s: seq<Candidate>, db: Database, d: Device)
    ensures var r := StableSort(Scored(s, db, d));
            && multiset(r) == multiset(Scored(s, db, d)) && Sorted(r)
            && forall c :: TiedWith(r, c) == TiedWith(Scored(s, db, d), c)
  {
    SortIsStable(Scored(s, db, d));
  }

  /** A level from an earlier device stays on a candidate that no rule covers. */
  lemma StaleLevelStays()
    ensures var c := Candidate("a", "a", true, 1, DbExact, None);
            Scored([c], map[], Device("", "")) == [c] && !FirstRule(DbExact, c, map[], Device("", ""))
  {
    var c := Candidate("a", "a", true, 1, DbExact, None);
    assert Score(c, map[], Device("", "")) == DbExact;
  }
}

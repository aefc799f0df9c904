/** What the scoring rules and the order of the result mean, in terms of the texts compared. */
module Matching {
  import opened Wrappers
  import opened Text
  import opened Ranking
  import opened Candidates

  // ----- Texts -----

  /** The same character, or the two cases of one letter. */
  predicate SameChar(a: char, b: char) {
    || a == b
    || ('a' <= a <= 'z' && b as int + 32 == a as int)
    || ('a' <= b <= 'z' && a as int + 32 == b as int)
  }

  predicate SameText(a: string, b: string) {
    |a| == |b| && forall i :: 0 <= i < |a| ==> SameChar(a[i], b[i])
  }

  lemma LowerMeans(a: string, b: string)
    ensures Lower(a) == Lower(b) <==> SameText(a, b)
  {
    if Lower(a) == Lower(b) {
      forall i | 0 <= i < |a| ensures SameChar(a[i], b[i]) {
        assert LowerChar(a[i]) == Lower(a)[i] == Lower(b)[i] == LowerChar(b[i]);
      }
    } else if |a| == |b| {
      var i :| 0 <= i < |a| && Lower(a)[i] != Lower(b)[i];
      assert LowerChar(a[i]) != LowerChar(b[i]);
      assert !SameChar(a[i], b[i]);
    }
  }

  predicate IsSlash(c: char) {
    c == '/' || c == '\\'
  }

  /** The same path, whatever the case of its letters and the direction of its slashes. */
  predicate SamePath(a: string, b: string) {
    |a| == |b| && forall i :: 0 <= i < |a| ==> SameChar(a[i], b[i]) || (IsSlash(a[i]) && IsSlash(b[i]))
  }

  lemma PathMeans(a: string, b: string)
    ensures NormalizePath(a) == NormalizePath(b) <==> SamePath(a, b)
  {
    var x, y := NormalizePath(a), NormalizePath(b);
    if x == y {
      forall i | 0 <= i < |a| ensures SameChar(a[i], b[i]) || (IsSlash(a[i]) && IsSlash(b[i])) {
        assert x[i] == y[i];
      }
    } else if |a| == |b| {
      var i :| 0 <= i < |a| && x[i] != y[i];
      assert !SameChar(a[i], b[i]) && !(IsSlash(a[i]) && IsSlash(b[i]));
    }
  }

  /** The database keeps one entry for a pair of identifiers, whatever the case of their letters. */
  lemma KeyMeans(a: Device, b: Device)
    requires ':' !in a.hwId && ':' !in b.hwId
    ensures MakeKey(a) == MakeKey(b) <==> SameText(a.hwId, b.hwId) && SameText(a.pkHash, b.pkHash)
  {
    LowerMeans(a.hwId, b.hwId);
    LowerMeans(a.pkHash, b.pkHash);
    NoColon(a.hwId);
    NoColon(b.hwId);
    Joined(Lower(a.hwId), Lower(b.hwId), Lower(a.pkHash), Lower(b.pkHash));
  }

  lemma NoColon(s: string)
    requires ':' !in s
    ensures ':' !in Lower(s)
  {
    forall i | 0 <= i < |s| ensures Lower(s)[i] != ':' {
      assert s[i] in s;
    }
  }

  lemma ColonBehind(a: string, b: string, x: string, y: string)
    requires a + ":" + x == b + ":" + y
    ensures |a| < |b| ==> b[|a|] == ':'
    ensures |a| == |b| ==> a == b && x == y
  {
    var s, t := a + ":" + x, b + ":" + y;
    assert s[|a|] == ':';
    assert |a| < |b| ==> t[|a|] == b[|a|];
    assert s[..|a|] == a && t[..|b|] == b && s[|a| + 1..] == x && t[|b| + 1..] == y;
  }

  lemma Joined(a: string, b: string, x: string, y: string)
    requires ':' !in a && ':' !in b
    ensures a + ":" + x == b + ":" + y <==> a == b && x == y
  {
    if a + ":" + x == b + ":" + y {
      ColonBehind(a, b, x, y);
      ColonBehind(b, a, y, x);
    }
  }

  // ----- Identifiers -----

  /** The first sixteen characters, or all of a shorter text. */
  function Start(s: string): string {
    if |s| <= 16 then s else s[..16]
  }

  lemma PrefixMeans(a: string, b: string)
    ensures Prefix(Lower(a), PKHASH_PREFIX_LEN) == Lower(Start(a))
    ensures Prefix(Lower(a), PKHASH_PREFIX_LEN) == Prefix(Lower(b), PKHASH_PREFIX_LEN) <==> SameText(Start(a), Start(b))
  {
    assert Prefix(Lower(a), PKHASH_PREFIX_LEN) == Lower(Start(a));
    assert Prefix(Lower(b), PKHASH_PREFIX_LEN) == Lower(Start(b));
    LowerMeans(Start(a), Start(b));
  }

  /** Sixteen hexadecimal digits to begin with. */
  predicate IsRaw(hwId: string) {
    |hwId| >= 16 && AllLowerHex(Lower(hwId[..16]))
  }

  lemma {:induction false} DecodedIsHex(s: string)
    requires HexDecode(s).Some?
    ensures forall c <- s :: DigitValue(c).Some?
    decreases |s|
  {
    if s != "" {
      DecodedIsHex(s[2..]);
      forall c | c in s ensures DigitValue(c).Some? {
        var i :| 0 <= i < |s| && s[i] == c;
        assert i >= 2 ==> s[2..][i - 2] == c;
      }
    }
  }

  lemma DecodedIsLower(s: string)
    ensures HexDecode(Lower(s)).Some? ==> AllLowerHex(Lower(s))
  {
    if HexDecode(Lower(s)).Some? {
      DecodedIsHex(Lower(s));
      forall i | 0 <= i < |s| ensures IsLowerHex(Lower(s)[i]) {
        assert Lower(s)[i] in Lower(s) && Lower(s)[i] == LowerChar(s[i]);
      }
    }
  }

  /** A raw identifier is turned around byte by byte; any other is only put in lower case. */
  lemma NormalizeMeans(raw: string)
    ensures NormalizeHwid(raw) == if IsRaw(raw) then ReversePairs(Lower(raw[..16])) else Lower(raw)
  {
    var hex := Lower(raw);
    if |raw| >= 16 {
      var first := Lower(raw[..16]);
      assert hex[..16] == first;
      if IsRaw(raw) {
        LittleEndianReverses(first);
        assert HexDecode(first).value[..8] == HexDecode(first).value;
      }
      DecodedIsLower(raw[..16]);
    }
  }

  /** A parsed identity is the device's: the hashes begin alike, and the hardware identifiers, if any, agree or mirror. */
  predicate Verified(i: Identity, d: Device) {
    && SameText(Start(i.pkHash), Start(d.pkHash))
    && (|| i.hwId == "" || SameText(i.hwId, d.hwId)
        || (IsRaw(d.hwId) && Lower(i.hwId) == ReversePairs(Lower(d.hwId[..16]))))
  }

  lemma IdentityMeans(i: Identity, d: Device)
    ensures IdentityMatches(i, d) <==> Verified(i, d)
  {
    PrefixMeans(i.pkHash, d.pkHash);
    LowerMeans(i.hwId, d.hwId);
    NormalizeMeans(d.hwId);
  }

  predicate MentionedAt(name: string, id: string, i: int) {
    0 <= i <= |name| - |id| && SameText(name[i..i + |id|], id)
  }

  /** At least eight characters, and somewhere in the name. */
  predicate Mentions(name: string, id: string) {
    |id| >= 8 && exists i | 0 <= i <= |name| - |id| :: MentionedAt(name, id, i)
  }

  lemma MentionMeans(name: string, id: string)
    requires |id| >= 8
    ensures Contains(Lower(name), Lower(id)) <==> Mentions(name, id)
  {
    forall i | 0 <= i <= |name| - |id| ensures OccursAt(Lower(name), Lower(id), i) <==> MentionedAt(name, id, i) {
      assert Lower(name)[i..i + |id|] == Lower(name[i..i + |id|]);
      LowerMeans(name[i..i + |id|], id);
    }
    if Contains(Lower(name), Lower(id)) {
      var i :| 0 <= i <= |name| - |id| && OccursAt(Lower(name), Lower(id), i);
      assert MentionedAt(name, id, i);
    } else {
      assert forall i | 0 <= i <= |name| - |id| :: !OccursAt(Lower(name), Lower(id), i);
    }
  }

  lemma NameMeans(c: Candidate, d: Device)
    ensures NameMatches(c, d) <==> Mentions(c.name, d.hwId) || Mentions(c.name, Start(d.pkHash))
  {
    PrefixMeans(d.pkHash, d.pkHash);
    if |d.hwId| >= 8 {
      MentionMeans(c.name, d.hwId);
    }
    if |d.pkHash| >= 8 {
      MentionMeans(c.name, Start(d.pkHash));
    }
  }

  // ----- Scores -----

  /**
   * The level of a candidate: its path is the one used with this device; or its identity is verified; or
   * its name mentions the device; or its path was used with another device; or else it keeps its level.
   */
  lemma ScoreMeans(c: Candidate, db: Database, d: Device)
    ensures Score(c, db, d) ==
              if MakeKey(d) in db && SamePath(db[MakeKey(d)], c.path) then DbExact
              else if c.identity.Some? && Verified(c.identity.value, d) then BinaryVerified
              else if Mentions(c.name, d.hwId) || Mentions(c.name, Start(d.pkHash)) then FilenameMatch
              else if exists key | key in db && key != MakeKey(d) :: SamePath(db[key], c.path) then DbOtherDevice
              else c.level
  {
    forall key | key in db ensures NormalizePath(db[key]) == NormalizePath(c.path) <==> SamePath(db[key], c.path) {
      PathMeans(db[key], c.path);
    }
    if c.identity.Some? {
      IdentityMeans(c.identity.value, d);
    }
    NameMeans(c, d);
    OtherMeans(c, db, d);
  }

  lemma OtherMeans(c: Candidate, db: Database, d: Device)
    ensures UsedWithOther(c, db, d) <==> exists key | key in db && key != MakeKey(d) :: SamePath(db[key], c.path)
  {
    forall key | key in db ensures NormalizePath(db[key]) == NormalizePath(c.path) <==> SamePath(db[key], c.path) {
      PathMeans(db[key], c.path);
    }
    if UsedWithOther(c, db, d) {
      var key :| key in db && key != MakeKey(d) && NormalizePath(db[key]) == NormalizePath(c.path);
      assert SamePath(db[key], c.path);
    }
  }

  // ----- Order -----

  /** The order of texts is that of the dictionary: a prefix comes first, and else the first difference decides. */
  lemma {:induction false} AtMostMeans(a: string, b: string)
    ensures AtMost(a, b) <==> a <= b || exists k :: 0 <= k < |a| && k < |b| && a[..k] == b[..k] && a[k] < b[k]
  {
    if a != "" && b != "" && a[0] == b[0] {
      var x, y := a[1..], b[1..];
      AtMostMeans(x, y);
      assert a == [a[0]] + x && b == [b[0]] + y;
      if k :| 0 <= k < |x| && k < |y| && x[..k] == y[..k] && x[k] < y[k] {
        assert a[..k + 1] == [a[0]] + x[..k] == [b[0]] + y[..k] == b[..k + 1];
        assert a[k + 1] < b[k + 1];
      }
      if k :| 0 <= k < |a| && k < |b| && a[..k] == b[..k] && a[k] < b[k] {
        assert x[..k - 1] == a[..k][1..] && y[..k - 1] == b[..k][1..];
        assert x[k - 1] < y[k - 1];
      }
    } else if a != "" && b != "" {
      assert a[..0] == b[..0];
      if k :| 0 <= k < |a| && k < |b| && a[..k] == b[..k] && a[k] < b[k] {
        assert k > 0 ==> a[..k][0] == b[..k][0];
      }
    }
  }

  /**
   * The result begins with the exact matches; then come verified binaries, matching names, unknown ones and
   * those of other devices, each kind by name in lower case.
   */
  lemma OrderMeans(s: seq<Candidate>, i: nat, j: nat)
    requires i < j < |StableSort(s)|
    ensures var a, b := StableSort(s)[i], StableSort(s)[j];
            && (b.level == DbExact ==> a.level == DbExact)
            && (b.level == BinaryVerified ==> a.level in {DbExact, BinaryVerified})
            && (a.level == Unknown ==> b.level in {Unknown, DbOtherDevice})
            && (a.level == DbOtherDevice ==> b.level == DbOtherDevice)
            && (a.level == b.level ==> AtMost(Lower(a.name), Lower(b.name)))
  {
    SortIsStable(s);
    assert Before(StableSort(s)[i], StableSort(s)[j]);
  }
}

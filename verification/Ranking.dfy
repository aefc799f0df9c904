/** The stable sort of scored candidates, and what makes its result unique. */
module Ranking {
  import opened Wrappers
  import opened Text

  /** In the order in which candidates are presented. */
  datatype MatchLevel = DbExact | BinaryVerified | FilenameMatch | Unknown | DbOtherDevice

  datatype Identity = Identity(hwId: string, pkHash: string)

  datatype Candidate = Candidate(
    name: string, path: string, valid: bool, size: nat, level: MatchLevel, identity: Option<Identity>)

  function Rank(l: MatchLevel): nat {
    match l
    case DbExact => 0
    case BinaryVerified => 1
    case FilenameMatch => 2
    case Unknown => 3
    case DbOtherDevice => 4
  }

  /** By level, then by name without regard to case. */
  predicate Before(a: Candidate, b: Candidate) {
    || Rank(a.level) < Rank(b.level)
    || (Rank(a.level) == Rank(b.level) && AtMost(Lower(a.name), Lower(b.name)))
  }

  predicate Tied(a: Candidate, b: Candidate) {
    Before(a, b) && Before(b, a)
  }

  lemma BeforeTotal(a: Candidate, b: Candidate)
    ensures Before(a, b) || Before(b, a)
  {
    AtMostTotal(Lower(a.name), Lower(b.name));
  }

  lemma BeforeTransitive(a: Candidate, b: Candidate, c: Candidate)
    requires Before(a, b) && Before(b, c)
    ensures Before(a, c)
  {
    if Rank(a.level) == Rank(b.level) == Rank(c.level) {
      AtMostTransitive(Lower(a.name), Lower(b.name), Lower(c.name));
    }
  }

  // ----- A stable sort -----

  predicate Sorted(s: seq<Candidate>) {
    forall i, j :: 0 <= i < j < |s| ==> Before(s[i], s[j])
  }

  /** The elements tied with `c`, in order. */
  function TiedWith(s: seq<Candidate>, c: Candidate): seq<Candidate> {
    if s == [] then [] else (if Tied(s[0], c) then [s[0]] else []) + TiedWith(s[1..], c)
  }

  function Insert(x: Candidate, s: seq<Candidate>): seq<Candidate> {
    if s == [] || Before(x, s[0]) then [x] + s else [s[0]] + Insert(x, s[1..])
  }

  function StableSort(s: seq<Candidate>): seq<Candidate> {
    if s == [] then [] else Insert(s[0], StableSort(s[1..]))
  }

  lemma {:induction false} InsertPermutes(x: Candidate, s: seq<Candidate>)
    ensures |Insert(x, s)| == |s| + 1
    ensures multiset(Insert(x, s)) == multiset{x} + multiset(s)
  {
    if s != [] && !Before(x, s[0]) {
      InsertPermutes(x, s[1..]);
      assert s == [s[0]] + s[1..];
    }
  }

  predicate FirstBefore(c: Candidate, s: seq<Candidate>) {
    forall i :: 0 <= i < |s| ==> Before(c, s[i])
  }

  lemma SortedCons(c: Candidate, s: seq<Candidate>)
    ensures Sorted([c] + s) <==> Sorted(s) && FirstBefore(c, s)
  {
    var t := [c] + s;
    if Sorted(t) {
      forall i | 0 <= i < |s| ensures Before(c, s[i]) {
        assert Before(t[0], t[i + 1]);
      }
      forall i, j | 0 <= i < j < |s| ensures Before(s[i], s[j]) {
        assert Before(t[i + 1], t[j + 1]);
      }
    }
  }

  lemma {:induction false} InsertFirst(c: Candidate, x: Candidate, s: seq<Candidate>)
    requires Before(c, x) && FirstBefore(c, s)
    ensures FirstBefore(c, Insert(x, s))
  {
    if s != [] && !Before(x, s[0]) {
      InsertFirst(c, x, s[1..]);
    }
  }

  lemma {:induction false} InsertSorts(x: Candidate, s: seq<Candidate>)
    requires Sorted(s)
    ensures Sorted(Insert(x, s))
  {
    if s == [] {
    } else if Before(x, s[0]) {
      forall i | 0 <= i < |s| ensures Before(x, s[i]) {
        if i > 0 {
          BeforeTransitive(x, s[0], s[i]);
        }
      }
      SortedCons(x, s);
    } else {
      assert s == [s[0]] + s[1..];
      SortedCons(s[0], s[1..]);
      InsertSorts(x, s[1..]);
      BeforeTotal(x, s[0]);
      InsertFirst(s[0], x, s[1..]);
      SortedCons(s[0], Insert(x, s[1..]));
    }
  }

  lemma TiedCons(x: Candidate, s: seq<Candidate>, c: Candidate)
    ensures TiedWith([x] + s, c) == (if Tied(x, c) then [x] else []) + TiedWith(s, c)
  {
    assert ([x] + s)[1..] == s;
  }

  /** An element passes only smaller ones, so those tied with it keep their order. */
  lemma {:induction false} InsertKeepsTies(x: Candidate, s: seq<Candidate>, c: Candidate)
    ensures TiedWith(Insert(x, s), c) == TiedWith([x] + s, c)
  {
    if s != [] && !Before(x, s[0]) {
      InsertKeepsTies(x, s[1..], c);
      TiedCons(s[0], Insert(x, s[1..]), c);
      TiedCons(x, s[1..], c);
      TiedCons(x, s, c);
      if Tied(x, c) && Tied(s[0], c) {
        BeforeTransitive(x, c, s[0]);
        assert false;
      }
    }
  }

  lemma {:induction false} SortIsStable(s: seq<Candidate>)
    ensures Sorted(StableSort(s)) && |StableSort(s)| == |s|
    ensures multiset(StableSort(s)) == multiset(s)
    ensures forall c :: TiedWith(StableSort(s), c) == TiedWith(s, c)
  {
    if s != [] {
      SortIsStable(s[1..]);
      InsertSorts(s[0], StableSort(s[1..]));
      InsertPermutes(s[0], StableSort(s[1..]));
      assert s == [s[0]] + s[1..];
      forall c ensures TiedWith(StableSort(s), c) == TiedWith(s, c) {
        InsertKeepsTies(s[0], StableSort(s[1..]), c);
        TiedCons(s[0], StableSort(s[1..]), c);
      }
    }
  }

  // ----- There is only one -----

  lemma {:induction false} TiedAreMembers(s: seq<Candidate>, c: Candidate)
    requires TiedWith(s, c) != []
    ensures exists x :: x in s && Tied(x, c)
  {
    if Tied(s[0], c) {
      assert s[0] in s;
    } else {
      TiedAreMembers(s[1..], c);
      var x :| x in s[1..] && Tied(x, c);
      assert x in s;
    }
  }

  lemma HeadAtMost(s: seq<Candidate>, c: Candidate)
    requires Sorted(s) && TiedWith(s, c) != []
    ensures s != [] && Before(s[0], c)
  {
    TiedAreMembers(s, c);
    var x :| x in s && Tied(x, c);
    var i :| 0 <= i < |s| && s[i] == x;
    if i > 0 {
      BeforeTransitive(s[0], x, c);
    }
  }

  lemma SelfTied(s: seq<Candidate>)
    requires s != []
    ensures Tied(s[0], s[0]) && TiedWith(s, s[0]) != [] && TiedWith(s, s[0])[0] == s[0]
  {
    BeforeTotal(s[0], s[0]);
  }

  lemma SameHead(s: seq<Candidate>, t: seq<Candidate>)
    requires Sorted(s) && Sorted(t) && s != []
    requires forall c :: TiedWith(s, c) == TiedWith(t, c)
    ensures t != [] && t[0] == s[0]
  {
    SelfTied(s);
    HeadAtMost(t, s[0]);
    SelfTied(t);
    HeadAtMost(s, t[0]);
    assert TiedWith(t, s[0])[0] == t[0];
  }

  /** Order and ties determine the result. */
  lemma {:induction false} StableSortIsUnique(s: seq<Candidate>, t: seq<Candidate>)
    requires Sorted(s) && Sorted(t)
    requires forall c :: TiedWith(s, c) == TiedWith(t, c)
    ensures s == t
  {
    if s == [] {
      if t != [] {
        SameHead(t, s);
      }
    } else {
      SameHead(s, t);
      var x := s[0];
      assert s == [x] + s[1..] && t == [x] + t[1..];
      forall c ensures TiedWith(s[1..], c) == TiedWith(t[1..], c) {
        var head := if Tied(x, c) then [x] else [];
        assert TiedWith(s, c) == head + TiedWith(s[1..], c) && TiedWith(t, c) == head + TiedWith(t[1..], c);
        assert TiedWith(s[1..], c) == TiedWith(s, c)[|head|..];
        assert TiedWith(t[1..], c) == TiedWith(t, c)[|head|..];
      }
      StableSortIsUnique(s[1..], t[1..]);
    }
  }

  lemma SortTwice(s: seq<Candidate>)
    ensures StableSort(StableSort(s)) == StableSort(s)
  {
    SortIsStable(s);
    SortIsStable(StableSort(s));
    StableSortIsUnique(StableSort(StableSort(s)), StableSort(s));
  }
}

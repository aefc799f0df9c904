/** ASCII text: letter case, order, substrings and hexadecimal digits. */
module Text {
  import opened Bytes
  import opened Wrappers

  function LowerChar(c: char): char {
    if 'A' <= c <= 'Z' then (c as int + 32) as char else c
  }

  function Lower(s: string): (r: string)
    ensures |r| == |s|
  {
    seq(|s|, i requires 0 <= i < |s| => LowerChar(s[i]))
  }

  predicate Contains(s: string, part: string) {
    exists i | 0 <= i <= |s| - |part| :: OccursAt(s, part, i)
  }

  predicate OccursAt(s: string, part: string, i: int) {
    0 <= i <= |s| - |part| && s[i..i + |part|] == part
  }

  // ----- Order -----

  predicate AtMost(a: string, b: string) {
    a == "" || (b != "" && (a[0] < b[0] || (a[0] == b[0] && AtMost(a[1..], b[1..]))))
  }

  lemma {:induction false} AtMostTotal(a: string, b: string)
    ensures AtMost(a, b) || AtMost(b, a)
  {
    if a != "" && b != "" && a[0] == b[0] {
      AtMostTotal(a[1..], b[1..]);
    }
  }

  lemma {:induction false} AtMostTransitive(a: string, b: string, c: string)
    requires AtMost(a, b) && AtMost(b, c)
    ensures AtMost(a, c)
  {
    if a != "" && a[0] == b[0] == c[0] {
      AtMostTransitive(a[1..], b[1..], c[1..]);
    }
  }

  // ----- Hexadecimal -----

  function Digit(n: nat): char
    requires n < 16
  {
    if n < 10 then '0' + n as char else 'a' + (n - 10) as char
  }

  function DigitValue(c: char): (v: Option<nat>)
    ensures v.Some? ==> v.value < 16
  {
    if '0' <= c <= '9' then Some(c as int - '0' as int)
    else if 'a' <= c <= 'f' then Some(c as int - 'a' as int + 10)
    else if 'A' <= c <= 'F' then Some(c as int - 'A' as int + 10)
    else None
  }

  function PairByte(c: char, d: char): Option<byte> {
    if DigitValue(c).None? || DigitValue(d).None? then None
    else Some(16 * DigitValue(c).value + DigitValue(d).value)
  }

  predicate IsLowerHex(c: char) {
    '0' <= c <= '9' || 'a' <= c <= 'f'
  }

  predicate AllLowerHex(s: string) {
    forall c <- s :: IsLowerHex(c)
  }

  /** hex::decode: two digits a byte, in either case. */
  function HexDecode(s: string): (r: Option<seq<byte>>)
    ensures r.Some? ==> 2 * |r.value| == |s|
  {
    if s == "" then Some([])
    else if |s| == 1 || PairByte(s[0], s[1]).None? then None
    else
      var rest := HexDecode(s[2..]);
      if rest.None? then None else Some([PairByte(s[0], s[1]).value] + rest.value)
  }

  /** The last `k` hexadecimal digits of a number, zero-padded. */
  function HexDigits(v: nat, k: nat): (s: string)
    ensures |s| == k
  {
    if k == 0 then "" else HexDigits(v / 16, k - 1) + [Digit(v % 16)]
  }

  function ReversePairs(s: string): (r: string)
    ensures |r| == |s|
  {
    if |s| < 2 then s else ReversePairs(s[2..]) + s[..2]
  }

  lemma {:induction false} ReversePairsSnoc(s: string, pair: string)
    requires |s| % 2 == 0 && |pair| == 2
    ensures ReversePairs(s + pair) == pair + ReversePairs(s)
  {
    if s == "" {
      assert s + pair == pair && pair[..2] == pair && pair[2..] == "";
      assert ReversePairs(pair) == pair;
      assert pair + "" == pair;
    } else {
      assert (s + pair)[2..] == s[2..] + pair && (s + pair)[..2] == s[..2];
      ReversePairsSnoc(s[2..], pair);
      Assoc(pair, ReversePairs(s[2..]), s[..2]);
    }
  }

  lemma {:induction false} ReversePairsTwice(s: string)
    requires |s| % 2 == 0
    ensures ReversePairs(ReversePairs(s)) == s
  {
    if s != "" {
      ReversePairsSnoc(ReversePairs(s[2..]), s[..2]);
      ReversePairsTwice(s[2..]);
    }
  }

  lemma PairDigits(c: char, d: char)
    requires IsLowerHex(c) && IsLowerHex(d)
    ensures PairByte(c, d).Some?
    ensures var b := PairByte(c, d).value; [Digit(b / 16), Digit(b % 16)] == [c, d]
  {
    assert PairByte(c, d).value / 16 == DigitValue(c).value;
  }

  lemma DigitPair(b: byte, rest: nat, k: nat)
    requires k >= 2
    ensures HexDigits(b + 0x100 * rest, k) == HexDigits(rest, k - 2) + [Digit(b / 16), Digit(b % 16)]
  {
    var v := b + 0x100 * rest;
    assert v % 16 == b % 16 && v / 16 == b / 16 + 16 * rest;
    assert (v / 16) % 16 == b / 16 && v / 16 / 16 == rest;
    assert HexDigits(v, k) == HexDigits(v / 16, k - 1) + [Digit(b % 16)];
    assert HexDigits(v / 16, k - 1) == HexDigits(rest, k - 2) + [Digit(b / 16)];
  }

  /** Reading hexadecimal bytes as a little-endian number and printing it reverses the bytes. */
  lemma {:induction false} LittleEndianReverses(s: string)
    requires AllLowerHex(s) && |s| % 2 == 0
    ensures HexDecode(s).Some?
    ensures HexDigits(BytesValue(HexDecode(s).value), |s|) == ReversePairs(s)
  {
    if s != "" {
      assert s[0] in s && s[1] in s;
      PairDigits(s[0], s[1]);
      LittleEndianReverses(s[2..]);
      var b, rest := PairByte(s[0], s[1]).value, HexDecode(s[2..]).value;
      assert ([b] + rest)[1..] == rest;
      DigitPair(b, BytesValue(rest), |s|);
      assert s[..2] == [s[0], s[1]];
    }
  }
}

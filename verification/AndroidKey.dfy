/** The RSA public key structure that Android expects, built from little-endian words. */
module AndroidKey {
  import opened Bytes
  import ModInverse

  // ----- Values of byte strings -----

  function WordsValue(ws: seq<u32>): nat {
    if ws == [] then 0 else ws[0] + 0x1_0000_0000 * WordsValue(ws[1..])
  }

  /** The shortest little-endian bytes of a number, with one byte for zero. */
  function ToBytesLe(v: nat): (s: seq<byte>)
    ensures s != []
  {
    if v < 0x100 then [v] else [v % 0x100] + ToBytesLe(v / 0x100)
  }

  lemma {:induction false} ToBytesLeValue(v: nat)
    ensures BytesValue(ToBytesLe(v)) == v
  {
    if v >= 0x100 {
      ToBytesLeValue(v / 0x100);
      assert ToBytesLe(v)[1..] == ToBytesLe(v / 0x100);
    } else {
      assert BytesValue([v]) == v + 0x100 * BytesValue([]);
    }
  }

  lemma {:induction false} BytesValueBound(s: seq<byte>)
    ensures BytesValue(s) < Pow256(|s|)
  {
    if s != [] {
      BytesValueBound(s[1..]);
    }
  }

  lemma {:induction false} BytesValueAppend(a: seq<byte>, b: seq<byte>)
    ensures BytesValue(a + b) == BytesValue(a) + Pow256(|a|) * BytesValue(b)
  {
    if a == [] {
      assert [] + b == b;
    } else {
      assert (a + b)[1..] == a[1..] + b;
      BytesValueAppend(a[1..], b);
      Scale(Pow256(|a| - 1), BytesValue(b));
    }
  }

  lemma Scale(p: nat, v: nat)
    ensures (0x100 * p) * v == 0x100 * (p * v)
  {
  }

  /** The first `k` bytes, or all of them. */
  function Take(s: seq<byte>, k: nat): seq<byte> {
    if |s| <= k then s else s[..k]
  }

  lemma TakeValue(s: seq<byte>, k: nat)
    ensures BytesValue(Take(s, k)) == BytesValue(s) % Pow256(k)
  {
    if |s| <= k {
      BytesValueBound(s);
      PowMonotone(|s|, k);
      ModInverse.ModUnique(BytesValue(s), 0, BytesValue(s), Pow256(k));
    } else {
      assert s[..k] + s[k..] == s;
      BytesValueAppend(s[..k], s[k..]);
      BytesValueBound(s[..k]);
      ModInverse.ModUnique(BytesValue(s), BytesValue(s[k..]), BytesValue(s[..k]), Pow256(k));
    }
  }

  lemma {:induction false} PowMonotone(a: nat, b: nat)
    requires a <= b
    ensures Pow256(a) <= Pow256(b)
  {
    if a < b {
      PowMonotone(a, b - 1);
    }
  }

  // ----- Words -----

  /** The four bytes at `offset`, with zeros behind the end. */
  function Quad(bytes: seq<byte>, offset: nat): (q: seq<byte>)
    ensures |q| == 4
  {
    if offset + 4 <= |bytes| then bytes[offset..offset + 4]
    else if offset < |bytes| then bytes[offset..] + Zeros(4 - (|bytes| - offset))
    else Zeros(4)
  }

  function Words(bytes: seq<byte>, n: nat): (ws: seq<u32>)
    ensures |ws| == n
  {
    seq(n, i requires 0 <= i => FromLe32(Quad(bytes, 4 * i)))
  }

  lemma QuadValue(q: seq<byte>)
    requires |q| == 4
    ensures BytesValue(q) == FromLe32(q)
  {
    assert q == [q[0]] + ([q[1]] + ([q[2]] + [q[3]]));
    assert BytesValue([q[3]]) == q[3] + 0x100 * BytesValue([]);
    assert BytesValue([q[2]] + [q[3]]) == q[2] + 0x100 * BytesValue([q[3]]);
    assert BytesValue([q[1]] + ([q[2]] + [q[3]])) == q[1] + 0x100 * BytesValue([q[2]] + [q[3]]);
  }

  lemma {:induction false} ZerosValue(n: nat)
    ensures BytesValue(Zeros(n)) == 0
  {
    if n > 0 {
      assert Zeros(n)[1..] == Zeros(n - 1);
      ZerosValue(n - 1);
    }
  }

  /** Padding with zeros does not change a value. */
  lemma FirstQuad(bytes: seq<byte>)
    ensures FromLe32(Quad(bytes, 0)) == BytesValue(Take(bytes, 4))
  {
    QuadValue(Quad(bytes, 0));
    if |bytes| < 4 {
      var pad := Zeros(4 - |bytes|);
      assert Quad(bytes, 0) == bytes + pad;
      BytesValueAppend(bytes, pad);
      ZerosValue(4 - |bytes|);
    } else {
      assert Quad(bytes, 0) == Take(bytes, 4);
    }
  }

  function Drop(s: seq<byte>, k: nat): seq<byte> {
    if |s| <= k then [] else s[k..]
  }

  lemma QuadShift(bytes: seq<byte>, k: nat)
    ensures Quad(bytes, k + 4) == Quad(Drop(bytes, 4), k)
  {
    if k + 4 <= |bytes| {
      assert bytes[4..][k..] == bytes[k + 4..];
      if k + 8 <= |bytes| {
        assert bytes[4..][k..k + 4] == bytes[k + 4..k + 8];
      }
    }
  }

  lemma WordsCons(bytes: seq<byte>, n: nat)
    requires n > 0
    ensures Words(bytes, n) == [FromLe32(Quad(bytes, 0))] + Words(Drop(bytes, 4), n - 1)
  {
    var cons := [FromLe32(Quad(bytes, 0))] + Words(Drop(bytes, 4), n - 1);
    forall i: nat | i < n ensures Words(bytes, n)[i] == cons[i] {
      if i > 0 {
        QuadShift(bytes, 4 * (i - 1));
      }
    }
  }

  /** The words hold the value of the bytes, cut to the words' width; the last word may be partial. */
  lemma {:induction false} WordsKeepValue(bytes: seq<byte>, n: nat)
    ensures WordsValue(Words(bytes, n)) == BytesValue(Take(bytes, 4 * n))
    decreases n
  {
    if n > 0 {
      var rest := Drop(bytes, 4);
      WordsCons(bytes, n);
      WordsKeepValue(rest, n - 1);
      FirstQuad(bytes);
      TakeSplit(bytes, n);
      assert Words(bytes, n)[1..] == Words(rest, n - 1);
    }
  }

  lemma TakeSplit(bytes: seq<byte>, n: nat)
    requires n > 0
    ensures BytesValue(Take(bytes, 4 * n)) ==
              BytesValue(Take(bytes, 4)) + 0x1_0000_0000 * BytesValue(Take(Drop(bytes, 4), 4 * (n - 1)))
  {
    var head, tail := Take(bytes, 4), Take(Drop(bytes, 4), 4 * (n - 1));
    assert head + tail == Take(bytes, 4 * n);
    BytesValueAppend(head, tail);
    assert if |bytes| >= 4 then Pow256(|head|) == Pow256(4) == 0x1_0000_0000 else BytesValue(tail) == 0;
  }

  lemma WordsAreResidue(v: nat, n: nat)
    ensures WordsValue(Words(ToBytesLe(v), n)) == v % Pow256(4 * n)
  {
    WordsKeepValue(ToBytesLe(v), n);
    TakeValue(ToBytesLe(v), 4 * n);
    ToBytesLeValue(v);
  }

  lemma FilledWords(bytes: seq<byte>, before: seq<u32>, after: seq<u32>)
    requires |after| == |before|
    requires forall k :: 0 <= k < |after| ==>
               after[k] == if 4 * k < |bytes| then FromLe32(Quad(bytes, 4 * k)) else before[k]
    ensures (forall k :: 0 <= k < |before| ==> before[k] == 0) ==> after == Words(bytes, |after|)
  {
    assert FromLe32(Zeros(4)) == 0;
  }

  /** Fills the words from the bytes; words wholly behind the bytes keep what they held. */
  method BytesToLeWords(bytes: seq<byte>, words: array<u32>)
    modifies words
    ensures forall k :: 0 <= k < words.Length ==>
              words[k] == if 4 * k < |bytes| then FromLe32(Quad(bytes, 4 * k)) else old(words[k])
    ensures (forall k :: 0 <= k < words.Length ==> old(words[k]) == 0) ==> words[..] == Words(bytes, words.Length)
  {
    for i := 0 to words.Length
      invariant forall k :: 0 <= k < words.Length ==>
                  words[k] == if k < i && 4 * k < |bytes| then FromLe32(Quad(bytes, 4 * k)) else old(words[k])
    {
      var offset := i * 4;
      if offset + 4 <= |bytes| {
        words[i] := FromLe32(bytes[offset..offset + 4]);
      } else if offset < |bytes| {
        words[i] := FromLe32(bytes[offset..] + Zeros(4 - (|bytes| - offset)));
      }
    }
    FilledWords(bytes, old(words[..]), words[..]);
  }

  method NewWords(bytes: seq<byte>, w: nat) returns (words: array<u32>)
    ensures fresh(words) && words.Length == w && words[..] == Words(bytes, w)
  {
    words := new u32[w](_ => 0);
    BytesToLeWords(bytes, words);
  }

  // ----- The structure -----

  datatype KeyFields = KeyFields(numWords: nat, n0inv: nat, n: nat, rr: nat, exponent: nat)

  /** Reads a structure of `w` words per number; Android's has 64 of them. */
  function DecodeKey(buf: seq<byte>, w: nat): KeyFields
    requires |buf| == 8 * w + 12
  {
    KeyFields(
      BytesValue(buf[..4]),
      BytesValue(buf[4..8]),
      BytesValue(buf[8..8 + 4 * w]),
      BytesValue(buf[8 + 4 * w..8 + 8 * w]),
      BytesValue(buf[8 + 8 * w..]))
  }

  function WordBytes(ws: seq<u32>): (s: seq<byte>)
    ensures |s| == 4 * |ws|
  {
    if ws == [] then [] else WordBytes(ws[..|ws| - 1]) + Le32(ws[|ws| - 1])
  }

  lemma Le32Value(v: u32)
    ensures BytesValue(Le32(v)) == v
  {
    QuadValue(Le32(v));
    Le32RoundTrip(v);
  }

  lemma {:induction false} WordsValueSnoc(ws: seq<u32>, x: u32)
    ensures WordsValue(ws + [x]) == WordsValue(ws) + Pow256(4 * |ws|) * x
  {
    if ws == [] {
      assert [] + [x] == [x];
      assert WordsValue([x]) == x + 0x1_0000_0000 * WordsValue([]);
    } else {
      assert (ws + [x])[1..] == ws[1..] + [x];
      WordsValueSnoc(ws[1..], x);
      var k := 4 * |ws|;
      assert Pow256(k) == 0x100 * Pow256(k - 1) && Pow256(k - 1) == 0x100 * Pow256(k - 2);
      assert Pow256(k - 2) == 0x100 * Pow256(k - 3) && Pow256(k - 3) == 0x100 * Pow256(k - 4);
      ScaleWord(Pow256(k - 4), x);
    }
  }

  lemma ScaleWord(p: nat, v: nat)
    ensures (0x1_0000_0000 * p) * v == 0x1_0000_0000 * (p * v)
  {
  }

  lemma {:induction false} WordBytesValue(ws: seq<u32>)
    ensures BytesValue(WordBytes(ws)) == WordsValue(ws)
  {
    if ws != [] {
      var init, x := ws[..|ws| - 1], ws[|ws| - 1];
      assert ws == init + [x];
      WordBytesValue(init);
      BytesValueAppend(WordBytes(init), Le32(x));
      Le32Value(x);
      WordsValueSnoc(init, x);
    }
  }

  method AppendWords(buf: seq<byte>, words: array<u32>) returns (r: seq<byte>)
    ensures r == buf + WordBytes(words[..])
  {
    r := buf;
    assert buf + [] == buf;
    for i := 0 to words.Length
      invariant r == buf + WordBytes(words[..i])
    {
      assert words[..i + 1][..i] == words[..i];
      Assoc(buf, WordBytes(words[..i]), Le32(words[i]));
      r := r + Le32(words[i]);
    }
    assert words[..words.Length] == words[..];
  }

  lemma DecodeParts(a: seq<byte>, b: seq<byte>, c: seq<byte>, d: seq<byte>, e: seq<byte>, w: nat)
    requires |a| == 4 && |b| == 4 && |c| == 4 * w && |d| == 4 * w && |e| == 4
    ensures |a + b + c + d + e| == 8 * w + 12
    ensures DecodeKey(a + b + c + d + e, w) ==
              KeyFields(BytesValue(a), BytesValue(b), BytesValue(c), BytesValue(d), BytesValue(e))
  {
    var buf := a + b + c + d + e;
    assert buf[..4] == a && buf[4..8] == b && buf[8..8 + 4 * w] == c;
    assert buf[8 + 4 * w..8 + 8 * w] == d && buf[8 + 8 * w..] == e;
  }

  /**
   * The structure decodes back to the number of words, the Montgomery constant, the modulus, the square
   * of the radix modulo it and the exponent, each cut to the width of its field; and the constant is the
   * negated inverse of the modulus modulo 2^32 exactly when the modulus is odd.
   */
  method EncodeKeyStruct(n: nat, e: nat, w: nat) returns (buf: seq<byte>)
    requires n > 0 && 0 < w < 0x1_0000_0000
    ensures |buf| == 8 * w + 12
    ensures var f := DecodeKey(buf, w);
            && f.numWords == w
            && (((n % Pow256(4)) * f.n0inv + 1) % Pow256(4) == 0 <==> n % 2 == 1)
            && f.n == n % Pow256(4 * w)
            && f.rr == (Pow256(8 * w) % n) % Pow256(4 * w)
            && f.exponent == e % Pow256(4)
  {
    var nWords := NewWords(ToBytesLe(n), w);
    var n0 := nWords[0];
    var n0inv := ModInverse.NegatedInverse(n0);
    var rr := Pow256(8 * w) % n;
    var rrWords := NewWords(ToBytesLe(rr), w);
    var exponent := FromLe32(Quad(ToBytesLe(e), 0));
    buf := AppendWords(Le32(w) + Le32(n0inv), nWords);
    buf := AppendWords(buf, rrWords);
    buf := buf + Le32(exponent);
    StructDecodes(nWords[..], rrWords[..], n0inv, exponent, n, e, rr, w);
    FirstWord(nWords[..], n, w);
  }

  lemma StructDecodes(ns: seq<u32>, rrs: seq<u32>, n0inv: u32, exponent: u32, n: nat, e: nat, rr: nat, w: nat)
    requires 0 < w < 0x1_0000_0000
    requires ns == Words(ToBytesLe(n), w) && rrs == Words(ToBytesLe(rr), w)
    requires exponent == FromLe32(Quad(ToBytesLe(e), 0))
    ensures var buf := Le32(w) + Le32(n0inv) + WordBytes(ns) + WordBytes(rrs) + Le32(exponent);
            && |buf| == 8 * w + 12
            && DecodeKey(buf, w) == KeyFields(w, n0inv, n % Pow256(4 * w), rr % Pow256(4 * w), e % Pow256(4))
  {
    DecodeParts(Le32(w), Le32(n0inv), WordBytes(ns), WordBytes(rrs), Le32(exponent), w);
    FieldValues(ns, n, w);
    FieldValues(rrs, rr, w);
    Le32Value(w);
    Le32Value(n0inv);
    Le32Value(exponent);
    LowWord(e);
  }

  lemma FirstWord(ns: seq<u32>, n: nat, w: nat)
    requires w > 0 && ns == Words(ToBytesLe(n), w)
    ensures ns[0] == n % Pow256(4) && Pow256(4) == 0x1_0000_0000 && ns[0] % 2 == n % 2
  {
    assert ns[0] == FromLe32(Quad(ToBytesLe(n), 4 * 0));
    LowWord(n);
  }

  lemma FieldValues(ws: seq<u32>, v: nat, w: nat)
    requires ws == Words(ToBytesLe(v), w)
    ensures BytesValue(WordBytes(ws)) == v % Pow256(4 * w)
  {
    WordBytesValue(ws);
    WordsAreResidue(v, w);
  }

  lemma LowWord(v: nat)
    ensures FromLe32(Quad(ToBytesLe(v), 0)) == v % Pow256(4) && Pow256(4) == 0x1_0000_0000
    ensures FromLe32(Quad(ToBytesLe(v), 0)) % 2 == v % 2
  {
    FirstQuad(ToBytesLe(v));
    TakeValue(ToBytesLe(v), 4);
    ToBytesLeValue(v);
    assert Pow256(4) == 0x1_0000_0000;
    Parity(v);
  }

  lemma Parity(v: nat)
    ensures (v % 0x1_0000_0000) % 2 == v % 2
  {
  }

  /** A modulus of at most `w` words survives unchanged, and so does everything smaller. */
  lemma NarrowModulus(n: nat, w: nat)
    requires 0 < n < Pow256(4 * w)
    ensures n % Pow256(4 * w) == n && (Pow256(8 * w) % n) % Pow256(4 * w) == Pow256(8 * w) % n
  {
    ModInverse.ModUnique(n, 0, n, Pow256(4 * w));
    var rr := Pow256(8 * w) % n;
    ModInverse.ModUnique(rr, 0, rr, Pow256(4 * w));
  }
}

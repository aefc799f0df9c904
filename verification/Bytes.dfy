/** Bytes, fixed-width little-endian integers and concatenation of byte strings. */
module Bytes {
  type byte = x: int | 0 <= x < 0x100
  type u16 = x: int | 0 <= x < 0x1_0000
  type u32 = x: int | 0 <= x < 0x1_0000_0000

  function Min(a: int, b: int): int { if a <= b then a else b }

  function Max(a: int, b: int): int { if a <= b then b else a }

  /** `n` zero bytes. */
  function Zeros(n: nat): (z: seq<byte>)
    ensures |z| == n && forall i :: 0 <= i < n ==> z[i] == 0
  {
    seq(n, _ => 0)
  }

  /** The number of values of `k` bytes. */
  function Pow256(k: nat): (p: nat)
    ensures p > 0
  {
    if k == 0 then 1 else 0x100 * Pow256(k - 1)
  }

  // ----- Little-endian integers -----

  function BytesValue(s: seq<byte>): nat {
    if s == [] then 0 else s[0] + 0x100 * BytesValue(s[1..])
  }

  function Le16(v: u16): (s: seq<byte>)
    ensures |s| == 2
  {
    [v % 0x100, v / 0x100]
  }

  function FromLe16(s: seq<byte>): u16
    requires |s| == 2
  {
    s[0] as int + 0x100 * (s[1] as int)
  }

  function Le32(v: u32): (s: seq<byte>)
    ensures |s| == 4
  {
    [v % 0x100, v / 0x100 % 0x100, v / 0x1_0000 % 0x100, v / 0x100_0000]
  }

  function FromLe32(s: seq<byte>): u32
    requires |s| == 4
  {
    s[0] as int + 0x100 * (s[1] as int) + 0x1_0000 * (s[2] as int) + 0x100_0000 * (s[3] as int)
  }

  /** `n as u32`: the low 32 bits. */
  function Low32(n: nat): (r: u32)
    ensures n < 0x1_0000_0000 ==> r == n
  {
    n % 0x1_0000_0000
  }

  lemma Le16RoundTrip(v: u16)
    ensures FromLe16(Le16(v)) == v
  {
  }

  lemma Le32RoundTrip(v: u32)
    ensures FromLe32(Le32(v)) == v
  {
    assert v == v % 0x100 + 0x100 * (v / 0x100);
    assert v / 0x1_0000 == v / 0x100 / 0x100;
    assert v / 0x100_0000 == v / 0x1_0000 / 0x100;
  }

  lemma Le32Inverts(s: seq<byte>)
    requires |s| == 4
    ensures Le32(FromLe32(s)) == s
  {
    var v, a, b, c, d: int := FromLe32(s), s[0], s[1], s[2], s[3];
    assert v / 0x100 == b + 0x100 * c + 0x1_0000 * d;
    assert v / 0x1_0000 == c + 0x100 * d;
    assert v / 0x100_0000 == d;
  }

  /** The bytes of a text in ASCII. */
  function Ascii(s: string): (b: seq<byte>)
    ensures |b| == |s|
  {
    seq(|s|, i requires 0 <= i < |s| => s[i] as int % 0x80)
  }

  // ----- Sequences -----

  /** All but the first element, if there is one. */
  function Tail<T>(s: seq<T>): seq<T> {
    if s == [] then [] else s[1..]
  }

  /** `b` with `d` written over it from index `from` on. */
  function Overwrite(b: seq<byte>, from: nat, d: seq<byte>): (r: seq<byte>)
    requires from + |d| <= |b|
    ensures |r| == |b| && r[..from] == b[..from] && r[..from + |d|] == b[..from] + d
  {
    b[..from] + d + b[from + |d|..]
  }

  /** copy_from_slice into `buf[from..]`. */
  method CopyOut(src: seq<byte>, buf: array<byte>, from: nat)
    requires from + |src| <= buf.Length
    modifies buf
    ensures buf[..] == Overwrite(old(buf[..]), from, src)
  {
    forall i | 0 <= i < |src| {
      buf[from + i] := src[i];
    }
  }

  // ----- Concatenation -----

  function Concat<T>(parts: seq<seq<T>>): seq<T> {
    if parts == [] then [] else parts[0] + Concat(parts[1..])
  }

  lemma {:induction false} ConcatAppend<T>(a: seq<seq<T>>, b: seq<seq<T>>)
    ensures Concat(a + b) == Concat(a) + Concat(b)
  {
    if a == [] {
      assert a + b == b;
    } else {
      assert (a + b)[1..] == a[1..] + b;
      ConcatAppend(a[1..], b);
    }
  }

  lemma ConcatSnoc<T>(a: seq<seq<T>>, x: seq<T>)
    ensures Concat(a + [x]) == Concat(a) + x
  {
    ConcatAppend(a, [x]);
    assert Concat([x]) == x + Concat([]);
  }

  lemma ConcatPrefix<T>(a: seq<seq<T>>, k: nat)
    requires k <= |a|
    ensures Concat(a[..k]) <= Concat(a)
  {
    assert a == a[..k] + a[k..];
    ConcatAppend(a[..k], a[k..]);
  }

  lemma Assoc<T>(a: seq<T>, b: seq<T>, c: seq<T>)
    ensures a + b + c == a + (b + c)
  {
  }

  lemma Assoc4<T>(a: seq<T>, b: seq<T>, c: seq<T>, d: seq<T>)
    ensures a + (b + c + d) == a + b + c + d
  {
  }

  /** Cutting a middle piece out of a concatenation. */
  lemma Slices<T>(a: seq<T>, b: seq<T>, c: seq<T>)
    ensures (a + b + c)[|a|..|a| + |b|] == b
    ensures (a + b + c)[|a| + |b|..] == c
    ensures (a + b)[..|a|] == a && (a + b)[|a|..] == b
  {
  }
}

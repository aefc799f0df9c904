/** The extended Euclidean algorithm behind Android's RSA key encoding. */
module ModInverse {
  import opened Bytes

  type u64 = x: int | 0 <= x < 0x1_0000_0000_0000_0000
  type i128 = x: int | -0x8000_0000_0000_0000_0000_0000_0000_0000 <= x < 0x8000_0000_0000_0000_0000_0000_0000_0000

  const WORD: u64 := 0x1_0000_0000

  /** The remainder of a division that truncates towards zero, as signed machine words have it. */
  function TruncRem(a: int, m: int): int
    requires m > 0
  {
    if a >= 0 then a % m else -((-a) % m)
  }

  predicate Divides(d: nat, n: nat) {
    d > 0 && n % d == 0
  }

  ghost predicate Coprime(a: nat, m: nat) {
    forall d: nat :: Divides(d, a) && Divides(d, m) ==> d == 1
  }

  // ----- Remainders -----

  lemma ModUnique(y: int, q: int, r: int, m: int)
    requires m > 0 && 0 <= r < m && y == m * q + r
    ensures y % m == r
  {
    var p := y / m;
    assert m * (q - p) == y % m - r;
    assert q - p >= 1 ==> m * (q - p) >= m;
    assert q - p <= -1 ==> m * (q - p) <= -m;
  }

  lemma ModShift(x: int, z: int, m: int)
    requires m > 0
    ensures (x + m * z) % m == x % m
  {
    assert x + m * z == m * (x / m + z) + x % m;
    ModUnique(x + m * z, x / m + z, x % m, m);
  }

  lemma DividesProduct(d: nat, k: nat)
    requires d > 0
    ensures Divides(d, d * k)
  {
    ModUnique(d * k, k, 0, d);
  }

  // ----- The invariant -----

  /**
   * Remainders, and the magnitudes of the coefficients belonging to them: `sign * u` of `a` and
   * `-sign * w` of `m` for the older remainder, and the opposite signs for the newer one.
   */
  datatype Row = Row(r: nat, u: nat, w: nat)

  predicate Bezout(a: nat, m: nat, last: Row, row: Row, sign: int) {
    && (sign == 1 || sign == -1)
    && last.r * row.u + row.r * last.u == m
    && last.r * row.w + row.r * last.w == a
    && a * last.u - m * last.w == sign * last.r
    && m * row.w - a * row.u == sign * row.r
  }

  function Next(last: Row, row: Row): Row
    requires row.r > 0
  {
    var q := last.r / row.r;
    Row(last.r % row.r, last.u + q * row.u, last.w + q * row.w)
  }

  lemma CrossStep(o: nat, r: nat, ou: nat, u: nat, q: nat)
    requires o >= q * r
    ensures r * (ou + q * u) + (o - q * r) * u == o * u + r * ou
  {
    assert r * (ou + q * u) == r * ou + r * (q * u);
    assert (o - q * r) * u == o * u - (q * r) * u;
    assert r * (q * u) == (q * r) * u;
  }

  lemma LinearStep(a: nat, m: nat, last: Row, row: Row, q: nat, sign: int)
    requires a * last.u - m * last.w == sign * last.r
    requires m * row.w - a * row.u == sign * row.r
    ensures m * (last.w + q * row.w) - a * (last.u + q * row.u) == -sign * (last.r - q * row.r)
  {
    assert m * (last.w + q * row.w) == m * last.w + q * (m * row.w);
    assert a * (last.u + q * row.u) == a * last.u + q * (a * row.u);
    assert q * (m * row.w) - q * (a * row.u) == q * (m * row.w - a * row.u);
    assert q * (sign * row.r) == sign * (q * row.r);
    assert -sign * (last.r - q * row.r) == -(sign * last.r) + sign * (q * row.r);
  }

  lemma Quotient(o: nat, r: nat)
    requires r > 0
    ensures o / r * r <= o && o - o / r * r == o % r
  {
    assert o == r * (o / r) + o % r;
  }

  lemma BezoutStep(a: nat, m: nat, last: Row, row: Row, sign: int)
    requires Bezout(a, m, last, row, sign) && row.r > 0
    ensures Bezout(a, m, row, Next(last, row), -sign)
  {
    var q := last.r / row.r;
    Quotient(last.r, row.r);
    CrossStep(last.r, row.r, last.u, row.u, q);
    CrossStep(last.r, row.r, last.w, row.w, q);
    LinearStep(a, m, last, row, q, sign);
  }

  /** No coefficient exceeds the modulus. */
  lemma CoefficientBound(a: nat, m: nat, last: Row, row: Row, sign: int)
    requires Bezout(a, m, last, row, sign) && row.r > 0
    ensures last.u <= m && Next(last, row).u <= m
    ensures (last.r / row.r) * row.u <= m && (last.r / row.r) * row.r <= last.r
  {
    BezoutStep(a, m, last, row, sign);
    Factor(row.r, last.u, last.r * row.u, m);
    var next := Next(last, row);
    Factor(row.r, next.u, next.r * row.u, m);
    assert last.r == row.r * (last.r / row.r) + last.r % row.r;
  }

  lemma Factor(x: nat, y: nat, z: nat, m: nat)
    requires x > 0 && x * y + z == m
    ensures y <= m
  {
    assert x * y >= y;
  }

  // ----- The result -----

  lemma SignedCoefficient(a: nat, m: nat, g: nat, u: nat, w: nat, sign: int)
    requires sign == 1 || sign == -1
    requires a * u - m * w == sign * g
    ensures a * (sign * u) == m * (sign * w) + g
  {
  }

  lemma Reduced(a: nat, x: int, m: nat, k: int, g: nat)
    requires m > 0 && a * x == m * k + g
    ensures (a * (x % m)) % m == g % m
  {
    var j := x / m;
    assert x == m * j + x % m;
    assert a * x == a * (m * j) + a * (x % m);
    assert a * (m * j) == m * (a * j);
    assert m * (k - a * j) == m * k - m * (a * j);
    ModShift(g, k - a * j, m);
  }

  lemma ResultIsInverse(a: nat, m: nat, last: Row, row: Row, sign: int, x: int)
    requires m > 0 && Bezout(a, m, last, row, sign) && row.r == 0 && x == sign * last.u
    ensures Divides(last.r, a) && Divides(last.r, m)
    ensures (a * (x % m)) % m == last.r % m
  {
    DividesProduct(last.r, row.u);
    DividesProduct(last.r, row.w);
    SignedCoefficient(a, m, last.r, last.u, last.w, sign);
    Reduced(a, x, m, sign * last.w, last.r);
  }

  lemma WrapAround(x: int, m: int)
    requires m > 0
    ensures (TruncRem(x, m) + m) % m == x % m
    ensures -m < TruncRem(x, m) < m
  {
    if x >= 0 {
      ModShift(x % m, 1, m);
      assert (x % m) % m == x % m by { ModUnique(x % m, 0, x % m, m); }
    } else {
      var y := -x;
      assert -(y % m) + m == x + m * (y / m + 1);
      ModShift(x, y / m + 1, m);
    }
  }

  /** An inverse shows that its argument is coprime to the modulus. */
  lemma InverseMeansCoprime(a: nat, inv: nat, m: nat)
    requires m > 0 && (a * inv) % m == 1 % m
    ensures Coprime(a, m)
  {
    if m == 1 {
      return;
    }
    ModUnique(1, 0, 1, m);
    forall d: nat | Divides(d, a) && Divides(d, m) ensures d == 1 {
      var k := (a * inv) / m;
      assert a * inv == m * k + 1;
      var x, y := a / d, m / d;
      assert a == d * x && m == d * y;
      var e := x * inv - y * k;
      assert d * e == 1 by {
        assert d * (x * inv) == (d * x) * inv;
        assert d * (y * k) == (d * y) * k;
      }
      assert e >= 1 ==> d * e >= d;
      assert e <= 0 ==> d * e <= 0;
    }
  }

  /**
   * Terminates on all inputs, keeps every intermediate value inside a signed 128-bit word, and returns
   * the inverse of `a` in [0, m) exactly when there is one.
   */
  method ModInverseU32(a: u64, m: u64) returns (inv: u64)
    requires m > 0
    ensures inv < m
    ensures (a * inv) % m == 1 % m <==> Coprime(a, m)
  {
    var oldR: i128, r: i128 := a, m;
    var oldS: i128, s: i128 := 1, 0;
    ghost var last, row, sign := Row(a, 1, 0), Row(m, 0, 1), 1;
    while r != 0
      invariant Bezout(a, m, last, row, sign)
      invariant oldR == last.r && r == row.r && oldS == sign * last.u && s == -sign * row.u
      invariant last.u <= m && row.u <= m && last.r <= Max(a, m) && row.r <= Max(a, m)
      decreases r
    {
      BezoutStep(a, m, last, row, sign);
      CoefficientBound(a, m, last, row, sign);
      SignedStep(last, row, sign);
      var q: i128 := oldR / r;
      var qr: i128, qs: i128 := q * r, q * s;
      oldR, r := r, oldR - qr;
      oldS, s := s, oldS - qs;
      last, row, sign := row, Next(last, row), -sign;
    }
    ResultIsInverse(a, m, last, row, sign, oldS);
    WrapAround(oldS, m);
    inv := (TruncRem(oldS, m) + m) % m;
    if (a * inv) % m == 1 % m {
      InverseMeansCoprime(a, inv, m);
    }
    assert Coprime(a, m) ==> last.r == 1;
  }

  lemma SignedStep(last: Row, row: Row, sign: int)
    requires row.r > 0 && (sign == 1 || sign == -1)
    ensures var q := last.r / row.r;
            && last.r - q * row.r == Next(last, row).r < row.r
            && q * (-sign * row.u) == -sign * (q * row.u)
            && sign * last.u - q * (-sign * row.u) == sign * Next(last, row).u
  {
    var q := last.r / row.r;
    assert last.r == row.r * q + last.r % row.r;
    assert sign * (last.u + q * row.u) == sign * last.u + sign * (q * row.u);
  }

  // ----- Modulo 2^32 -----

  predicate PowerOfTwo(m: nat) {
    m == 1 || (m > 0 && m % 2 == 0 && PowerOfTwo(m / 2))
  }

  lemma {:induction false} PowersMultiply(a: nat, b: nat)
    requires PowerOfTwo(a) && PowerOfTwo(b)
    ensures PowerOfTwo(a * b)
  {
    if a > 1 {
      PowersMultiply(a / 2, b);
      HalfProduct(a, b);
    } else {
      assert 1 * b == b;
    }
  }

  lemma HalfProduct(a: nat, b: nat)
    requires a > 0 && a % 2 == 0 && b > 0
    ensures a * b > 0 && (a * b) % 2 == 0 && (a * b) / 2 == (a / 2) * b
  {
    var h := a / 2;
    assert a == 2 * h;
    assert a * b == 2 * (h * b);
  }

  lemma WordIsPower()
    ensures PowerOfTwo(WORD)
  {
    PowersMultiply(4, 4);
    PowersMultiply(16, 16);
    PowersMultiply(256, 256);
    PowersMultiply(65536, 65536);
  }

  lemma {:induction false} OddDivisor(d: nat, e: nat, m: nat)
    requires PowerOfTwo(m) && d % 2 == 1 && d * e == m
    ensures d == 1
  {
    if m == 1 {
      assert e >= 1 ==> d * e >= d;
      assert e == 0 ==> d * e == 0;
    } else {
      OddTimes(d, e);
      assert d * (e / 2) == m / 2;
      OddDivisor(d, e / 2, m / 2);
    }
  }

  lemma OddTimes(d: nat, e: nat)
    requires d % 2 == 1 && (d * e) % 2 == 0
    ensures e % 2 == 0 && d * (e / 2) == d * e / 2
  {
    var x := d / 2;
    assert d == 2 * x + 1;
    assert d * e == 2 * (x * e) + e;
    var h := e / 2;
    assert e == 2 * h;
    assert d * e == 2 * (d * h);
  }

  lemma OddIsCoprime(n: nat)
    ensures Coprime(n, WORD) <==> n % 2 == 1
  {
    WordIsPower();
    if n % 2 == 1 {
      forall d: nat | Divides(d, n) && Divides(d, WORD) ensures d == 1 {
        assert WORD == d * (WORD / d);
        OddFactor(d, n / d, n);
        OddDivisor(d, WORD / d, WORD);
      }
    } else {
      assert Divides(2, n) && Divides(2, WORD);
    }
  }

  lemma OddFactor(d: nat, e: nat, n: nat)
    requires d * e == n && n % 2 == 1
    ensures d % 2 == 1
  {
    var h := d / 2;
    assert d == 2 * h ==> n == 2 * (h * e);
  }

  /** The Montgomery constant: minus the inverse of the lowest word, which works exactly for odd moduli. */
  method NegatedInverse(n0: u64) returns (n0inv: u64)
    requires n0 < WORD
    ensures n0inv < WORD
    ensures (n0 * n0inv + 1) % WORD == 0 <==> n0 % 2 == 1
  {
    var raw := ModInverseU32(n0, WORD);
    n0inv := (WORD - raw) % WORD;
    OddIsCoprime(n0);
    Negated(n0, raw, n0inv, WORD);
  }

  lemma Negated(n: nat, x: nat, y: nat, m: nat)
    requires m > 1 && x < m && y == (m - x) % m
    ensures (n * y + 1) % m == 0 <==> (n * x) % m == 1
  {
    if x == 0 {
      ModUnique(m, 1, 0, m);
      ModUnique(1, 0, 1, m);
      ModUnique(0, 0, 0, m);
    } else {
      ModUnique(m - x, 0, m - x, m);
      assert n * y + 1 == (1 - n * x) + m * n;
      ModShift(1 - n * x, n, m);
      OneMinus(n * x, m);
    }
  }

  lemma OneMinus(p: nat, m: nat)
    requires m > 1
    ensures (1 - p) % m == 0 <==> p % m == 1
  {
    var k, r := p / m, p % m;
    assert 1 - p == (1 - r) + m * (-k);
    ModShift(1 - r, -k, m);
    if r == 0 {
      ModUnique(1, 0, 1, m);
    } else if r == 1 {
      ModUnique(0, 0, 0, m);
    } else {
      ModUnique(1 - r, -1, m + 1 - r, m);
    }
  }
}

/** Non-negative numbers as a C `float` holds them: 24 significant bits, ties to even. */
module Floats {

  const MANTISSA: nat := 0x100_0000   // 2^24

  function CeilDiv(a: nat, n: nat): (q: nat)
    requires n > 0
  {
    a / n + if a % n != 0 then 1 else 0
  }

  lemma CeilDivCovers(a: nat, n: nat)
    requires n > 0
    ensures a <= CeilDiv(a, n) * n
    ensures a > 0 ==> CeilDiv(a, n) >= 1 && (CeilDiv(a, n) - 1) * n < a
  {
    assert a == a / n * n + a % n;
  }

  /** The integer nearest to a / b, the even one of two that are equally near. */
  function RoundDiv(a: nat, b: nat): (q: nat)
    requires b > 0
  {
    var q, r := a / b, a % b;
    if 2 * r < b || (2 * r == b && q % 2 == 0) then q else q + 1
  }

  /** What the last significant bit of `n` is worth. */
  function Ulp(n: nat): (u: nat)
    ensures u > 0
  {
    if n < MANTISSA then 1 else 2 * Ulp(n / 2)
  }

  /** `(float) n`. */
  function FloatOf(n: nat): nat {
    RoundDiv(n, Ulp(n)) * Ulp(n)
  }

  /** The power of two that gives a / b its 24 significant bits before the point. */
  function Scale(a: nat, b: nat): (s: nat)
    requires a > 0 && b > 0
    ensures s > 0
    decreases MANTISSA * b - 2 * a
  {
    if 2 * a >= MANTISSA * b then 1 else 2 * Scale(2 * a, b)
  }

  /** `ceil((float) a / b)` for numbers that floats hold. */
  function CeilQuotient(a: nat, b: nat): nat
    requires a > 0 && b > 0
  {
    if a >= MANTISSA * b then RoundDiv(a, b * Ulp(a / b)) * Ulp(a / b)
    else CeilDiv(RoundDiv(a * Scale(a, b), b), Scale(a, b))
  }

  lemma FloatIsExact(n: nat)
    ensures n <= MANTISSA ==> FloatOf(n) == n
    ensures FloatOf(n) == n <==> n % Ulp(n) == 0
  {
    var u := Ulp(n);
    var q, r := n / u, n % u;
    assert n == q * u + r;
    if n == MANTISSA {
      assert Ulp(MANTISSA / 2) == 1;
    }
    if FloatOf(n) == n {
      assert FloatOf(n) % u == 0 by {
        MultipleOf(RoundDiv(n, u), u);
      }
    }
  }

  lemma MultipleOf(k: nat, u: nat)
    requires u > 0
    ensures k * u % u == 0 && k * u / u == k
  {
    Between(k * u, u, k);
  }

  lemma Between(m: nat, u: nat, k: nat)
    requires u > 0 && k * u <= m < k * u + u
    ensures m / u == k && m % u == m - k * u
  {
    var q, r := m / u, m % u;
    assert m == q * u + r;
    if q < k {
      assert (q + 1) * u <= k * u by { Monotone(q + 1, k, u); }
    } else if q > k {
      assert (k + 1) * u <= q * u by { Monotone(k + 1, q, u); }
    }
  }

  lemma Monotone(a: int, b: int, u: nat)
    requires a <= b
    ensures a * u <= b * u
  {
  }

  lemma {:induction false} ScaleIs(a: nat, b: nat)
    requires 0 < a < MANTISSA * b && b > 0
    ensures var s := Scale(a, b); MANTISSA * b <= 2 * (a * s) && a * s < MANTISSA * b
    decreases MANTISSA * b - 2 * a
  {
    if 2 * a < MANTISSA * b {
      ScaleIs(2 * a, b);
      var t := Scale(2 * a, b);
      assert 2 * a * t == a * (2 * t);
    }
  }

  lemma CeilUnique(m: nat, n: nat, k: nat)
    requires n > 0 && k > 0 && (k - 1) * n < m <= k * n
    ensures CeilDiv(m, n) == k
  {
    if m == k * n {
      MultipleOf(k, n);
    } else {
      Between(m, n, k - 1);
    }
  }

  lemma Quotient(x: nat, b: nat) returns (p: nat)
    requires b > 0
    ensures p == x / b * b && x == p + x % b
  {
    p := x / b * b;
  }

  /** Rounding does not pass a whole number. */
  lemma RoundBelow(x: nat, b: nat, t: nat)
    requires b > 0 && x <= t * b
    ensures RoundDiv(x, b) <= t
  {
    if x == t * b {
      MultipleOf(t, b);
    } else {
      var p := Quotient(x, b);
      Cancel(x / b, t, b);
    }
  }

  lemma RoundAbove(x: nat, b: nat, t: nat)
    requires b > 0 && 2 * x > 2 * (t * b) + b
    ensures RoundDiv(x, b) > t
  {
    var p := Quotient(x, b);
    Less(t, x / b, b);
    if x / b == t {
      Between(x, b, t);
    }
  }

  lemma Cancel(a: nat, b: nat, u: nat)
    requires a * u < b * u
    ensures a < b
  {
    if b <= a {
      Monotone(b, a, u);
    }
  }

  lemma CancelEqual(a: nat, b: nat, u: nat)
    requires u > 0 && a * u <= b * u
    ensures a <= b
  {
    Less(b, a, u);
  }

  lemma Less(t: nat, q: nat, u: nat)
    ensures q < t ==> q * u + u <= t * u
  {
    if q < t {
      Monotone(q + 1, t, u);
      assert (q + 1) * u == q * u + u;
    }
  }

  /** No rounding up to a whole number hides a remainder as long as the dividend has at most
      24 bits. */
  lemma QuotientIsExact(a: nat, b: nat)
    requires 0 < a <= MANTISSA && b > 0
    ensures CeilQuotient(a, b) == CeilDiv(a, b)
  {
    if a >= MANTISSA * b {
      assert b == 1 && a == MANTISSA && Ulp(MANTISSA / 2) == 1;
    } else {
      var s, k := Scale(a, b), CeilDiv(a, b);
      ScaleIs(a, b);
      CeilDivCovers(a, b);
      Scaled(a, b, s, k);
      CeilUnique(RoundDiv(a * s, b), s, k);
    }
  }

  lemma Scaled(a: nat, b: nat, s: nat, k: nat)
    requires 0 < a <= MANTISSA && b > 0 && s > 0 && k > 0 && (k - 1) * b < a <= k * b
    requires MANTISSA * b <= 2 * (a * s)
    ensures (k - 1) * s < RoundDiv(a * s, b) <= k * s
  {
    var t := (k - 1) * s;
    ScaledBelow(a, b, s, k);
    ScaledAbove(a, b, s, k - 1);
    RoundBelow(a * s, b, k * s);
    Monotone(a, MANTISSA, s);
    if b < 2 * s {
      RoundAbove(a * s, b, t);
    } else {
      assert a * s == MANTISSA / 2 * b;
      MultipleOf(MANTISSA / 2, b);
      Cancel(t, MANTISSA / 2, b);
    }
  }

  lemma ScaledBelow(a: nat, b: nat, s: nat, k: nat)
    requires a <= k * b
    ensures a * s <= k * s * b
  {
    Monotone(a, k * b, s);
    assert k * b * s == k * s * b;
  }

  lemma ScaledAbove(a: nat, b: nat, s: nat, j: nat)
    requires j * b < a
    ensures a * s >= j * s * b + s
  {
    Monotone(j * b + 1, a, s);
    assert (j * b + 1) * s == j * b * s + s;
    assert j * b * s == j * s * b;
  }

  // ---- powers of two ----

  ghost predicate Power(n: nat) {
    n == 1 || (n > 1 && n % 2 == 0 && Power(n / 2))
  }

  lemma {:induction false} PowerTimes(a: nat, b: nat)
    requires Power(a) && Power(b)
    ensures Power(a * b)
  {
    if a > 1 {
      PowerTimes(a / 2, b);
      assert a * b == 2 * (a / 2 * b);
    }
  }

  /** Of two powers of two the smaller divides the larger, which is no less than twice it. */
  lemma {:induction false} PowerDivides(a: nat, b: nat)
    requires Power(a) && Power(b)
    ensures a <= b ==> b % a == 0
    ensures b < 2 * a ==> b <= a
  {
    if a > 1 && b > 1 {
      PowerDivides(a / 2, b / 2);
      if a <= b {
        var k := b / 2 / (a / 2);
        assert b / 2 == k * (a / 2);
        assert b == k * a;
        MultipleOf(k, a);
      }
    }
  }

  lemma {:induction false} UlpPower(n: nat)
    ensures Power(Ulp(n))
  {
    if n >= MANTISSA {
      UlpPower(n / 2);
    }
  }

  lemma {:induction false} ScalePower(a: nat, b: nat)
    requires a > 0 && b > 0
    ensures Power(Scale(a, b))
    decreases MANTISSA * b - 2 * a
  {
    if 2 * a < MANTISSA * b {
      ScalePower(2 * a, b);
    }
  }

  lemma {:induction false} UlpIs(n: nat)
    ensures n < MANTISSA * Ulp(n)
    ensures n >= MANTISSA ==> MANTISSA * Ulp(n) <= 2 * n
  {
    if n >= MANTISSA {
      UlpIs(n / 2);
    }
  }

  /** What divides a divisor divides the number. */
  lemma Divides(d: nat, m: nat, n: nat)
    requires d > 0 && m > 0 && m % d == 0 && n % m == 0
    ensures n % d == 0
  {
    var i, j := m / d, n / m;
    assert m == i * d && n == j * m;
    assert n == j * i * d;
    MultipleOf(j * i, d);
  }

  lemma DividesTimes(d: nat, m: nat, k: nat)
    requires d > 0 && m % d == 0
    ensures m * k % d == 0
  {
    var i := m / d;
    assert m == i * d;
    assert m * k == i * k * d;
    MultipleOf(i * k, d);
  }

  /** A power of two is a float. */
  lemma PowerIsFloat(n: nat)
    requires Power(n)
    ensures FloatOf(n) == n && n > 0
  {
    var u := Ulp(n);
    UlpPower(n);
    UlpIs(n);
    FloatIsExact(n);
    hide Ulp, FloatOf;
    if n >= MANTISSA {
      PowerDivides(u, n);
    }
  }

  lemma HalfQuotient(a: nat, c: nat)
    requires c > 0
    ensures a / 2 / c == a / (2 * c)
  {
    var p := Quotient(a, 2 * c);
    Doubled(a / (2 * c), c);
    Between(a / 2, c, a / (2 * c));
  }

  lemma Doubled(q: nat, c: nat)
    ensures q * (2 * c) == 2 * (q * c)
  {
  }

  lemma {:induction false} UlpQuotient(a: nat, b: nat)
    requires Power(b) && a >= MANTISSA * b
    ensures Ulp(a) == b * Ulp(a / b)
  {
    if b > 1 {
      var c := b / 2;
      UlpQuotient(a / 2, c);
      HalfQuotient(a, c);
      var u := Ulp(a / b);
      assert 2 * (c * u) == b * u;
    }
  }

  lemma RoundExact(x: nat, d: nat, q: nat)
    requires d > 0 && x == q * d
    ensures RoundDiv(x, d) == CeilDiv(x, d) == q
  {
    MultipleOf(q, d);
  }

  /** A float divided by a power of two: the quotient is exact and so is its ceiling. */
  lemma QuotientByPower(a: nat, b: nat)
    requires a > 0 && a % Ulp(a) == 0 && Power(b)
    ensures CeilQuotient(a, b) == CeilDiv(a, b)
  {
    hide RoundDiv, CeilDiv, Ulp, Scale, Power;
    if a >= MANTISSA * b {
      UlpQuotient(a, b);
      var u, q := Ulp(a / b), a / Ulp(a);
      Parts(a, b, u, q);
      RoundExact(a, b * u, q);
      RoundExact(a, b, q * u);
    } else {
      ScaledExactly(a, b);
    }
  }

  lemma Parts(a: nat, b: nat, u: nat, q: nat)
    requires b * u > 0 && a % (b * u) == 0 && q == a / (b * u)
    ensures a == q * (b * u) == q * u * b
  {
  }

  lemma ScaledExactly(a: nat, b: nat)
    requires 0 < a < MANTISSA * b && a % Ulp(a) == 0 && Power(b)
    ensures CeilDiv(RoundDiv(a * Scale(a, b), b), Scale(a, b)) == CeilDiv(a, b)
  {
    hide RoundDiv, CeilDiv, Ulp, Scale, Power;
    var s, u, k := Scale(a, b), Ulp(a), CeilDiv(a, b);
    ScaleIs(a, b);
    ScalePower(a, b);
    UlpPower(a);
    UlpIs(a);
    PowerTimes(u, s);
    Shrinks(a, MANTISSA, u, s, b);
    PowerDivides(u * s, b);
    PowerDivides(b, u * s);
    var m := Quotients(a, b, s, u);
    RoundExact(a * s, b, m);
    CeilDivCovers(a, b);
    Cancels(a, b, s, m, k);
    CeilUnique(m, s, k);
  }

  lemma Quotients(a: nat, b: nat, s: nat, u: nat) returns (m: nat)
    requires b > 0 && u > 0 && a % u == 0 && u * s % b == 0
    ensures a * s == m * b
  {
    var q := a / u;
    DividesTimes(b, u * s, q);
    assert a == q * u;
    assert u * s * q == a * s;
    m := a * s / b;
  }

  lemma Shrinks(a: nat, top: nat, u: nat, s: nat, b: nat)
    requires top > 0 && s > 0 && a < top * u && top * b <= 2 * (a * s)
    ensures b < 2 * (u * s)
  {
    Monotone(a + 1, top * u, 2 * s);
    assert (a + 1) * (2 * s) == 2 * (a * s) + 2 * s;
    assert top * u * (2 * s) == 2 * (u * s) * top;
    Cancel(b, 2 * (u * s), top);
  }

  lemma Cancels(a: nat, b: nat, s: nat, m: nat, k: nat)
    requires b > 0 && s > 0 && k > 0 && m * b == a * s && (k - 1) * b < a <= k * b
    ensures (k - 1) * s < m <= k * s
  {
    ScaledBelow(a, b, s, k);
    ScaledAbove(a, b, s, k - 1);
    Cancel((k - 1) * s, m, b);
    CancelEqual(m, k * s, b);
  }

  /** Rounding gives a multiple of the last bit's worth, less than that away. */
  lemma FloatNear(n: nat)
    ensures var f, u := FloatOf(n), Ulp(n);
            && f % u == 0 && f <= MANTISSA * u && n < f + u && f < n + u && (u == 1 ==> f == n)
  {
    var u := Ulp(n);
    var p := Quotient(n, u);
    UlpIs(n);
    RoundBelow(n, u, MANTISSA);
    Monotone(RoundDiv(n, u), MANTISSA, u);
    MultipleOf(RoundDiv(n, u), u);
    assert (n / u + 1) * u == p + u;
  }

  /** What rounding gives is a float. */
  lemma FloatOfFloat(n: nat)
    ensures var f := FloatOf(n); f % Ulp(f) == 0
  {
    hide FloatOf, Ulp, Power;
    var f, u := FloatOf(n), Ulp(n);
    var v := Ulp(f);
    FloatNear(n);
    UlpPower(n);
    UlpPower(f);
    UlpIs(f);
    FloatIsExact(f);
    if f >= MANTISSA {
      if f < MANTISSA * u {
        assert v < 2 * u;
        PowerDivides(u, v);
        PowerDivides(v, u);
        Divides(v, u, f);
      } else {
        assert v <= 2 * u;
        PowerOfTwo();
        PowerTimes(2, u);
        PowerDivides(v, 2 * u);
        DividesTimes(2 * u, 2 * u, MANTISSA / 2);
        Divides(v, 2 * u, f);
      }
    }
  }

  lemma PowerOfTwo()
    ensures Power(2)
  {
  }

  // ---- the growth of a segment ----

  /** `cantidadDePaginasAAgrandar`: the pages for `lack` more bytes. */
  function PagesMore(lack: nat, ps: nat): nat
    requires lack > 0 && ps > 0
  {
    if FloatOf(lack) > 0 && FloatOf(ps) > 0 then CeilQuotient(FloatOf(lack), FloatOf(ps)) else 0
  }

  /** `cantidadDePaginasAAgrandar * PAGE_SIZE + sizeAnterior`, a sum of floats. */
  function Lengthened(pages: nat, ps: nat, size: nat): nat {
    FloatOf(FloatOf(pages * FloatOf(ps)) + FloatOf(size))
  }

  /** The growth is what integers would give as long as the block that grows ends up with at
      most 2^24 bytes. */
  lemma GrowthIsExact(lack: nat, ps: nat, size: nat)
    requires lack > 0 && ps > 0 && size + CeilDiv(lack, ps) * ps <= MANTISSA
    ensures PagesMore(lack, ps) == CeilDiv(lack, ps)
    ensures Lengthened(PagesMore(lack, ps), ps, size) == size + CeilDiv(lack, ps) * ps
  {
    var k := CeilDiv(lack, ps);
    CeilDivCovers(lack, ps);
    Monotone(1, k, ps);
    FloatIsExact(lack);
    FloatIsExact(ps);
    FloatIsExact(size);
    FloatIsExact(k * ps);
    FloatIsExact(size + k * ps);
    QuotientIsExact(lack, ps);
  }

  /** Beyond, and for pages of a power of two, the number of pages is the one that is needed
      unless the bytes lacking are rounded to a multiple of the page size that is too small, or
      a page or more too large. */
  lemma PagesMoreIff(lack: nat, ps: nat)
    requires lack > 0 && Power(ps)
    ensures PagesMore(lack, ps) == CeilDiv(lack, ps) <==> FloatOf(lack) % ps != 0 || lack <= FloatOf(lack) < lack + ps
  {
    hide FloatOf, Ulp, Power, CeilQuotient, CeilDiv;
    var f := FloatOf(lack);
    PowerIsFloat(ps);
    CeilDivCovers(lack, ps);
    if f > 0 {
      FloatOfFloat(lack);
      QuotientByPower(f, ps);
      if f % ps == 0 {
        CeilAtMultiple(lack, ps, f);
      } else {
        SameCeiling(lack, ps);
      }
    }
  }

  lemma SameCeiling(lack: nat, ps: nat)
    requires lack > 0 && Power(ps) && ps > 0 && FloatOf(lack) % ps != 0
    ensures CeilDiv(FloatOf(lack), ps) == CeilDiv(lack, ps)
  {
    hide FloatOf, Ulp, Power, CeilDiv;
    var f, u := FloatOf(lack), Ulp(lack);
    FloatNear(lack);
    UlpPower(lack);
    PowerDivides(ps, u);
    PowerDivides(u, ps);
    if ps <= u {
      Divides(ps, u, f);
    }
    CeilInside(lack, ps, f, u);
  }

  lemma CeilAtMultiple(n: nat, ps: nat, f: nat)
    requires n > 0 && ps > 0 && f > 0 && f % ps == 0
    ensures CeilDiv(f, ps) == CeilDiv(n, ps) <==> n <= f < n + ps
  {
    var k := f / ps;
    assert f == k * ps;
    assert (k - 1) * ps == f - ps;
    if n <= f < n + ps {
      CeilUnique(n, ps, k);
    }
    CeilDivCovers(n, ps);
  }

  /** Between two multiples of `ps` that `u` divides, nothing less than `u` away gets out. */
  lemma CeilInside(n: nat, ps: nat, f: nat, u: nat)
    requires 0 < u && 0 < ps && ps % u == 0 && f % u == 0 && f % ps != 0 && n < f + u && f < n + u && n > 0
    ensures CeilDiv(f, ps) == CeilDiv(n, ps)
  {
    var k := f / ps;
    var p := Quotient(f, ps);
    DividesTimes(u, ps, k);
    Multiples(p, f, u);
    DividesTimes(u, ps, k + 1);
    NextMultiple(k, ps);
    Multiples(f, p + ps, u);
    Ceiling(f, ps, k);
    Ceiling(n, ps, k);
  }

  lemma NextMultiple(k: nat, ps: nat)
    ensures (k + 1) * ps == k * ps + ps && ps * k == k * ps && ps * (k + 1) == k * ps + ps
  {
  }

  lemma Ceiling(n: nat, ps: nat, k: nat)
    requires ps > 0 && k * ps < n <= k * ps + ps
    ensures CeilDiv(n, ps) == k + 1
  {
    NextMultiple(k, ps);
    CeilUnique(n, ps, k + 1);
  }

  lemma Multiples(a: nat, b: nat, u: nat)
    requires u > 0 && a < b && a % u == 0 && b % u == 0
    ensures a + u <= b
  {
    var i, j := a / u, b / u;
    assert a == i * u && b == j * u;
    Cancel(i, j, u);
    Monotone(i + 1, j, u);
  }

  /** Beyond, the sum is exact only when a float holds it. */
  lemma LengthenedIff(pages: nat, ps: nat, size: nat)
    requires FloatOf(ps) == ps && FloatOf(pages * ps) == pages * ps && FloatOf(size) == size
    ensures Lengthened(pages, ps, size) == pages * ps + size <==> (pages * ps + size) % Ulp(pages * ps + size) == 0
  {
    hide FloatOf, Ulp;
    FloatIsExact(pages * ps + size);
  }

  /** 4096 pages of 4096 bytes for a last block of 3 bytes: one byte too many is stored. */
  lemma OneByteTooMany()
    ensures PagesMore(0x100_0000, 4096) == 4096 && Lengthened(4096, 4096, 3) == 3 + 4096 * 4096 + 1
  {
    FloatIsExact(0x100_0000);
    FloatIsExact(4096);
    FloatIsExact(3);
    QuotientIsExact(0x100_0000, 4096);
    assert Ulp(8388609) == 1 && Ulp(16777219) == 2;
  }
}

/** Fixed-width unsigned arithmetic over unbounded integers. A bit vector of
    width `w` is an integer in `[0, Pow2(w))`, as in the SMT-LIB theory
    FixedSizeBitVectors. */
module BitVectors {

  type Byte = x: int | 0 <= x < 256

  function Pow2(n: nat): (r: int)
    ensures r >= 1
  {
    if n == 0 then 1 else 2 * Pow2(n - 1)
  }

  lemma {:induction false} Pow2Add(m: nat, n: nat)
    ensures Pow2(m + n) == Pow2(m) * Pow2(n)
  {
    if m > 0 {
      Pow2Add(m - 1, n);
      assert Pow2(m + n) == 2 * (Pow2(m - 1) * Pow2(n));
      assert (2 * Pow2(m - 1)) * Pow2(n) == 2 * (Pow2(m - 1) * Pow2(n));
    }
  }

  lemma {:induction false} Pow2Mono(m: nat, n: nat)
    requires m <= n
    ensures Pow2(m) <= Pow2(n)
    ensures m < n ==> 2 * Pow2(m) <= Pow2(n)
    decreases n
  {
    if m < n {
      Pow2Mono(m, n - 1);
    }
  }

  lemma Pow2Eight()
    ensures Pow2(1) == 2 && Pow2(7) == 128 && Pow2(8) == 256
  {
    assert Pow2(4) == 16;
    assert Pow2(6) == 64;
  }

  /** The step from `k` bytes to `k + 1` bytes. */
  lemma Pow2Byte(k: nat)
    ensures Pow2(8 * (k + 1)) == 256 * Pow2(8 * k)
  {
    Pow2Eight();
    Pow2Add(8, 8 * k);
  }

  lemma MulGap(d: int, m: int)
    requires d >= 1 && m >= 1
    ensures d * m >= m
  {
    if d > 1 {
      assert d * m == (d - 1) * m + m;
      assert (d - 1) * m >= 0;
    }
  }

  lemma MulMono(u: int, v: int, k: int)
    requires u >= 0 && v <= k
    ensures u * v <= u * k
  {
    assert u * (k - v) >= 0;
  }

  /** Only one quotient fits a division equation. */
  lemma QuotientUnique(m: int, q: int, r: int, q': int, r': int)
    requires 0 <= r < m && 0 <= r' < m
    requires q * m + r == q' * m + r'
    ensures q == q' && r == r'
  {
    if q > q' {
      MulGap(q - q', m);
    } else if q < q' {
      MulGap(q' - q, m);
    }
  }

  /** Quotient and remainder are determined by the division equation. */
  lemma DivModUnique(x: int, m: int, q: int, r: int)
    requires m > 0 && 0 <= r < m && x == q * m + r
    ensures x / m == q && x % m == r
  {
    QuotientUnique(m, q, r, x / m, x % m);
  }

  /** Reduction modulo `Pow2(w)`. */
  function Wrap(w: nat, x: int): (r: nat)
    ensures r < Pow2(w)
  {
    x % Pow2(w)
  }

  lemma WrapIs(w: nat, x: int, q: int, r: int)
    requires 0 <= r < Pow2(w) && x == q * Pow2(w) + r
    ensures Wrap(w, x) == r
  {
    DivModUnique(x, Pow2(w), q, r);
  }

  lemma WrapShift(w: nat, x: int, k: int)
    ensures Wrap(w, x + k * Pow2(w)) == Wrap(w, x)
  {
    var m := Pow2(w);
    assert x == (x / m) * m + x % m;
    assert x + k * m == (x / m + k) * m + x % m by {
      assert (x / m + k) * m == (x / m) * m + k * m;
    }
    WrapIs(w, x + k * m, x / m + k, x % m);
  }

  lemma WrapSmall(w: nat, x: int)
    requires 0 <= x < Pow2(w)
    ensures Wrap(w, x) == x
  {
    WrapIs(w, x, 0, x);
  }

  /** The two's complement reading of a bit vector. */
  function Signed(w: nat, x: int): (s: int)
  {
    if w == 0 || x < Pow2(w - 1) then x else x - Pow2(w)
  }

  lemma SignedRange(w: nat, x: int)
    requires w >= 1 && 0 <= x < Pow2(w)
    ensures -Pow2(w - 1) <= Signed(w, x) < Pow2(w - 1)
    ensures Wrap(w, Signed(w, x)) == x
  {
    if x < Pow2(w - 1) {
      WrapSmall(w, x);
    } else {
      WrapSmall(w, x);
      WrapShift(w, x, -1);
    }
  }

  /** Wrapping a representable signed value loses nothing. */
  lemma SignedOfWrap(w: nat, s: int)
    requires w >= 1 && -Pow2(w - 1) <= s < Pow2(w - 1)
    ensures Signed(w, Wrap(w, s)) == s
  {
    if s >= 0 {
      WrapSmall(w, s);
    } else {
      WrapIs(w, s, -1, s + Pow2(w));
    }
  }

  /** `Wrap` removes a multiple of the modulus. */
  lemma WrapQuotient(w: nat, x: int) returns (q: int)
    ensures Wrap(w, x) == x - q * Pow2(w)
  {
    q := x / Pow2(w);
  }

  lemma WrapSame(w: nat, x: int, y: int, k: int)
    requires y == x + k * Pow2(w)
    ensures Wrap(w, x) == Wrap(w, y)
  {
    WrapShift(w, x, k);
  }

  /** Addition and subtraction can wrap early. */
  lemma WrapAdd(w: nat, x: int, y: int)
    ensures Wrap(w, Wrap(w, x) + Wrap(w, y)) == Wrap(w, x + y)
    ensures Wrap(w, Wrap(w, x) - Wrap(w, y)) == Wrap(w, x - y)
  {
    var p := WrapQuotient(w, x);
    var q := WrapQuotient(w, y);
    assert (-p - q) * Pow2(w) == -(p * Pow2(w)) - q * Pow2(w);
    assert (q - p) * Pow2(w) == q * Pow2(w) - p * Pow2(w);
    WrapSame(w, x + y, Wrap(w, x) + Wrap(w, y), -p - q);
    WrapSame(w, x - y, Wrap(w, x) - Wrap(w, y), q - p);
  }

  lemma MulExpand(x: int, y: int, p: int, q: int, m: int)
    ensures (x - p * m) * (y - q * m) == x * y + (p * q * m - x * q - p * y) * m
  {
    calc {
      (x - p * m) * (y - q * m);
      x * y - x * (q * m) - (p * m) * y + (p * m) * (q * m);
      x * y - (x * q) * m - (p * y) * m + (p * q * m) * m;
      x * y + (p * q * m - x * q - p * y) * m;
    }
  }

  lemma WrapMul(w: nat, x: int, y: int)
    ensures Wrap(w, Wrap(w, x) * Wrap(w, y)) == Wrap(w, x * y)
  {
    var m := Pow2(w);
    var p := WrapQuotient(w, x);
    var q := WrapQuotient(w, y);
    MulExpand(x, y, p, q, m);
    WrapSame(w, x * y, Wrap(w, x) * Wrap(w, y), p * q * m - x * q - p * y);
  }
}

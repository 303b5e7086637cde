/** Bit arithmetic on natural numbers.  `x << k` is Shl(x, k), cut to w bits by `% Pow2(w)`;
    `x >> k` is `x / Pow2(k)`, `x & (2^k - 1)` is `x % Pow2(k)`, and `|` is BitOr. */
module Bits {
  function Pow2(k: nat): (p: nat)
    ensures p > 0
  {
    if k == 0 then 1 else 2 * Pow2(k - 1)
  }

  function Shl(x: nat, k: nat): nat {
    if k == 0 then x else 2 * Shl(x, k - 1)
  }

  lemma {:induction false} ShlIsTimes(x: nat, k: nat)
    ensures Shl(x, k) == x * Pow2(k)
  {
    if k > 0 {
      ShlIsTimes(x, k - 1);
      assert x * (2 * Pow2(k - 1)) == 2 * (x * Pow2(k - 1));
    }
  }

  /** Bitwise inclusive or. */
  function BitOr(a: nat, b: nat): nat {
    if a == 0 then b
    else if b == 0 then a
    else 2 * BitOr(a / 2, b / 2) + if a % 2 == 1 || b % 2 == 1 then 1 else 0
  }

  /** Or-ing numbers that share no bits adds them. */
  lemma {:induction false} OrDisjoint(a: nat, b: nat, k: nat)
    requires a < Pow2(k)
    ensures BitOr(a, b * Pow2(k)) == a + b * Pow2(k)
  {
    if k == 0 {
      assert b * Pow2(0) == b;
    } else {
      var c := b * Pow2(k - 1);
      assert b * Pow2(k) == 2 * c;
      OrDisjoint(a / 2, b, k - 1);
    }
  }

  lemma {:induction false} Pow2Add(j: nat, k: nat)
    ensures Pow2(j + k) == Pow2(j) * Pow2(k)
  {
    if j > 0 {
      Pow2Add(j - 1, k);
      assert Pow2(j) * Pow2(k) == 2 * (Pow2(j - 1) * Pow2(k));
    }
  }

  lemma {:induction false} Pow2Monotone(j: nat, k: nat)
    requires j <= k
    ensures Pow2(j) <= Pow2(k)
  {
    if j < k { Pow2Monotone(j, k - 1); }
  }

  /** Quotient and remainder are unique. */
  lemma {:induction false} ModUnique(x: int, q: int, r: int, m: int)
    requires m > 0 && x == q * m + r && 0 <= r < m
    ensures x % m == r && x / m == q
  {
    var d := x / m - q;
    assert d * m == r - x % m;
    assert d >= 1 ==> d * m >= m;
    assert d <= -1 ==> d * m <= -m;
  }

  lemma {:induction false} ModAdd(a: int, b: int, m: int)
    requires m > 0
    ensures (a + b % m) % m == (a + b) % m
  {
    var q := (a + b % m) / m;
    var r := (a + b % m) % m;
    assert a + b == (q + b / m) * m + r;
    ModUnique(a + b, q + b / m, r, m);
  }

  /** A sum acc + d * p, with acc below p, cut at q * p loses exactly what d loses when cut at q. */
  lemma {:induction false} CutSum(acc: nat, d: nat, p: nat, q: nat)
    requires 0 < p && 0 < q && acc < p
    ensures q * p > 0 && (acc + d * p) % (q * p) == acc + d % q * p
  {
    var c, e := d % q, d / q;
    assert d == e * q + c;
    assert d * p == e * (q * p) + c * p;
    assert c * p + p == (c + 1) * p <= q * p;
    ModUnique(acc + d * p, e, acc + c * p, q * p);
  }

  lemma {:induction false} ModBelow(d: nat, q: nat)
    requires q > 0
    ensures d % q <= d
  {
    if d < q { ModUnique(d, 0, d, q); }
  }

  lemma {:induction false} ScaledDigit(c: nat, acc: nat, p: nat, n: nat)
    requires acc < p && c < n
    ensures acc + c * p < n * p
  {
    assert c * p + p == (c + 1) * p <= n * p;
  }

  /** Or-ing into the low k bits a digit shifted to bit k, in a w-bit type, adds modulo 2^w. */
  lemma {:induction false} OrShifted(acc: nat, d: nat, k: nat, w: nat, m: nat)
    requires k <= w && acc < Pow2(k) && d < 128 && m == Pow2(w)
    ensures BitOr(acc, Shl(d, k) % m) == (acc + Shl(d, k)) % m
    ensures BitOr(acc, Shl(d, k) % m) < Pow2(k + 7)
  {
    var p, q := Pow2(k), Pow2(w - k);
    var c := d % q;
    ShlIsTimes(d, k);
    assert m == q * p by { Pow2Add(w - k, k); }
    assert d * p % m == c * p by { CutSum(0, d, p, q); }
    assert (acc + d * p) % m == acc + c * p by { CutSum(acc, d, p, q); }
    assert BitOr(acc, c * p) == acc + c * p by { OrDisjoint(acc, c, k); }
    assert Pow2(k + 7) == 128 * p by { Pow2Add(7, k); assert Pow2(7) == 128; }
    ModBelow(d, q);
    ScaledDigit(c, acc, p, 128);
  }

  lemma {:induction false} OrBound(a: nat, b: nat, k: nat)
    requires a < Pow2(k) && b < Pow2(k)
    ensures BitOr(a, b) < Pow2(k)
  {
    if a > 0 && b > 0 && k > 0 { OrBound(a / 2, b / 2, k - 1); }
  }

  lemma {:induction false} OrCommutes(a: nat, b: nat)
    ensures BitOr(a, b) == BitOr(b, a)
  {
    if a > 0 && b > 0 { OrCommutes(a / 2, b / 2); }
  }
}

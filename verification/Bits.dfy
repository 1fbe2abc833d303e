/** Powers of two and the bit operators that the address code applies to
    non-negative integers, as the arithmetic they amount to. */
module Bits {

  function Pow2(k: nat): (p: nat)
    ensures p > 0
  {
    if k == 0 then 1 else 2 * Pow2(k - 1)
  }

  function And(a: nat, b: nat): nat {
    if a == 0 || b == 0 then 0 else 2 * And(a / 2, b / 2) + (if a % 2 == 1 && b % 2 == 1 then 1 else 0)
  }

  function Or(a: nat, b: nat): nat
    decreases a + b
  {
    if a == 0 then b else if b == 0 then a
    else 2 * Or(a / 2, b / 2) + (if a % 2 == 1 || b % 2 == 1 then 1 else 0)
  }

  function Xor(a: nat, b: nat): nat
    decreases a + b
  {
    if a == 0 && b == 0 then 0
    else 2 * Xor(a / 2, b / 2) + (if a % 2 == b % 2 then 0 else 1)
  }

  /** The exact floor of the base-two logarithm. */
  function FloorLog2(n: nat): (k: nat)
    requires n > 0
    ensures Pow2(k) <= n < Pow2(k + 1)
  {
    if n == 1 then 0 else FloorLog2(n / 2) + 1
  }

  lemma {:induction false} Pow2Add(a: nat, b: nat)
    ensures Pow2(a + b) == Pow2(a) * Pow2(b)
  {
    if a > 0 { Pow2Add(a - 1, b); }
  }

  lemma {:induction false} Pow2Monotone(a: nat, b: nat)
    requires a <= b
    ensures Pow2(a) <= Pow2(b)
    ensures a < b ==> Pow2(a) < Pow2(b)
  {
    if a < b { Pow2Monotone(a, b - 1); }
  }

  lemma ModHalf(n: nat, k: nat)
    requires k > 0
    ensures n % Pow2(k) == 2 * ((n / 2) % Pow2(k - 1)) + n % 2
  {
    var h := Pow2(k - 1);
    var q, r := (n / 2) / h, (n / 2) % h;
    assert n == (2 * h) * q + (2 * r + n % 2) by {
      assert n / 2 == h * q + r;
    }
    ModUnique(n, 2 * h, q, 2 * r + n % 2);
  }

  lemma ModUnique(n: nat, d: nat, q: int, r: int)
    requires d > 0 && n == d * q + r && 0 <= r < d
    ensures n % d == r && n / d == q
  {
    var e := q - n / d;
    assert d * e == n % d - r by { assert n == d * (n / d) + n % d; }
    if e != 0 { assert false; }
  }

  lemma MulMono(d: nat, a: int, b: int)
    requires a <= b
    ensures d * a <= d * b
  {
    assert d * (b - a) >= 0;
  }

  /** The low k binary digits of n. */
  function Low(n: nat, k: nat): (r: nat)
    ensures r < Pow2(k) && r <= n
  {
    if k == 0 then 0 else 2 * Low(n / 2, k - 1) + n % 2
  }

  lemma {:induction false} LowIsRemainder(n: nat, k: nat)
    ensures Low(n, k) == n % Pow2(k)
  {
    if k > 0 {
      LowIsRemainder(n / 2, k - 1);
      ModHalf(n, k);
    }
  }

  /** n is a multiple of 2^k: its k low binary digits are zero. */
  predicate Multiple(n: nat, k: nat) {
    k == 0 || (n % 2 == 0 && Multiple(n / 2, k - 1))
  }

  lemma {:induction false} MultipleLow(n: nat, k: nat)
    ensures Multiple(n, k) <==> Low(n, k) == 0
  {
    if k > 0 { MultipleLow(n / 2, k - 1); }
  }

  lemma MultipleMeaning(n: nat, k: nat)
    ensures Multiple(n, k) <==> n % Pow2(k) == 0
  {
    MultipleLow(n, k);
    LowIsRemainder(n, k);
  }

  lemma {:induction false} AndLowDigits(n: nat, k: nat)
    ensures And(n, Pow2(k) - 1) == Low(n, k)
    ensures n == 0 ==> Low(n, k) == 0
  {
    if k > 0 {
      AndLowDigits(n / 2, k - 1);
      assert (Pow2(k) - 1) / 2 == Pow2(k - 1) - 1;
    }
  }

  /** Masking with k one bits keeps the remainder modulo 2^k. */
  lemma AndLowMask(n: nat, k: nat)
    ensures And(n, Pow2(k) - 1) == n % Pow2(k)
  {
    AndLowDigits(n, k);
    LowIsRemainder(n, k);
  }

  lemma {:induction false} OrLowDigits(n: nat, k: nat)
    requires Low(n, k) == 0
    ensures Or(n, Pow2(k) - 1) == n + Pow2(k) - 1
  {
    if k > 0 && n > 0 {
      OrLowDigits(n / 2, k - 1);
      assert (Pow2(k) - 1) / 2 == Pow2(k - 1) - 1;
    }
  }

  /** Setting k one bits below an aligned number adds them. */
  lemma OrLowMask(n: nat, k: nat)
    requires Multiple(n, k)
    ensures Or(n, Pow2(k) - 1) == n + Pow2(k) - 1
  {
    MultipleLow(n, k);
    OrLowDigits(n, k);
  }

  /** Masking with w - k one bits above k zero bits clears the low k bits. */
  lemma {:induction false} AndHighDigits(n: nat, k: nat, w: nat)
    requires k <= w && n < Pow2(w)
    ensures Pow2(k) <= Pow2(w) && And(n, Pow2(w) - Pow2(k)) == n - Low(n, k)
  {
    hide And;
    Pow2Monotone(k, w);
    if k == 0 {
      AndLowDigits(n, w);
      LowWhole(n, w);
    } else {
      Pow2Monotone(k - 1, w - 1);
      AndHighDigits(n / 2, k - 1, w - 1);
      var m := Pow2(w - 1) - Pow2(k - 1);
      assert Pow2(w) - Pow2(k) == 2 * m;
      AndEvenMask(n, m);
      assert And(n, 2 * m) == 2 * (n / 2 - Low(n / 2, k - 1));
    }
  }

  lemma {:induction false} LowWhole(n: nat, w: nat)
    requires n < Pow2(w)
    ensures Low(n, w) == n
  {
    if w > 0 { LowWhole(n / 2, w - 1); }
  }

  lemma AndEvenMask(n: nat, m: nat)
    ensures And(n, 2 * m) == 2 * And(n / 2, m)
  {
    var d := 2 * m;
    assert d / 2 == m && d % 2 == 0;
  }

  /** Two aligned power-of-two blocks that meet are nested. */
  lemma BlocksNest(a: nat, j: nat, b: nat, k: nat)
    requires j <= k && Multiple(a, j) && Multiple(b, k)
    requires a < b + Pow2(k) && b < a + Pow2(j)
    ensures b <= a && a + Pow2(j) <= b + Pow2(k)
  {
    var s, t := Pow2(j), Pow2(k - j);
    Pow2Add(j, k - j);
    MultipleMeaning(a, j);
    MultipleMeaning(b, k);
    MultiplesNest(s, t, a, b, Pow2(k));
  }

  lemma MultiplesNest(s: nat, t: nat, a: nat, b: nat, d: nat)
    requires s > 0 && d > 0 && d == s * t && a % s == 0 && b % d == 0
    requires a < b + d && b < a + s
    ensures b <= a && a + s <= b + d
  {
    var p, q := a / s, b / d;
    Exact(a, s);
    Exact(b, d);
    MulAssoc(s, t, q);
    UnitsNest(s, p, t * q, t);
  }

  lemma Exact(n: nat, d: nat)
    requires d > 0 && n % d == 0
    ensures n == d * (n / d)
  {
  }

  lemma MulAssoc(a: nat, b: nat, c: nat)
    ensures (a * b) * c == a * (b * c)
  {
  }

  /** BlocksNest counted in units of the smaller block's size. */
  lemma UnitsNest(s: nat, p: nat, u: nat, t: nat)
    requires s > 0 && s * p < s * u + s * t && s * u < s * p + s
    ensures s * u <= s * p && s * p + s <= s * u + s * t
  {
    assert s * (u + t) == s * u + s * t && s * (p + 1) == s * p + s;
    MulCancel(s, p, u + t);
    MulCancel(s, u, p + 1);
    MulMono(s, u, p);
    MulMono(s, p + 1, u + t);
  }

  lemma MulCancel(s: nat, a: int, b: int)
    requires s * a < s * b
    ensures a < b
  {
    if b <= a { MulMono(s, b, a); }
  }

  // ----- Multiples of powers of two

  lemma {:induction false} MultipleDown(n: nat, k: nat, j: nat)
    requires j <= k && Multiple(n, k)
    ensures Multiple(n, j)
  {
    if j > 0 { MultipleDown(n / 2, k - 1, j - 1); }
  }

  lemma {:induction false} MultipleNext(n: nat, k: nat)
    requires Multiple(n, k)
    ensures Multiple(n + Pow2(k), k)
    ensures Multiple(n + Pow2(k), k + 1) <==> !Multiple(n, k + 1)
  {
    if k > 0 {
      assert (n + Pow2(k)) / 2 == n / 2 + Pow2(k - 1);
      MultipleNext(n / 2, k - 1);
    }
  }

  lemma {:induction false} MultipleRoom(n: nat, k: nat, w: nat)
    requires Multiple(n, k) && n < Pow2(w)
    ensures n > 0 ==> n >= Pow2(k)
    ensures k <= w ==> n + Pow2(k) <= Pow2(w)
  {
    if k > 0 && n > 0 {
      if w > 0 { MultipleRoom(n / 2, k - 1, w - 1); }
    } else if k <= w {
      Pow2Monotone(k, w);
    }
  }

  lemma {:induction false} MultipleZero(k: nat)
    ensures Multiple(0, k)
  {
    if k > 0 { MultipleZero(k - 1); }
  }

  lemma {:induction false} MultiplePower(k: nat, j: nat)
    requires j <= k
    ensures Multiple(Pow2(k), j)
  {
    if j > 0 {
      MultiplePower(k - 1, j - 1);
      assert Pow2(k) / 2 == Pow2(k - 1);
    }
  }

  lemma Log2Bounds(n: nat, c: nat)
    requires n > 0
    ensures c <= FloorLog2(n) <==> Pow2(c) <= n
  {
    if c <= FloorLog2(n) { Pow2Monotone(c, FloorLog2(n)); } else { Pow2Monotone(FloorLog2(n) + 1, c); }
  }
}

/** Unsigned machine arithmetic on natural numbers: the bit operators that the
    tokenizer's tables use, and the power-of-two rounding that sizes them. */
module Bits {
  import opened Arith

  type Byte = b: int | 0 <= b < 0x100
  type U16 = x: int | 0 <= x < 0x1_0000
  type U32 = x: int | 0 <= x < 0x1_0000_0000

  function Pow2(k: nat): (p: nat)
    ensures p >= 1
  {
    if k == 0 then 1 else 2 * Pow2(k - 1)
  }

  function And(x: nat, y: nat): nat {
    if x == 0 || y == 0 then 0 else 2 * And(x / 2, y / 2) + (x % 2) * (y % 2)
  }

  function Or(x: nat, y: nat): nat {
    if x == 0 then y
    else if y == 0 then x
    else 2 * Or(x / 2, y / 2) + (if x % 2 == 1 || y % 2 == 1 then 1 else 0)
  }

  function Xor(x: nat, y: nat): nat {
    if x == 0 then y
    else if y == 0 then x
    else 2 * Xor(x / 2, y / 2) + (x + y) % 2
  }

  function Shr(x: nat, k: nat): nat {
    if k == 0 then x else Shr(x / 2, k - 1)
  }

  lemma {:induction false} Pow2Add(a: nat, b: nat)
    ensures Pow2(a + b) == Pow2(a) * Pow2(b)
  {
    if a > 0 {
      Pow2Add(a - 1, b);
    }
  }

  lemma {:induction false} Pow2Monotone(a: nat, b: nat)
    requires a <= b
    ensures Pow2(a) <= Pow2(b)
    decreases b - a
  {
    if a < b {
      Pow2Monotone(a, b - 1);
    }
  }

  /** Masking with `2^k - 1` is the remainder modulo `2^k`. */
  lemma {:induction false} AndMask(x: nat, k: nat)
    ensures And(x, Pow2(k) - 1) == x % Pow2(k)
  {
    if x == 0 {
      DivModIs(0, Pow2(k), 0, 0);
    } else if k == 0 {
      DivModIs(x, 1, x, 0);
    } else {
      AndMask(x / 2, k - 1);
      HalvedRemainder(x, Pow2(k - 1));
      assert (Pow2(k) - 1) / 2 == Pow2(k - 1) - 1 && (Pow2(k) - 1) % 2 == 1;
    }
  }

  lemma HalvedRemainder(x: nat, half: nat)
    requires half > 0
    ensures x % (2 * half) == 2 * (x / 2 % half) + x % 2
  {
    DivMod(x / 2, half);
    var q, r := (x / 2) / half, (x / 2) % half;
    assert 2 * (q * half) == q * (2 * half);
    DivModIs(x, 2 * half, q, 2 * r + x % 2);
  }

  /** Shifting right divides by a power of two. */
  lemma {:induction false} ShrDivides(x: nat, k: nat)
    ensures Shr(x, k) == x / Pow2(k)
  {
    if k == 0 {
      DivModIs(x, 1, x, 0);
    } else {
      ShrDivides(x / 2, k - 1);
      HalvedQuotient(x, Pow2(k - 1));
    }
  }

  lemma HalvedQuotient(x: nat, half: nat)
    requires half > 0
    ensures x / (2 * half) == x / 2 / half
  {
    DivMod(x / 2, half);
    var q, r := (x / 2) / half, (x / 2) % half;
    assert 2 * (q * half) == q * (2 * half);
    DivModIs(x, 2 * half, q, 2 * r + x % 2);
  }

  // ---------------------------------------------------------------- next_pow2

  const WORD: nat := 0x1_0000_0000

  /** One `n |= n >> s` step. */
  function Smear(n: nat, s: nat): nat {
    Or(n, Shr(n, s))
  }

  /** `n` has `length` significant bits and its highest `t` of them are all one. */
  ghost predicate TopOnes(n: nat, length: nat, t: nat) {
    Pow2(length) - Pow2(if t <= length then length - t else 0) <= n < Pow2(length)
  }

  lemma {:induction false} OrBounds(x: nat, y: nat, p: nat)
    requires x < Pow2(p) && y < Pow2(p)
    ensures y <= Or(x, y) < Pow2(p)
  {
    if x != 0 && y != 0 {
      OrBounds(x / 2, y / 2, p - 1);
    }
  }

  /** `x` shifted left by `p`. */
  function Shl(x: nat, p: nat): nat {
    if p == 0 then x else 2 * Shl(x, p - 1)
  }

  lemma {:induction false} ShlMultiplies(x: nat, p: nat)
    ensures Shl(x, p) == x * Pow2(p)
  {
    if p > 0 {
      ShlMultiplies(x, p - 1);
      MulDouble(x, Pow2(p - 1));
    }
  }

  lemma MulDouble(a: nat, b: nat)
    ensures a * (2 * b) == 2 * (a * b)
  {
  }

  /** Bits below `p` do not disturb the bits above. */
  lemma {:induction false} OrSplit(high: nat, low: nat, y: nat, p: nat)
    requires low < Pow2(p) && y < Pow2(p)
    ensures Or(Shl(high, p) + low, y) == Shl(high, p) + Or(low, y)
    decreases p
  {
    if p > 0 {
      OrSplit(high, low / 2, y / 2, p - 1);
      OrDoubled(Shl(high, p - 1), low, y);
    }
  }

  lemma OrDoubled(half: nat, low: nat, y: nat)
    requires Or(half + low / 2, y / 2) == half + Or(low / 2, y / 2)
    ensures Or(2 * half + low, y) == 2 * half + Or(low, y)
  {
    var x := 2 * half + low;
    assert x / 2 == half + low / 2 && x % 2 == low % 2;
  }

  /** The high part of an all-ones prefix, shifted down by its own length. */
  lemma ShiftedTop(n: nat, p: nat, t: nat)
    requires (Pow2(t) - 1) * Pow2(p) <= n < Pow2(t) * Pow2(p)
    ensures Pow2(p) - Pow2(if t <= p then p - t else 0) <= Shr(n, t) < Pow2(p)
  {
    ShrDivides(n, t);
    var m, w := Pow2(t), Pow2(p);
    if t <= p {
      Pow2Add(p - t, t);
      ShiftedBounds(n, m, w, Pow2(p - t));
    } else {
      Pow2Monotone(p, t);
      ShiftedBounds(n, m, w, 1);
    }
  }

  lemma ShiftedBounds(n: nat, m: nat, w: nat, u: nat)
    requires m > 0 && (m - 1) * w <= n < m * w && w <= u * m
    ensures w - u <= n / m < w
  {
    assert (m - 1) * w == w * m - w;
    assert (w - u) * m == w * m - u * m;
    DivBounds(n, m, w - u, w);
  }

  lemma SmearStep(n: nat, length: nat, t: nat)
    requires TopOnes(n, length, t)
    requires 1 <= t
    ensures TopOnes(Smear(n, t), length, 2 * t)
  {
    if t >= length {
      Pow2Monotone(length, t);
      ShrDivides(n, t);
      DivModIs(n, Pow2(t), 0, n);
      assert Pow2(0) == 1;
    } else {
      var p := length - t;
      Pow2Add(t, p);
      var high := Pow2(t) - 1;
      assert high * Pow2(p) == Pow2(t) * Pow2(p) - Pow2(p);
      ShiftedTop(n, p, t);
      var low := n - high * Pow2(p);
      ShlMultiplies(high, p);
      OrSplit(high, low, Shr(n, t), p);
      OrBounds(low, Shr(n, t), p);
    }
  }

  lemma {:induction false} BitLength(n: nat) returns (length: nat)
    ensures n < Pow2(length)
    ensures n > 0 ==> length > 0 && Pow2(length - 1) <= n
    ensures n == 0 ==> length == 0
  {
    if n == 0 {
      length := 0;
    } else {
      length := BitLength(n / 2);
      length := length + 1;
    }
  }

  lemma WordIsPow2()
    ensures Pow2(32) == WORD && Pow2(31) == WORD / 2
  {
    assert Pow2(8) == 256;
    Pow2Add(8, 8);
    Pow2Add(16, 16);
    assert Pow2(32) == 2 * Pow2(31);
  }

  function SmearAll(m: nat): nat {
    Smear(Smear(Smear(Smear(Smear(m, 1), 2), 4), 8), 16)
  }

  /** Smearing fills every bit below the highest one. */
  lemma SmearFills(m: nat, k: nat)
    requires 1 <= k <= 32 && Pow2(k - 1) <= m < Pow2(k)
    ensures SmearAll(m) == Pow2(k) - 1
  {
    SmearStep(m, k, 1);
    var m1 := Smear(m, 1);
    SmearStep(m1, k, 2);
    var m2 := Smear(m1, 2);
    SmearStep(m2, k, 4);
    var m3 := Smear(m2, 4);
    SmearStep(m3, k, 8);
    SmearStep(Smear(m3, 8), k, 16);
    assert Pow2(0) == 1;
  }

  function NextPow2(n: U32): U32 {
    (SmearAll((n + WORD - 1) % WORD) + 1) % WORD
  }

  lemma Pow2AgainstWord(k: nat)
    ensures k <= 31 ==> Pow2(k) <= WORD / 2
    ensures k == 32 ==> Pow2(k) == WORD
    ensures k >= 33 ==> Pow2(k - 1) >= WORD
  {
    WordIsPow2();
    if k <= 31 {
      Pow2Monotone(k, 31);
    } else if k >= 33 {
      Pow2Monotone(32, k - 1);
    }
  }

  /** Rounding up to a power of two succeeds exactly on `1 ..= 2^31`; on `0`
      (the decrement wraps) and above `2^31` (the increment wraps) it gives 0. */
  lemma NextPow2Rounds(n: U32) returns (k: nat)
    ensures NextPow2(n) != 0 <==> 1 <= n <= WORD / 2
    ensures 1 <= n <= WORD / 2 ==>
      && k <= 31 && NextPow2(n) == Pow2(k) && n <= Pow2(k) <= WORD / 2 && (k > 0 ==> Pow2(k - 1) < n)
  {
    var m := if n == 0 then WORD - 1 else n - 1;
    assert (n + WORD - 1) % WORD == m;
    k := BitLength(m);
    Pow2AgainstWord(k);
    if m == 0 {
      SmearZero();
    } else {
      SmearFills(m, k);
    }
    Rounded(n, m, k, SmearAll(m));
  }

  lemma Rounded(n: U32, m: U32, k: nat, filled: nat)
    requires m == if n == 0 then WORD - 1 else n - 1
    requires m < Pow2(k) && k <= 32 && (m > 0 ==> k > 0 && Pow2(k - 1) <= m) && (m == 0 ==> k == 0)
    requires k <= 31 ==> Pow2(k) <= WORD / 2
    requires k == 32 ==> Pow2(k) == WORD
    requires filled == Pow2(k) - 1
    ensures (filled + 1) % WORD == if k == 32 then 0 else Pow2(k)
    ensures k <= 31 <==> 1 <= n <= WORD / 2
  {
    assert k == 32 ==> Pow2(k) == 2 * Pow2(k - 1);
  }

  lemma SmearZero()
    ensures SmearAll(0) == 0
  {
    assert forall s {:trigger Smear(0, s)} :: Smear(0, s) == 0 by {
      forall s {:trigger Smear(0, s)} ensures Smear(0, s) == 0 { ShrDivides(0, s); DivModIs(0, Pow2(s), 0, 0); }
    }
  }

  /** A table for `n` entries has `NextPow2(2n)` slots, with `2n` computed in 32 bits. */
  function TableSize(n: U32): U32 {
    NextPow2(2 * n % WORD)
  }

  /** The table always keeps a free slot exactly when `1 <= n <= 2^30`. */
  lemma TableHasRoom(n: U32) returns (k: nat)
    ensures TableSize(n) > n <==> 1 <= n <= WORD / 4
    ensures 1 <= n <= WORD / 4 ==> k <= 31 && TableSize(n) == Pow2(k) && Pow2(k) >= 2 * n
  {
    var doubled := if n < WORD / 2 then 2 * n else 2 * n - WORD;
    assert 2 * n % WORD == doubled;
    k := NextPow2Rounds(doubled);
  }
}

/**
 The unsigned integer widths of the program, and the word operations it uses, over `int`.

 A value assigned to one of the subset types below must be shown to fit, so an
 addition that could wrap or a subtraction that could go below zero does not verify.
 */
module Words {
  const TWO_32: int := 0x1_0000_0000
  const TWO_64: int := 0x1_0000_0000_0000_0000

  type u8 = x: int | 0 <= x < 0x100
  type u16 = x: int | 0 <= x < 0x1_0000
  type u32 = x: int | 0 <= x < 0x1_0000_0000
  type u64 = x: int | 0 <= x < 0x1_0000_0000_0000_0000

  /** Unsigned 64-bit addition, which wraps. */
  function Add64(a: u64, b: u64): u64 {
    if a + b < TWO_64 then a + b else a + b - TWO_64
  }

  /** Unsigned 64-bit subtraction, which wraps. */
  function Sub64(a: u64, b: u64): u64 {
    if b <= a then a - b else a - b + TWO_64
  }

  function Pow2(n: nat): (p: nat)
    ensures p > 0
  {
    if n == 0 then 1 else 2 * Pow2(n - 1)
  }

  /** Wrapping sums are sums modulo 2^64. */
  lemma Add64IsModulo(x: nat, y: u64)
    ensures Add64(x % TWO_64, y) == (x + y) % TWO_64
  {
  }

  lemma Sub64IsModulo(x: int, y: int)
    ensures Sub64(x % TWO_64, y % TWO_64) == (x - y) % TWO_64
  {
  }

  /** Two numbers agree modulo 2^64 exactly when their difference vanishes there. */
  lemma SameModulo(x: int, d: nat)
    ensures x % TWO_64 == (x + d) % TWO_64 <==> d % TWO_64 == 0
  {
  }

  /** A distance that went `k` times around is, as a 64-bit number, the wrapped difference of its ends. */
  lemma {:induction false} WrappedDistance(x: int, a: u64, b: u64, k: nat)
    requires x == a - b + TWO_64 * k
    ensures x % TWO_64 == Sub64(a, b)
  {
    if k > 0 {
      WrappedDistance(x - TWO_64, a, b, k - 1);
      SameModulo(x - TWO_64, TWO_64);
    }
  }

  // ---- bits of a word ----

  function Bit(w: nat, k: nat): bool {
    if k == 0 then w % 2 == 1 else Bit(w / 2, k - 1)
  }

  function Digit(b: bool): nat {
    if b then 1 else 0
  }

  /** `a & b` */
  function And(a: nat, b: nat): nat {
    if a == 0 || b == 0 then 0 else 2 * And(a / 2, b / 2) + Digit(a % 2 == 1 && b % 2 == 1)
  }

  /** `a | b` */
  function Or(a: nat, b: nat): nat
    decreases a + b
  {
    if a == 0 then b else if b == 0 then a
    else 2 * Or(a / 2, b / 2) + Digit(a % 2 == 1 || b % 2 == 1)
  }

  /** `a & ~b` */
  function AndNot(a: nat, b: nat): nat {
    if a == 0 then 0 else 2 * AndNot(a / 2, b / 2) + Digit(a % 2 == 1 && b % 2 == 0)
  }

  /** Trailing zero bits of a 64-bit word, counted from bit `k` up. */
  function CountrZero(w: nat, k: nat): nat
    requires k <= 64
    decreases 64 - k
  {
    if k == 64 || Bit(w, k) then 0 else 1 + CountrZero(w, k + 1)
  }

  /** Leading zero bits among the lowest `k` bits of a word. */
  function CountlZero(w: nat, k: nat): nat {
    if k == 0 || Bit(w, k - 1) then 0 else 1 + CountlZero(w, k - 1)
  }

  lemma MulAtLeast(d: int, n: nat)
    requires d >= 1
    ensures d * n >= n
  {
    assert d * n == n + (d - 1) * n;
  }

  lemma DivModUnique(x: int, n: nat, q: int, r: int)
    requires n > 0 && 0 <= r < n && x == q * n + r
    ensures x % n == r
  {
    var q', r' := x / n, x % n;
    var d := q - q';
    assert d * n == q * n - q' * n;
    assert x == q' * n + r';
    if d > 0 {
      MulAtLeast(d, n);
    } else if d < 0 {
      MulAtLeast(-d, n);
    }
  }

  lemma {:induction false} BitAnd(a: nat, b: nat, k: nat)
    ensures Bit(And(a, b), k) == (Bit(a, k) && Bit(b, k))
  {
    if a == 0 || b == 0 {
      BitZero(k);
    } else if k > 0 {
      BitAnd(a / 2, b / 2, k - 1);
    }
  }

  lemma {:induction false} BitOr(a: nat, b: nat, k: nat)
    ensures Bit(Or(a, b), k) == (Bit(a, k) || Bit(b, k))
  {
    if a == 0 || b == 0 {
      BitZero(k);
    } else if k > 0 {
      BitOr(a / 2, b / 2, k - 1);
    }
  }

  lemma {:induction false} BitAndNot(a: nat, b: nat, k: nat)
    ensures Bit(AndNot(a, b), k) == (Bit(a, k) && !Bit(b, k))
  {
    if a == 0 {
      BitZero(k);
    } else if k > 0 {
      BitAndNot(a / 2, b / 2, k - 1);
    }
  }

  lemma {:induction false} BitZero(k: nat)
    ensures !Bit(0, k)
  {
    if k > 0 {
      BitZero(k - 1);
    }
  }

  lemma {:induction false} BitOfPow2(n: nat, k: nat)
    ensures Bit(Pow2(n), k) == (k == n)
  {
    if n == 0 {
      if k > 0 {
        BitZero(k - 1);
      }
    } else if k > 0 {
      BitOfPow2(n - 1, k - 1);
    }
  }

  /** A non-zero word below 2^n has a set bit below n, and only there. */
  lemma {:induction false} NonZeroHasBit(w: nat, n: nat) returns (k: nat)
    requires 0 < w < Pow2(n)
    ensures k < n && Bit(w, k)
  {
    if w % 2 == 1 {
      k := 0;
    } else {
      k := NonZeroHasBit(w / 2, n - 1);
      k := k + 1;
    }
  }

  lemma {:induction false} BitBound(w: nat, n: nat, k: nat)
    requires w < Pow2(n) && n <= k
    ensures !Bit(w, k)
  {
    if n == 0 {
      BitZero(k);
    } else {
      BitBound(w / 2, n - 1, k - 1);
    }
  }

  lemma {:induction false} OrBound(a: nat, b: nat, n: nat)
    requires a < Pow2(n) && b < Pow2(n)
    ensures Or(a, b) < Pow2(n)
  {
    if n > 0 {
      OrBound(a / 2, b / 2, n - 1);
    }
  }

  lemma {:induction false} AndNotBound(a: nat, b: nat)
    ensures AndNot(a, b) <= a
  {
    if a > 0 {
      AndNotBound(a / 2, b / 2);
    }
  }

  lemma {:induction false} Pow2Increases(a: nat, b: nat)
    requires a < b
    ensures 2 * Pow2(a) <= Pow2(b)
  {
    if a + 1 < b {
      Pow2Increases(a, b - 1);
    }
  }

  /** `word & (word - 1)` clears exactly the lowest set bit. */
  lemma {:induction false} ClearLowest(w: nat, low: nat, k: nat)
    requires w > 0
    requires Bit(w, low) && forall i | 0 <= i < low :: !Bit(w, i)
    ensures Bit(And(w, w - 1), k) == (Bit(w, k) && k != low)
  {
    BitAnd(w, w - 1, k);
    if w % 2 == 1 {
      assert low == 0 by { if low > 0 { assert Bit(w, 0); } }
      assert (w - 1) / 2 == w / 2;
    } else {
      assert (w - 1) / 2 == w / 2 - 1;
      if k > 0 {
        forall i | 0 <= i < low - 1 ensures !Bit(w / 2, i) {
          assert Bit(w, i + 1) == Bit(w / 2, i);
        }
        ClearLowest(w / 2, low - 1, k - 1);
        BitAnd(w / 2, w / 2 - 1, k - 1);
      }
    }
  }

  lemma {:induction false} AndBound(a: nat, b: nat)
    ensures And(a, b) <= a && And(a, b) <= b
  {
    if a > 0 && b > 0 {
      AndBound(a / 2, b / 2);
    }
  }

  /** Masking with 2^k - 1 is reduction modulo 2^k. */
  lemma {:induction false} MaskIsModulo(x: nat, k: nat, n: nat)
    requires n == Pow2(k)
    ensures And(x, n - 1) == x % n
  {
    if k > 0 {
      var h := Pow2(k - 1);
      MaskIsModulo(x / 2, k - 1, h);
      MaskStep(x, h);
    }
  }

  // ---- steps around a ring of 2^k slots ----

  lemma {:induction false} PowSum(a: nat, b: nat)
    ensures Pow2(a + b) == Pow2(a) * Pow2(b)
  {
    if a > 0 {
      PowSum(a - 1, b);
    }
  }

  lemma Pow2Of64()
    ensures Pow2(64) == TWO_64
  {
    assert Pow2(4) == 16;
    PowSum(4, 4);
    PowSum(8, 8);
    PowSum(16, 16);
    PowSum(32, 32);
  }

  /** One step forward: the mask takes the slot after the last one back to the first. */
  lemma MaskedStep(i: nat, k: nat, n: nat)
    requires n == Pow2(k) && i < n
    ensures And(i + 1, n - 1) == if i + 1 == n then 0 else i + 1
  {
    MaskIsModulo(i + 1, k, n);
    if i + 1 == n {
      DivModUnique(i + 1, n, 1, 0);
    } else {
      DivModUnique(i + 1, n, 0, i + 1);
    }
  }

  /** A multiple of `n` away from 2^64, a wrapped difference has the remainder it would have without the wrap. */
  lemma WrappedRemainder(d: nat, k: nat, n: nat)
    requires n == Pow2(k) && k <= 64 && d < n
    ensures (d - n + TWO_64) % n == d
  {
    var turns := Pow2(64 - k);
    PowSum(64 - k, k);
    Pow2Of64();
    assert (turns - 1) * n == turns * n - n;
    DivModUnique(d - n + TWO_64, n, turns - 1, d);
  }

  /** A masked 64-bit difference, wrapped or not, is the number of steps forward from `a` to `b`. */
  lemma MaskedDifference(a: u64, b: u64, k: nat, n: nat)
    requires n == Pow2(k) && k <= 64 && a < n && b < n
    ensures And(Sub64(b, a), n - 1) == if a <= b then b - a else b - a + n
  {
    MaskIsModulo(Sub64(b, a), k, n);
    if a <= b {
      DivModUnique(b - a, n, 0, b - a);
    } else {
      WrappedRemainder(b - a + n, k, n);
    }
  }

  lemma MaskStep(x: nat, h: nat)
    requires h > 0
    requires And(x / 2, h - 1) == (x / 2) % h
    ensures And(x, 2 * h - 1) == x % (2 * h)
  {
    AndStep(x, h);
    HalfModulo(x, h);
  }

  lemma AndStep(x: nat, p: nat)
    requires p > 0
    ensures And(x, 2 * p - 1) == 2 * And(x / 2, p - 1) + x % 2
  {
    var m := 2 * p - 1;
    assert m / 2 == p - 1 && m % 2 == 1;
  }

  lemma HalfModulo(x: nat, p: nat)
    requires p > 0
    ensures 2 * ((x / 2) % p) + x % 2 == x % (2 * p)
  {
    var q, r := (x / 2) / p, (x / 2) % p;
    assert x / 2 == q * p + r;
    assert q * (2 * p) == 2 * (q * p);
    DivModUnique(x, 2 * p, q, 2 * r + x % 2);
  }

  lemma {:induction false} CountrZeroFinds(w: nat, k: nat)
    requires k <= 64
    ensures var b := k + CountrZero(w, k);
      && b <= 64
      && (b < 64 ==> Bit(w, b))
      && (forall i | k <= i < b :: !Bit(w, i))
    decreases 64 - k
  {
    if k < 64 && !Bit(w, k) {
      CountrZeroFinds(w, k + 1);
    }
  }

  lemma {:induction false} CountlZeroFinds(w: nat, k: nat)
    ensures var z := CountlZero(w, k);
      && z <= k
      && (z < k ==> Bit(w, k - 1 - z))
      && (forall i | k - z <= i < k :: !Bit(w, i))
  {
    if k > 0 && !Bit(w, k - 1) {
      CountlZeroFinds(w, k - 1);
    }
  }
}

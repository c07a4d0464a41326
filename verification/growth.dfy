/** Rounding up to a power of two, by which the stacks, arrays and the pool size their growth. */
module Growth {
  import opened Words

  /** Sizes below this are rounded up without wrapping around. */
  const MOST: nat := 0x8000_0000_0000_0000

  function Pow2(k: nat): (p: nat)
    ensures p > 0
  {
    if k == 0 then 1 else 2 * Pow2(k - 1)
  }

  ghost predicate IsPow2(n: int)
  {
    exists k: nat :: n == Pow2(k)
  }

  /** Bitwise or of two unsigned words of any width */
  function Or(x: nat, y: nat): nat
  {
    if x == 0 && y == 0 then 0
    else 2 * Or(x / 2, y / 2) + if x % 2 == 1 || y % 2 == 1 then 1 else 0
  }

  /** Shift to the right by i bits */
  function Shifted(x: nat, i: nat): nat
    decreases i
  {
    if i == 0 then x else Shifted(x / 2, i - 1)
  }

  lemma {:induction false} PowGrows(j: nat, k: nat)
    requires j < k
    ensures 2 * Pow2(j) <= Pow2(k)
  {
    if j < k - 1 {
      PowGrows(j, k - 1);
    }
  }

  lemma {:induction false} PowSum(j: nat, k: nat)
    ensures Pow2(j + k) == Pow2(j) * Pow2(k)
  {
    if j > 0 {
      PowSum(j - 1, k);
      assert Pow2(j + k) == 2 * Pow2(j - 1 + k);
    }
  }

  lemma {:induction false} OrAtLeast(x: nat, y: nat)
    ensures Or(x, y) >= x && Or(x, y) >= y
  {
    if x != 0 || y != 0 {
      OrAtLeast(x / 2, y / 2);
    }
  }

  lemma {:induction false} OrBelow(x: nat, y: nat, k: nat)
    requires x < Pow2(k) && y < Pow2(k)
    ensures Or(x, y) < Pow2(k)
    decreases k
  {
    if k > 0 {
      OrBelow(x / 2, y / 2, k - 1);
    }
  }

  /** The bits of x from m up are not touched by or-ing in something below 2^m. */
  lemma {:induction false} OrLow(a: nat, b: nat, y: nat, m: nat)
    requires b < Pow2(m) && y < Pow2(m)
    ensures Or(a * Pow2(m) + b, y) == a * Pow2(m) + Or(b, y)
    decreases m
  {
    if m == 0 {
      OrZero(a);
    } else {
      var x, half := a * Pow2(m) + b, a * Pow2(m - 1);
      assert a * Pow2(m) == 2 * half by {
        assert Pow2(m) == 2 * Pow2(m - 1);
      }
      assert x / 2 == half + b / 2 && x % 2 == b % 2;
      OrLow(a, b / 2, y / 2, m - 1);
    }
  }

  lemma {:induction false} OrZero(a: nat)
    ensures Or(a, 0) == a
  {
    if a != 0 {
      OrZero(a / 2);
    }
  }

  /** All of the w highest of k bits of x are set. */
  ghost predicate Smeared(x: nat, k: nat, w: nat)
  {
    x < Pow2(k) && x >= Pow2(k) - if w <= k then Pow2(k - w) else 1
  }

  /** Or-ing in the word shifted by w doubles the number of leading bits that are set. */
  lemma SmearStep(x: nat, k: nat, w: nat)
    requires Smeared(x, k, w) && w > 0
    ensures Smeared(Or(x, Shifted(x, w)), k, 2 * w)
  {
    var y := Shifted(x, w);
    OrAtLeast(x, y);
    if w < k {
      var m := k - w;
      PowSum(w, m);
      ShiftedBetween(x, w, m);
      var a, b := Pow2(w) - 1, x - (Pow2(w) - 1) * Pow2(m);
      assert a * Pow2(m) == Pow2(k) - Pow2(m) by {
        Distributed(Pow2(w), Pow2(m));
      }
      OrLow(a, b, y, m);
      OrAtLeast(b, y);
      OrBelow(b, y, m);
    } else {
      assert y <= x by {
        ShiftedAtMost(x, w);
      }
      OrBelow(x, y, k);
    }
  }

  lemma Distributed(p: nat, q: nat)
    requires p > 0
    ensures (p - 1) * q == p * q - q
  {
  }

  lemma {:induction false} ShiftedAtMost(x: nat, w: nat)
    ensures Shifted(x, w) <= x
    decreases w
  {
    if w > 0 {
      ShiftedAtMost(x / 2, w - 1);
    }
  }

  /** Shifting by w bits is dividing by 2^w. */
  lemma {:induction false} ShiftedIsQuotient(x: nat, w: nat)
    ensures var d, y := Pow2(w), Shifted(x, w); d * y <= x < d * y + d
    decreases w
  {
    if w > 0 {
      var half, y := Pow2(w - 1), Shifted(x, w);
      ShiftedIsQuotient(x / 2, w - 1);
      Doubled(half, y);
    }
  }

  lemma Doubled(half: nat, y: nat)
    ensures (2 * half) * y == 2 * (half * y)
  {
  }

  /** Shifting a word of w + m bits whose w highest are set */
  lemma ShiftedBetween(x: nat, w: nat, m: nat)
    requires w > 0 && m > 0 && Smeared(x, w + m, w)
    ensures Pow2(m) - (if w <= m then Pow2(m - w) else 1) <= Shifted(x, w) < Pow2(m)
  {
    var d, y := Pow2(w), Shifted(x, w);
    PowSum(w, m);
    ShiftedIsQuotient(x, w);
    if y >= Pow2(m) {
      Larger(d, Pow2(m), y);
      assert false;
    }
    if w <= m {
      PowSum(w, m - w);
      if y < Pow2(m) - Pow2(m - w) {
        Smaller(d, y + 1, Pow2(m) - Pow2(m - w));
        Apart(d, Pow2(m), Pow2(m - w));
        assert false;
      }
    } else if y < Pow2(m) - 1 {
      Smaller(d, y + 1, Pow2(m) - 1);
      Apart(d, Pow2(m), 1);
      PowGrows(m, w);
      assert false;
    }
  }

  lemma Larger(d: nat, p: nat, q: nat)
    requires p <= q
    ensures d * p <= d * q
  {
  }

  lemma Smaller(d: nat, p: nat, q: int)
    requires p <= q
    ensures d * p <= d * q && d * p == d * (p - 1) + d
  {
  }

  lemma Apart(d: nat, p: nat, q: nat)
    ensures d * (p - q) == d * p - d * q
  {
  }

  /** The least power of two above x */
  ghost predicate IsNextPow2(r: int, x: nat)
  {
    IsPow2(r) && x < r && (x > 0 ==> r <= 2 * x) && forall k: nat :: x < Pow2(k) ==> r <= Pow2(k)
  }

  /** The number of bits in use */
  function Width(x: nat): (k: nat)
    ensures x < Pow2(k) && (x > 0 ==> Pow2(k) <= 2 * x)
  {
    if x == 0 then 0 else Width(x / 2) + 1
  }

  lemma WidthIsLeast(x: nat, k: nat)
    requires x < Pow2(k)
    ensures Width(x) <= k
  {
    if k < Width(x) {
      PowGrows(k, Width(x));
      assert false;
    }
  }

  /** nextupow2 on 64-bit words: the least power of two above x when it fits, 0 when it does not. */
  method NextUpPow2(x: word64) returns (r: word64)
    ensures x < MOST ==> IsNextPow2(r, x)
    ensures x >= MOST ==> r == 0
  {
    if x == 0 {
      assert 1 == Pow2(0);
      return 1;
    }
    ghost var k := Width(x);
    var y: nat, i: nat := x, 1;
    ghost var steps: nat := 0;
    Doublings(0);
    while i < 64
      invariant steps <= 6 && i == Pow2(steps) && (i == 64 <==> steps == 6) && i <= 64
      invariant Smeared(y, k, i)
      decreases 6 - steps
    {
      Doublings(steps + 1);
      SmearStep(y, k, i);
      y := Or(y, Shifted(y, i));
      i := i * 2;
      steps := steps + 1;
    }
    AllSet(x, k, y);
    r := if y + 1 < INT64_SPAN then y + 1 else y + 1 - INT64_SPAN;
  }

  lemma Doublings(steps: nat)
    requires steps <= 6
    ensures Pow2(steps) <= 64 && (Pow2(steps) == 64 <==> steps == 6)
  {
    assert Pow2(6) == 64;
    if steps < 6 {
      PowGrows(steps, 6);
    }
  }

  lemma AllSet(x: word64, k: nat, y: nat)
    requires x > 0 && k == Width(x) && Smeared(y, k, 64)
    ensures if x < MOST then y + 1 < INT64_SPAN && IsNextPow2(y + 1, x) else y + 1 == INT64_SPAN
  {
    Pow2Of63();
    WidthIsLeast(x, 64);
    assert y + 1 == Pow2(k);
    Fits(x, k);
    forall j: nat | x < Pow2(j)
      ensures Pow2(k) <= Pow2(j)
    {
      WidthIsLeast(x, j);
      if k < j {
        PowGrows(k, j);
      }
    }
  }

  lemma Pow2Of63()
    ensures Pow2(63) == MOST && Pow2(64) == INT64_SPAN
  {
    assert Pow2(4) == 16;
    assert Pow2(8) == 0x100;
    assert Pow2(16) == 0x1_0000;
    PowSum(16, 16);
    PowSum(32, 32);
    assert Pow2(64) == 2 * Pow2(63);
  }

  /** A 64-bit word needs all 64 bits exactly when it is at least 2^63. */
  lemma Fits(x: word64, k: nat)
    requires k == Width(x) && x > 0
    ensures x < MOST ==> Pow2(k) < INT64_SPAN
    ensures x >= MOST ==> Pow2(k) == INT64_SPAN
  {
    Pow2Of63();
    if x < MOST {
      WidthIsLeast(x, 63);
      if k < 63 {
        PowGrows(k, 63);
      }
    } else {
      WidthIsLeast(x, 64);
      if k < 64 {
        if k < 63 {
          PowGrows(k, 63);
        }
        assert false;
      }
    }
  }
}

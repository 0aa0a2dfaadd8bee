/** Binary arithmetic on frame numbers.  A frame number is cut at bit `k` into the number of the
    order-`k` block it lies in (`Up`) and its place inside that block (`Low`). */
module Bits {

  function Pow2(k: nat): (p: nat)
    ensures p >= 1
  {
    if k == 0 then 1 else 2 * Pow2(k - 1)
  }

  /** The number of the aligned block of 2^k frames that contains `f`. */
  function Up(f: nat, k: nat): nat {
    if k == 0 then f else Up(f / 2, k - 1)
  }

  /** The place of `f` inside its aligned block of 2^k frames. */
  function Low(f: nat, k: nat): nat {
    if k == 0 then 0 else 2 * Low(f / 2, k - 1) + f % 2
  }

  /** Bit `j` of `f`. */
  function Bit(f: nat, j: nat): nat {
    Up(f, j) % 2
  }

  /** `f` exclusive-or 2^k. */
  function Flip(f: nat, k: nat): nat {
    if k > 0 then 2 * Flip(f / 2, k - 1) + f % 2
    else if f % 2 == 0 then f + 1 else f - 1
  }

  lemma {:induction false} UpStep(f: nat, k: nat)
    ensures Up(f, k + 1) == Up(f, k) / 2
  {
    if k > 0 {
      UpStep(f / 2, k - 1);
    }
  }

  lemma {:induction false} LowStep(f: nat, k: nat)
    ensures Low(f, k + 1) == Low(f, k) + (if Bit(f, k) == 1 then Pow2(k) else 0)
  {
    if k > 0 {
      LowStep(f / 2, k - 1);
    }
  }

  /** Cutting a frame number at bit `k` loses nothing. */
  lemma {:induction false} Cut(f: nat, k: nat)
    ensures f == Up(f, k) * Pow2(k) + Low(f, k)
    ensures Low(f, k) < Pow2(k)
  {
    if k > 0 {
      Cut(f / 2, k - 1);
      var u, p, l := Up(f / 2, k - 1), Pow2(k - 1), Low(f / 2, k - 1);
      assert Up(f, k) == u && Pow2(k) == 2 * p && Low(f, k) == 2 * l + f % 2;
      hide Up, Pow2, Low;
      assert f / 2 == u * p + l;
      Twice(u, p);
    }
  }

  lemma {:induction false} Twice(u: nat, p: nat)
    ensures u * (2 * p) == 2 * (u * p)
  {
  }

  lemma {:induction false} UpLowDetermine(f: nat, g: nat, k: nat)
    requires Up(f, k) == Up(g, k) && Low(f, k) == Low(g, k)
    ensures f == g
  {
    Cut(f, k);
    Cut(g, k);
  }

  /** Frames in one block lie in one block of every higher order. */
  lemma {:induction false} UpMono(f: nat, g: nat, j: nat, k: nat)
    requires j <= k && Up(f, j) == Up(g, j)
    ensures Up(f, k) == Up(g, k)
    decreases k - j
  {
    if j < k {
      UpStep(f, j);
      UpStep(g, j);
      UpMono(f, g, j + 1, k);
    }
  }

  /** Agreement on the low `k` bits is agreement on any fewer. */
  lemma {:induction false} LowMono(f: nat, g: nat, j: nat, k: nat)
    requires j <= k && Low(f, k) == Low(g, k)
    ensures Low(f, j) == Low(g, j)
  {
    if j > 0 {
      LowMono(f / 2, g / 2, j - 1, k - 1);
    }
  }

  lemma {:induction false} LowZero(h: nat, v: nat, o: nat)
    requires v <= o && Low(h, v) == 0
    ensures Low(h, o) == 0 <==> forall k: nat :: v <= k < o ==> Bit(h, k) == 0
    decreases o - v
  {
    if v < o {
      LowStep(h, v);
      if Bit(h, v) == 0 {
        LowZero(h, v + 1, o);
      } else if Low(h, o) == 0 {
        LowMono(h, 0, v + 1, o) by {
          ZeroLow(o);
        }
        ZeroLow(v + 1);
      }
    }
  }

  lemma {:induction false} ZeroLow(k: nat)
    ensures Low(0, k) == 0
  {
    if k > 0 {
      ZeroLow(k - 1);
    }
  }

  /** Flipping bit `k` moves to the other half of the order-(k+1) block and keeps the place. */
  lemma {:induction false} FlipBlock(f: nat, k: nat)
    ensures Up(Flip(f, k), k) == (if Up(f, k) % 2 == 0 then Up(f, k) + 1 else Up(f, k) - 1)
    ensures Up(Flip(f, k), k + 1) == Up(f, k + 1)
    ensures Low(Flip(f, k), k) == Low(f, k)
    ensures Flip(Flip(f, k), k) == f
    ensures Flip(f, k) != f
  {
    if k > 0 {
      FlipBlock(f / 2, k - 1);
      assert Flip(f, k) / 2 == Flip(f / 2, k - 1) && Flip(f, k) % 2 == f % 2;
    }
    UpStep(f, k);
    UpStep(Flip(f, k), k);
  }

  /** The two halves of an order-(k+1) block are the block of `h` and the block of `Flip(h, k)`. */
  lemma {:induction false} Halves(f: nat, h: nat, k: nat)
    requires Up(f, k + 1) == Up(h, k + 1)
    ensures Up(f, k) == Up(h, k) || Up(f, k) == Up(Flip(h, k), k)
  {
    UpStep(f, k);
    UpStep(h, k);
    FlipBlock(h, k);
  }

  /** `Flip` is exclusive-or with a single bit: bit `k` changes and no other. */
  lemma {:induction false} FlipIsXor(f: nat, k: nat, j: nat)
    ensures Bit(Flip(f, k), j) == (if j == k then 1 - Bit(f, j) else Bit(f, j))
  {
    if k == 0 {
      if j > 0 {
        assert Flip(f, 0) / 2 == f / 2;
      }
    } else {
      assert Flip(f, k) / 2 == Flip(f / 2, k - 1) && Flip(f, k) % 2 == f % 2;
      if j > 0 {
        FlipIsXor(f / 2, k - 1, j - 1);
      }
    }
  }

  lemma {:induction false} MulLess(a: nat, b: nat, p: nat)
    requires a < b
    ensures a * p + p <= b * p
  {
    assert b * p - a * p == (b - a) * p;
    assert (b - a - 1) * p >= 0;
  }

  lemma {:induction false} DivUnique(x: nat, d: nat, q: nat, r: nat)
    requires d > 0 && x == q * d + r && r < d
    ensures x / d == q && x % d == r
  {
    var p := x / d;
    assert x == p * d + x % d;
    if p < q {
      MulLess(p, q, d);
      assert false;
    }
    if q < p {
      MulLess(q, p, d);
      assert false;
    }
  }

  /** Bitwise or. */
  function Or(a: nat, b: nat): nat {
    if a == 0 then b
    else if b == 0 then a
    else 2 * Or(a / 2, b / 2) + (if a % 2 == 1 || b % 2 == 1 then 1 else 0)
  }

  lemma {:induction false} OrHalf(a: nat, b: nat)
    ensures Or(a, b) / 2 == Or(a / 2, b / 2)
    ensures Or(a, b) % 2 == 1 <==> a % 2 == 1 || b % 2 == 1
  {
  }

  lemma {:induction false} OrUp(a: nat, b: nat, k: nat)
    ensures Up(Or(a, b), k) == Or(Up(a, k), Up(b, k))
  {
    if k > 0 {
      OrHalf(a, b);
      OrUp(a / 2, b / 2, k - 1);
    }
  }

  lemma {:induction false} LowHalf(a: nat, k: nat)
    requires k > 0
    ensures Low(a, k) / 2 == Low(a / 2, k - 1) && Low(a, k) % 2 == a % 2
  {
  }

  lemma {:induction false} OrLow(a: nat, b: nat, k: nat)
    ensures Low(Or(a, b), k) == Or(Low(a, k), Low(b, k))
  {
    if k > 0 {
      OrHalf(a, b);
      OrLow(a / 2, b / 2, k - 1);
      LowHalf(a, k);
      LowHalf(b, k);
      LowHalf(Or(a, b), k);
      OrHalf(Low(a, k), Low(b, k));
      hide Or, Low;
    }
  }

  /** `Or` sets exactly the bits set in either number. */
  lemma {:induction false} OrBit(a: nat, b: nat, j: nat)
    ensures Bit(Or(a, b), j) == 1 <==> Bit(a, j) == 1 || Bit(b, j) == 1
  {
    OrUp(a, b, j);
    OrHalf(Up(a, j), Up(b, j));
  }

  /** `Up` and `Low` are quotient and remainder. */
  lemma {:induction false} CutIsDivMod(a: nat, k: nat)
    ensures Up(a, k) == a / Pow2(k) && Low(a, k) == a % Pow2(k)
  {
    Cut(a, k);
    DivUnique(a, Pow2(k), Up(a, k), Low(a, k));
  }

  lemma {:induction false} Pow2Sum(j: nat, k: nat)
    ensures Pow2(j + k) == Pow2(j) * Pow2(k)
  {
    if j > 0 {
      Pow2Sum(j - 1, k);
      assert Pow2(j) * Pow2(k) == 2 * (Pow2(j - 1) * Pow2(k));
    }
  }

  lemma {:induction false} Powers()
    ensures Pow2(12) == 0x1000 && Pow2(36) == 0x10_0000_0000
  {
    Pow2Sum(12, 12);
    Pow2Sum(12, 24);
  }

  lemma {:induction false} UpOfZero(k: nat)
    ensures Up(0, k) == 0
  {
    if k > 0 {
      UpOfZero(k - 1);
    }
  }

  /** A power of two has one bit. */
  lemma {:induction false} BitOfPower(k: nat, j: nat)
    ensures Bit(Pow2(k), j) == if j == k then 1 else 0
  {
    if j > 0 {
      if k == 0 {
        UpOfZero(j - 1);
      } else {
        assert Pow2(k) / 2 == Pow2(k - 1);
        BitOfPower(k - 1, j - 1);
      }
    }
  }

  lemma {:induction false} PowMono(j: nat, k: nat)
    requires j <= k
    ensures Pow2(j) <= Pow2(k)
    decreases k - j
  {
    if j < k {
      PowMono(j + 1, k);
    }
  }

  /** A number has no bits from its size on. */
  lemma {:induction false} NoHighBits(a: nat, k: nat, j: nat)
    requires a < Pow2(k) && k <= j
    ensures Bit(a, j) == 0
  {
    PowMono(k, j);
    CutIsDivMod(a, j);
  }

  /** A multiple of 2^k has no bits below bit `k`. */
  lemma {:induction false} NoLowBits(a: nat, k: nat, j: nat)
    requires Low(a, k) == 0 && j < k
    ensures Bit(a, j) == 0
  {
    LowZero(a, 0, k);
  }

  lemma {:induction false} UpTwelve(a: nat)
    ensures Up(a, 12) == a / 0x1000
  {
    hide *;
    CutIsDivMod(a, 12);
    Powers();
  }

  lemma {:induction false} LowThirtySix(a: nat)
    ensures Low(a, 36) == a % 0x10_0000_0000
  {
    hide *;
    CutIsDivMod(a, 36);
    Powers();
  }
}

/** Powers of two and the bitwise operators the kernel applies to unsigned words. */
module Bits {

  function Pow2(k: nat): (p: nat)
    ensures p >= 1
  {
    if k == 0 then 1 else 2 * Pow2(k - 1)
  }

  /** The low k bits of a are zero. */
  predicate Aligned(a: nat, k: nat) {
    k == 0 || (a % 2 == 0 && Aligned(a / 2, k - 1))
  }

  function Xor(a: nat, b: nat): nat {
    if a == 0 && b == 0 then 0 else (a % 2 + b % 2) % 2 + 2 * Xor(a / 2, b / 2)
  }

  function Or(a: nat, b: nat): nat {
    if a == 0 && b == 0 then 0
    else (if a % 2 == 1 || b % 2 == 1 then 1 else 0) + 2 * Or(a / 2, b / 2)
  }

  lemma {:induction false} Pow2Mono(i: nat, j: nat)
    requires i <= j
    ensures Pow2(i) <= Pow2(j)
    decreases j
  {
    if i < j { Pow2Mono(i, j - 1); }
  }

  lemma {:induction false} AlignedHalves(a: nat, k: nat)
    requires k > 0 && Aligned(a, k)
    ensures Aligned(a, k - 1) && Aligned(a + Pow2(k - 1), k - 1)
  {
    if k > 1 {
      AlignedHalves(a / 2, k - 1);
      assert (a + Pow2(k - 1)) / 2 == a / 2 + Pow2(k - 2);
    }
  }

  lemma {:induction false} AlignedDown(a: nat, j: nat, k: nat)
    requires j <= k && Aligned(a, k)
    ensures Aligned(a, j)
    decreases k
  {
    if j < k { AlignedHalves(a, k); AlignedDown(a, j, k - 1); }
  }

  function Shr(a: nat, k: nat): nat {
    if k == 0 then a else Shr(a / 2, k - 1)
  }

  lemma Twice(q: nat, p: nat)
    ensures q * (2 * p) == 2 * (q * p)
  {
  }

  /** Aligned is divisibility by the power of two. */
  lemma {:induction false} AlignedIsMultiple(a: nat, k: nat)
    ensures Aligned(a, k) <==> a == Shr(a, k) * Pow2(k)
  {
    if k > 0 {
      AlignedIsMultiple(a / 2, k - 1);
      var q, p := Shr(a / 2, k - 1), Pow2(k - 1);
      Twice(q, p);
    }
  }

  lemma {:induction false} MultipleIsAligned(q: nat, k: nat)
    ensures Aligned(q * Pow2(k), k)
  {
    if k > 0 {
      var p := Pow2(k - 1);
      Twice(q, p);
      MultipleIsAligned(q, k - 1);
    }
  }

  lemma Aligned32(a: nat)
    requires Aligned(a, 5)
    ensures a % 32 == 0
  {
    assert Aligned(a / 2, 4) && Aligned(a / 2 / 2, 3) && Aligned(a / 2 / 2 / 2, 2) && Aligned(a / 2 / 2 / 2 / 2, 1);
  }

  /** Toggling bit k of an address aligned to 2^(k+1) moves to the upper half, and back. */
  lemma {:induction false} XorBit(a: nat, k: nat)
    requires Aligned(a, k + 1)
    ensures Xor(a, Pow2(k)) == a + Pow2(k)
    ensures Xor(a + Pow2(k), Pow2(k)) == a
  {
    if k == 0 {
      XorZero(a / 2);
      assert Xor(a, 1) == 1 + 2 * Xor(a / 2, 0);
      assert Xor(a + 1, 1) == 2 * Xor((a + 1) / 2, 0);
    } else {
      XorBit(a / 2, k - 1);
      assert Pow2(k) == 2 * Pow2(k - 1);
      assert (a + Pow2(k)) / 2 == a / 2 + Pow2(k - 1);
    }
  }

  lemma {:induction false} XorZero(a: nat)
    ensures Xor(a, 0) == a
  {
    if a > 0 { XorZero(a / 2); }
  }

  /** Or of a value with k clear low bits and a k-bit value is their sum. */
  lemma {:induction false} OrDisjoint(a: nat, b: nat, k: nat)
    requires Aligned(a, k) && b < Pow2(k)
    ensures Or(a, b) == a + b
  {
    if k == 0 {
      OrZero(a);
    } else if a > 0 || b > 0 {
      OrDisjoint(a / 2, b / 2, k - 1);
    }
  }

  lemma {:induction false} OrZero(a: nat)
    ensures Or(a, 0) == a
  {
    if a > 0 { OrZero(a / 2); }
  }

  function And(a: nat, b: nat): nat {
    if a == 0 || b == 0 then 0 else (if a % 2 == 1 && b % 2 == 1 then 1 else 0) + 2 * And(a / 2, b / 2)
  }

  /** The bits of a that m does not have: a & ~m. */
  function AndNot(a: nat, m: nat): nat {
    if a == 0 then 0 else (if m % 2 == 1 then 0 else a % 2) + 2 * AndNot(a / 2, m / 2)
  }

  /** Masking with ~(2^k - 1) rounds down to a multiple of 2^k. */
  lemma {:induction false} MaskLow(a: nat, k: nat)
    ensures Aligned(AndNot(a, Pow2(k) - 1), k)
    ensures AndNot(a, Pow2(k) - 1) <= a < AndNot(a, Pow2(k) - 1) + Pow2(k)
  {
    if k == 0 {
      AndNotZero(a);
    } else {
      assert (Pow2(k) - 1) / 2 == Pow2(k - 1) - 1;
      MaskLow(a / 2, k - 1);
      AlignedZero(k);
    }
  }

  lemma {:induction false} AlignedZero(k: nat)
    ensures Aligned(0, k)
  {
    if k > 0 { AlignedZero(k - 1); }
  }

  lemma {:induction false} AndNotZero(a: nat)
    ensures AndNot(a, 0) == a
  {
    if a > 0 { AndNotZero(a / 2); }
  }

  /** The power-of-two test a & (a - 1) == 0. */
  lemma {:induction false} PowerOfTwo(a: nat)
    requires a > 0
    ensures And(a, a - 1) == 0 <==> exists k: nat :: a == Pow2(k)
  {
    if a == 1 {
      assert a == Pow2(0);
    } else if a % 2 == 0 {
      PowerOfTwo(a / 2);
      assert (a - 1) / 2 == a / 2 - 1;
      if k: nat :| a / 2 == Pow2(k) { assert a == Pow2(k + 1); }
      if k: nat :| a == Pow2(k) { assert a / 2 == Pow2(k - 1); }
    } else {
      AndSelf(a / 2);
    }
  }

  lemma {:induction false} AndSelf(a: nat)
    ensures And(a, a) == a
  {
    if a > 0 { AndSelf(a / 2); }
  }

  // ---------------------------------------------------------------- single bits

  predicate Bit(w: nat, i: nat) {
    if i == 0 then w % 2 == 1 else Bit(w / 2, i - 1)
  }

  lemma {:induction false} SetBit(w: nat, i: nat, j: nat)
    ensures Bit(Or(w, Pow2(i)), j) <==> i == j || Bit(w, j)
  {
    if i == 0 {
      OrZero(w / 2);
    } else if j > 0 {
      SetBit(w / 2, i - 1, j - 1);
    }
  }

  lemma {:induction false} ClearBit(w: nat, i: nat, j: nat)
    ensures Bit(AndNot(w, Pow2(i)), j) <==> i != j && Bit(w, j)
    ensures AndNot(w, Pow2(i)) <= w
  {
    if w == 0 {
      NoBits(j);
    } else if i == 0 {
      AndNotZero(w / 2);
    } else {
      ClearBit(w / 2, i - 1, if j > 0 then j - 1 else 0);
    }
  }

  lemma {:induction false} NoBits(j: nat)
    ensures !Bit(0, j)
  {
    if j > 0 { NoBits(j - 1); }
  }

  lemma {:induction false} TestBit(w: nat, i: nat)
    ensures And(w, Pow2(i)) != 0 <==> Bit(w, i)
  {
    if w == 0 {
      NoBits(i);
    } else if i == 0 {
      AndZero(w / 2);
    } else {
      TestBit(w / 2, i - 1);
    }
  }

  lemma AndZero(a: nat)
    ensures And(a, 0) == 0
  {
  }

  lemma {:induction false} OrBound(a: nat, b: nat, k: nat)
    requires a < Pow2(k) && b < Pow2(k)
    ensures Or(a, b) < Pow2(k)
  {
    if k > 0 && (a > 0 || b > 0) { OrBound(a / 2, b / 2, k - 1); }
  }

  /** Aligned values closer than the alignment are equal. */
  lemma {:induction false} AlignedUnique(a: nat, b: nat, k: nat)
    requires Aligned(a, k) && Aligned(b, k) && a < b + Pow2(k) && b < a + Pow2(k)
    ensures a == b
  {
    if k > 0 { AlignedUnique(a / 2, b / 2, k - 1); }
  }

  // ---------------------------------------------------------------- page-table entries

  lemma {:induction false} AndMask(a: nat, k: nat)
    requires a < Pow2(k)
    ensures And(a, Pow2(k) - 1) == a
  {
    if k > 0 && a > 0 {
      assert (Pow2(k) - 1) / 2 == Pow2(k - 1) - 1;
      AndMask(a / 2, k - 1);
    }
  }

  lemma OrOne(a: nat)
    ensures Or(a, 1) == if a % 2 == 1 then a else a + 1
  {
    OrZero(a / 2);
    assert Or(a, 1) == 1 + 2 * Or(a / 2, 0);
  }
}

/** Unsigned 64-bit words and C's bitwise operators on them, defined bit by bit from the low end.
    Proofs need only halving, so no bit-vector reasoning is involved. */
module Bits {
  const TWO_64: nat := 0x1_0000_0000_0000_0000

  type u64 = x: int | 0 <= x < 0x1_0000_0000_0000_0000

  /** C's `int`. */
  type i32 = x: int | -0x8000_0000 <= x < 0x8000_0000

  /** `1 << k`. */
  function Pow2(k: nat): (p: nat)
    ensures p > 0
  {
    if k == 0 then 1 else 2 * Pow2(k - 1)
  }

  /** Bit `k` of `x`: `(x >> k) & 1`. */
  predicate Bit(x: nat, k: nat) {
    if k == 0 then x % 2 == 1 else Bit(x / 2, k - 1)
  }

  /** Assigning bit `j`. */
  function PutBit(x: nat, j: nat, b: bool): nat {
    if j == 0 then x / 2 * 2 + (if b then 1 else 0) else PutBit(x / 2, j - 1, b) * 2 + x % 2
  }

  function BothOdd(x: nat, y: nat): (b: nat)
    ensures b < 2
  {
    if x % 2 == 1 && y % 2 == 1 then 1 else 0
  }

  /** `x & y`. */
  function And(x: nat, y: nat): (r: nat)
    ensures r <= x && r <= y
  {
    if x == 0 || y == 0 then 0
    else 2 * And(x / 2, y / 2) + BothOdd(x, y)
  }

  /** `x | y`. */
  function Or(x: nat, y: nat): (r: nat)
    ensures x <= r && y <= r <= x + y
  {
    if x == 0 then y
    else if y == 0 then x
    else 2 * Or(x / 2, y / 2) + (if x % 2 == 1 || y % 2 == 1 then 1 else 0)
  }

  /** `~x` on 64 bits. */
  function Not(x: u64): u64 {
    TWO_64 - 1 - x
  }

  lemma Halve(h: nat, b: nat)
    requires b < 2
    ensures (2 * h + b) / 2 == h && (2 * h + b) % 2 == b
  {
  }

  /** One step of `&` at the low end. */
  lemma AndStep(x: nat, y: nat)
    ensures And(x, y) == 2 * And(x / 2, y / 2) + BothOdd(x, y)
    ensures And(x, y) / 2 == And(x / 2, y / 2) && And(x, y) % 2 == BothOdd(x, y)
  {
    Halve(And(x / 2, y / 2), BothOdd(x, y));
  }

  lemma {:induction false} BitOfZero(k: nat)
    ensures !Bit(0, k)
  {
    if k > 0 {
      BitOfZero(k - 1);
    }
  }

  lemma {:induction false} BitOfAnd(x: nat, y: nat, k: nat)
    ensures Bit(And(x, y), k) == (Bit(x, k) && Bit(y, k))
  {
    if x == 0 || y == 0 {
      BitOfZero(k);
    } else if k > 0 {
      BitOfAnd(x / 2, y / 2, k - 1);
    }
  }

  lemma {:induction false} BitOfOr(x: nat, y: nat, k: nat)
    ensures Bit(Or(x, y), k) == (Bit(x, k) || Bit(y, k))
  {
    if x == 0 || y == 0 {
      BitOfZero(k);
    } else if k > 0 {
      BitOfOr(x / 2, y / 2, k - 1);
    }
  }

  lemma PutBitStep(x: nat, j: nat, b: bool)
    ensures j == 0 ==> PutBit(x, j, b) / 2 == x / 2 && PutBit(x, j, b) % 2 == if b then 1 else 0
    ensures j > 0 ==> PutBit(x, j, b) / 2 == PutBit(x / 2, j - 1, b) && PutBit(x, j, b) % 2 == x % 2
  {
    Halve(x / 2, if b then 1 else 0);
    if j > 0 {
      Halve(PutBit(x / 2, j - 1, b), x % 2);
    }
  }

  /** The bit is assigned and every other bit is as before. */
  lemma {:induction false} BitOfPutBit(x: nat, j: nat, b: bool, k: nat)
    ensures Bit(PutBit(x, j, b), k) == if k == j then b else Bit(x, k)
  {
    PutBitStep(x, j, b);
    if j > 0 && k > 0 {
      BitOfPutBit(x / 2, j - 1, b, k - 1);
    }
  }

  lemma {:induction false} PutBitBound(x: nat, j: nat, b: bool, n: nat)
    requires j < n && x < Pow2(n)
    ensures PutBit(x, j, b) < Pow2(n)
  {
    if j > 0 {
      PutBitBound(x / 2, j - 1, b, n - 1);
    }
  }

  /** The last value put counts. */
  lemma {:induction false} PutBitTwice(x: nat, j: nat, a: bool, b: bool)
    ensures PutBit(PutBit(x, j, a), j, b) == PutBit(x, j, b)
  {
    PutBitStep(x, j, a);
    if j > 0 {
      PutBitTwice(x / 2, j - 1, a, b);
    }
  }

  /** Different bits are put in any order. */
  lemma {:induction false} PutBitSwap(x: nat, i: nat, j: nat, a: bool, b: bool)
    requires i != j
    ensures PutBit(PutBit(x, i, a), j, b) == PutBit(PutBit(x, j, b), i, a)
  {
    PutBitStep(x, i, a);
    PutBitStep(x, j, b);
    if i > 0 && j > 0 {
      PutBitSwap(x / 2, i - 1, j - 1, a, b);
    }
  }

  lemma {:induction false} BitOfPow2(b: nat, k: nat)
    ensures Bit(Pow2(b), k) == (b == k)
  {
    if b == 0 {
      if k > 0 {
        BitOfZero(k - 1);
      }
    } else if k > 0 {
      assert Pow2(b) / 2 == Pow2(b - 1);
      BitOfPow2(b - 1, k - 1);
    }
  }

  /** Complementing the low `n` bits flips each of them. */
  lemma {:induction false} BitOfComplement(x: nat, n: nat, k: nat)
    requires k < n && x < Pow2(n)
    ensures Bit(Pow2(n) - 1 - x, k) == !Bit(x, k)
  {
    if k > 0 {
      assert (Pow2(n) - 1 - x) / 2 == Pow2(n - 1) - 1 - x / 2;
      BitOfComplement(x / 2, n - 1, k - 1);
    }
  }

  lemma {:induction false} Pow2Adds(j: nat, k: nat)
    ensures Pow2(j + k) == Pow2(j) * Pow2(k)
  {
    if j > 0 {
      Pow2Adds(j - 1, k);
    }
  }

  lemma Pow2Of32()
    ensures Pow2(32) == 0x1_0000_0000
  {
    assert Pow2(4) == 16;
    Pow2Adds(4, 4);
    Pow2Adds(8, 8);
    Pow2Adds(16, 16);
  }

  lemma Pow2Of64()
    ensures Pow2(64) == TWO_64
  {
    Pow2Of32();
    Pow2Adds(32, 32);
  }

  lemma {:induction false} Pow2Grows(j: nat, k: nat)
    requires j <= k
    ensures Pow2(j) <= Pow2(k)
  {
    if j < k {
      Pow2Grows(j, k - 1);
    }
  }

  lemma {:induction false} OrIsWord(x: nat, y: nat, n: nat)
    requires x < Pow2(n) && y < Pow2(n)
    ensures Or(x, y) < Pow2(n)
  {
    if n > 0 {
      OrIsWord(x / 2, y / 2, n - 1);
    }
  }

  lemma {:induction false} BitBeyond(x: nat, n: nat, k: nat)
    requires x < Pow2(n) && n <= k
    ensures !Bit(x, k)
  {
    if n == 0 {
      BitOfZero(k);
    } else {
      BitBeyond(x / 2, n - 1, k - 1);
    }
  }

  lemma HalfShifted(h: nat, p: nat, l: nat)
    ensures (h * (2 * p) + l) / 2 == h * p + l / 2 && (h * (2 * p) + l) % 2 == l % 2
  {
    assert h * (2 * p) == 2 * (h * p);
    Halve(h * p + l / 2, l % 2);
  }

  /** The bits of a number put together from a high and a low part. */
  lemma {:induction false} BitSplit(h: nat, l: nat, n: nat, k: nat)
    requires l < Pow2(n)
    ensures Bit(h * Pow2(n) + l, k) == if k < n then Bit(l, k) else Bit(h, k - n)
  {
    if n > 0 {
      HalfShifted(h, Pow2(n - 1), l);
      if k > 0 {
        BitSplit(h, l / 2, n - 1, k - 1);
      }
    }
  }
}

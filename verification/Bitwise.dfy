/** Bitwise operators on naturals, defined bit by bit, and the few laws by which
    the mask-and-shift idioms of the virtual machine become arithmetic. */
module Bitwise {

  datatype BitOp = And | Or | Xor

  function Pow2(n: nat): (p: nat)
    ensures p > 0
  {
    if n == 0 then 1 else 2 * Pow2(n - 1)
  }

  function Bit(op: BitOp, a: nat, b: nat): nat {
    match op
    case And => if a == 1 && b == 1 then 1 else 0
    case Or => if a == 1 || b == 1 then 1 else 0
    case Xor => if a != b then 1 else 0
  }

  function Bits(op: BitOp, x: nat, y: nat): nat
    decreases x + y
  {
    if x == 0 && y == 0 then 0
    else 2 * Bits(op, x / 2, y / 2) + Bit(op, x % 2, y % 2)
  }

  lemma MulAssoc(a: int, b: int, c: int)
    ensures a * (b * c) == (a * b) * c
  {
  }

  lemma {:induction false} Pow2Add(m: nat, n: nat)
    ensures Pow2(m + n) == Pow2(m) * Pow2(n)
  {
    if m == 0 {
    } else {
      Pow2Add(m - 1, n);
      MulAssoc(2, Pow2(m - 1), Pow2(n));
    }
  }

  /** x is a high part above k low bits. */
  ghost predicate Cut(k: nat, high: nat, low: nat, x: nat) {
    low < Pow2(k) && x == high * Pow2(k) + low
  }

  lemma CutHalf(k: nat, high: nat, low: nat, x: nat)
    requires k > 0 && Cut(k, high, low, x)
    ensures Cut(k - 1, high, low / 2, x / 2) && x % 2 == low % 2
  {
    MulAssoc(high, 2, Pow2(k - 1));
    assert x == 2 * (high * Pow2(k - 1)) + low;
  }

  /** Every number is cut by its quotient and remainder. */
  lemma CutAt(k: nat, x: nat) returns (high: nat, low: nat)
    ensures Cut(k, high, low, x) && low == x % Pow2(k)
  {
    QuotientNat(x, Pow2(k));
    high, low := x / Pow2(k), x % Pow2(k);
  }

  lemma QuotientNat(x: nat, p: nat)
    requires p > 0
    ensures x / p >= 0
    ensures x == (x / p) * p + x % p
  {
  }

  /** An operator acts separately on a high part and a k-bit low part. */
  lemma {:induction false} BitsConcat(op: BitOp, k: nat, x1: nat, x0: nat, y1: nat, y0: nat, x: nat, y: nat)
    requires Cut(k, x1, x0, x) && Cut(k, y1, y0, y)
    ensures Cut(k, Bits(op, x1, y1), Bits(op, x0, y0), Bits(op, x, y))
    decreases k
  {
    if k == 0 {
      assert Bits(op, 0, 0) == 0;
    } else {
      CutHalf(k, x1, x0, x);
      CutHalf(k, y1, y0, y);
      BitsConcat(op, k - 1, x1, x0 / 2, y1, y0 / 2, x / 2, y / 2);
      BitsStep(op, x, y);
      BitsStep(op, x0, y0);
      CutDouble(k - 1, Bits(op, x1, y1), Bits(op, x0 / 2, y0 / 2), Bits(op, x / 2, y / 2), Bit(op, x % 2, y % 2));
    }
  }

  lemma CutDouble(k: nat, high: nat, low: nat, x: nat, b: nat)
    requires Cut(k, high, low, x) && b <= 1
    ensures Cut(k + 1, high, 2 * low + b, 2 * x + b)
  {
    MulAssoc(high, 2, Pow2(k));
  }

  /** The defining equation, which also holds when both numbers are zero. */
  lemma BitsStep(op: BitOp, x: nat, y: nat)
    ensures Bits(op, x, y) == 2 * Bits(op, x / 2, y / 2) + Bit(op, x % 2, y % 2)
  {
  }

  lemma {:induction false} BitsBound(op: BitOp, k: nat, x: nat, y: nat)
    requires x < Pow2(k) && y < Pow2(k)
    ensures Bits(op, x, y) < Pow2(k)
    decreases k
  {
    if k == 0 {
    } else {
      BitsBound(op, k - 1, x / 2, y / 2);
    }
  }

  lemma {:induction false} BitsZero(op: BitOp, x: nat)
    ensures Bits(op, x, 0) == if op == And then 0 else x
    ensures Bits(op, 0, x) == if op == And then 0 else x
    decreases x
  {
    if x == 0 {
    } else {
      BitsZero(op, x / 2);
    }
  }

  /** Masking with k ones keeps a k-bit value. */
  lemma {:induction false} AndOnes(k: nat, x: nat)
    requires x < Pow2(k)
    ensures Bits(And, x, Pow2(k) - 1) == x
    decreases k
  {
    if k == 0 {
    } else {
      assert (Pow2(k) - 1) / 2 == Pow2(k - 1) - 1 && (Pow2(k) - 1) % 2 == 1;
      AndOnes(k - 1, x / 2);
    }
  }

  /** Masking with k ones takes the low k bits. */
  lemma AndLow(k: nat, high: nat, low: nat, x: nat)
    requires Cut(k, high, low, x)
    ensures Bits(And, x, Pow2(k) - 1) == low
  {
    BitsConcat(And, k, high, low, 0, Pow2(k) - 1, x, Pow2(k) - 1);
    BitsZero(And, high);
    AndOnes(k, low);
  }

  /** Or-ing a low part into a value whose low bits are clear adds it. */
  lemma OrLow(k: nat, high: nat, low: nat, x: nat)
    requires low < Pow2(k) && Cut(k, high, 0, x)
    ensures Bits(Or, x, low) == x + low
  {
    BitsConcat(Or, k, high, 0, 0, low, x, low);
    BitsZero(Or, high);
    BitsZero(Or, low);
  }
}

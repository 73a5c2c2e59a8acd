/** The register-to-register instructions: what they compute from PRI, ALT and
    the operand, and what the arithmetic ones mean. */
module Alu {
  import opened Bitwise
  import opened Cells

  datatype AluOp =
    | ConstPri | ConstAlt | Xchg | AlignPri
    | Shl | Shr | Sshr | ShlCPri | ShlCAlt | Smul | Sdiv | AddOp | SubOp
    | AndOp | OrOp | XorOp | NotOp | NegOp | InvertOp
    | Eq | Neq | Sless | Sleq | Sgrtr | Sgeq
    | IncPri | IncAlt | DecPri | DecAlt

  /** C++ leaves oversized shifts and signed overflow undefined. */
  datatype AluResult = Regs(pri: Cell, alt: Cell) | ZeroDivide | Unspecified

  function ShiftLeft(x: Cell, n: nat): Cell {
    Wrap(x * Pow2(n))
  }

  function ShiftRight(x: Cell, n: nat): Cell {
    QuotientNat(x, Pow2(n));
    QuotientShrinks(x, Pow2(n));
    x / Pow2(n)
  }

  function SignedShift(x: Cell, n: nat): Cell {
    Wrap(Signed(x) / Pow2(n))
  }

  function Product(x: Cell, y: Cell): int {
    Signed(x) * Signed(y)
  }

  function Compute(op: AluOp, x: Cell, pri: Cell, alt: Cell): AluResult {
    match op
    case ConstPri => Regs(x, alt)
    case ConstAlt => Regs(pri, x)
    case Xchg => Regs(alt, pri)
    case AlignPri => Regs(if x < 8 then BitCell(Xor, pri, 8 - x) else pri, alt)
    case Shl => if alt < 64 then Regs(ShiftLeft(pri, alt), alt) else Unspecified
    case Shr => if alt < 64 then Regs(ShiftRight(pri, alt), alt) else Unspecified
    case Sshr => if alt < 64 then Regs(SignedShift(pri, alt), alt) else Unspecified
    case ShlCPri => if x < 64 then Regs(ShiftLeft(pri, x), alt) else Unspecified
    case ShlCAlt => if x < 64 then Regs(pri, ShiftLeft(alt, x)) else Unspecified
    case Smul => if FitsSigned(Product(pri, alt)) then Regs(Wrap(Product(pri, alt)), alt) else Unspecified
    case Sdiv => Divide(pri, alt)
    case AddOp => Regs(Plus(pri, alt), alt)
    case SubOp => Regs(Minus(alt, pri), alt)
    case AndOp => Regs(BitCell(And, pri, alt), alt)
    case OrOp => Regs(BitCell(Or, pri, alt), alt)
    case XorOp => Regs(BitCell(Xor, pri, alt), alt)
    case NotOp => Regs(Flag(pri == 0), alt)
    case NegOp => if FitsSigned(-Signed(pri)) then Regs(Wrap(-Signed(pri)), alt) else Unspecified
    case InvertOp => Regs(Invert(pri), alt)
    case Eq => Regs(Flag(pri == alt), alt)
    case Neq => Regs(Flag(pri != alt), alt)
    case Sless => Regs(Flag(Signed(pri) < Signed(alt)), alt)
    case Sleq => Regs(Flag(Signed(pri) <= Signed(alt)), alt)
    case Sgrtr => Regs(Flag(Signed(pri) > Signed(alt)), alt)
    case Sgeq => Regs(Flag(Signed(pri) >= Signed(alt)), alt)
    case IncPri => Regs(Plus(pri, 1), alt)
    case IncAlt => Regs(pri, Plus(alt, 1))
    case DecPri => Regs(Minus(pri, 1), alt)
    case DecAlt => Regs(pri, Minus(alt, 1))
  }

  /** SDIV: the cut-off division of C++, corrected when the remainder is nonzero
      and its sign bit differs from the divisor's. */
  function Divide(pri: Cell, alt: Cell): AluResult {
    if pri == 0 then ZeroDivide
    else Corrected(CutDiv(Signed(alt), Signed(pri)), CutMod(Signed(alt), Signed(pri)), pri)
  }

  function Corrected(q: int, r: int, pri: Cell): AluResult {
    if !FitsSigned(q) then Unspecified
    else if Wrap(r) != 0 && Signed(BitCell(Xor, Wrap(r), pri)) < 0 then Regs(Minus(Wrap(q), 1), Plus(Wrap(r), pri))
    else Regs(Wrap(q), Wrap(r))
  }

  /** The sign bit of an exclusive or is set exactly when the sign bits differ. */
  lemma XorSign(x: Cell, y: Cell)
    ensures Signed(BitCell(Xor, x, y)) < 0 <==> (Signed(x) < 0) != (Signed(y) < 0)
  {
    Pow2OfCell();
    var h := 0x8000_0000_0000_0000;
    var x1, x0 := x / h, x % h;
    var y1, y0 := y / h, y % h;
    BitsConcat(Xor, 63, x1, x0, y1, y0, x, y);
    BitsBound(Xor, 63, x0, y0);
    assert x1 <= 1 && y1 <= 1;
    assert Bits(Xor, x1, y1) == Bit(Xor, x1, y1);
  }

  lemma CutDivision(a: int, b: int)
    requires b != 0
    ensures a == CutDiv(a, b) * b + CutMod(a, b)
    ensures -(if b < 0 then -b else b) < CutMod(a, b) < (if b < 0 then -b else b)
    ensures a >= 0 ==> CutMod(a, b) >= 0
    ensures a <= 0 ==> CutMod(a, b) <= 0
  {
    var m, n := (if a < 0 then -a else a), (if b < 0 then -b else b);
    QuotientNat(m, n);
    SignedProduct(m / n, b);
  }

  lemma SignedProduct(q: int, b: int)
    ensures q * b == if b < 0 then -(q * -b) else q * b
    ensures -q * b == -(q * b)
  {
  }

  /** The quotient only leaves the signed range for the smallest number over -1. */
  lemma CutDivRange(a: int, b: int)
    requires FitsSigned(a) && FitsSigned(b) && b != 0
    ensures FitsSigned(CutDiv(a, b)) <==> !(a == -0x8000_0000_0000_0000 && b == -1)
    ensures CutDiv(a, b) == -0x8000_0000_0000_0000 ==> b == 1
  {
    QuotientShrinks(if a < 0 then -a else a, if b < 0 then -b else b);
  }

  lemma QuotientShrinks(m: nat, n: nat)
    requires n > 0
    ensures 0 <= m / n <= m
    ensures n == 1 ==> m / n == m
    ensures n >= 2 ==> 2 * (m / n) <= m
  {
    var q := m / n;
    assert m == q * n + m % n;
    if n >= 2 {
      assert q * n == q * 2 + q * (n - 2);
      ProductNonNeg(q, n - 2);
    } else {
      assert q * 1 == q;
    }
  }

  lemma ProductNonNeg(a: nat, b: nat)
    ensures a * b >= 0
  {
  }

  /** The cut-off quotient and remainder, or those one step down. */
  lemma CorrectedIs(q: int, r: int, pri: Cell)
    requires FitsSigned(q) && FitsSigned(r) && FitsSigned(q - 1)
    ensures var x := Corrected(q, r, pri);
            var down := r != 0 && (r < 0) != (Signed(pri) < 0);
            && x.Regs?
            && Signed(x.pri) == (if down then q - 1 else q)
            && Signed(x.alt) == (if down then r + Signed(pri) else r)
  {
    var d := Signed(pri);
    XorSign(Wrap(r), pri);
    WrapSigned(r);
    WrapSigned(q);
    if r != 0 && (r < 0) != (d < 0) {
      WrapSigned(q - 1);
      WrapSigned(r + d);
      assert Minus(Wrap(q), 1) == Wrap(q - 1) && Plus(Wrap(r), pri) == Wrap(r + d);
    }
  }

  /** A division by one has no remainder to correct. */
  lemma DivideByOne(alt: Cell)
    ensures CutDiv(Signed(alt), 1) == Signed(alt) && Divide(1, alt) == Regs(alt, 0)
  {
    var a := Signed(alt);
    assert (if a < 0 then -a else a) / 1 == if a < 0 then -a else a;
    WrapSigned(a);
  }

  lemma OneDown(a: int, q: int, r: int, d: int)
    requires a == q * d + r
    ensures a == (q - 1) * d + (r + d)
  {
    assert (q - 1) * d == q * d - d;
  }

  /** SDIV is floored division of ALT by PRI: the remainder takes the sign of the
      divisor. It is defined for every nonzero divisor except the smallest number
      over minus one. */
  lemma SdivIsFloored(pri: Cell, alt: Cell)
    requires pri != 0
    ensures Divide(pri, alt).Regs? <==> !(Signed(alt) == -0x8000_0000_0000_0000 && Signed(pri) == -1)
    ensures Divide(pri, alt).Regs? ==>
              var q, r := Signed(Divide(pri, alt).pri), Signed(Divide(pri, alt).alt);
              && Signed(alt) == q * Signed(pri) + r
              && (Signed(pri) > 0 ==> 0 <= r < Signed(pri))
              && (Signed(pri) < 0 ==> Signed(pri) < r <= 0)
  {
    var a, d := Signed(alt), Signed(pri);
    var q, r := CutDiv(a, d), CutMod(a, d);
    CutDivision(a, d);
    CutDivRange(a, d);
    if pri == 1 {
      DivideByOne(alt);
    } else if FitsSigned(q) {
      CorrectedIs(q, r, pri);
      OneDown(a, q, r, d);
    }
  }
}

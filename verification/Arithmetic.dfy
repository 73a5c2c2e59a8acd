/** What the arithmetic instructions mean, by the number of their code cell: sums,
    products and comparisons of numbers, and shifts and masks bit by bit. */
module Arithmetic {
  import opened Alu
  import opened Bitwise
  import opened Cells
  import opened Memories
  import opened Machine
  import opened Instructions

  // ----- bits of numbers -----

  /** Bit k of a number in two's complement. */
  predicate HasBit(x: int, k: nat)
    decreases k
  {
    if k == 0 then x % 2 == 1 else HasBit(x / 2, k - 1)
  }

  predicate BitMeaning(op: BitOp, a: bool, b: bool) {
    match op
    case And => a && b
    case Or => a || b
    case Xor => a != b
  }

  lemma {:induction false} BitsAre(op: BitOp, x: nat, y: nat, k: nat)
    ensures HasBit(Bits(op, x, y), k) <==> BitMeaning(op, HasBit(x, k), HasBit(y, k))
    decreases k
  {
    BitsStep(op, x, y);
    if k == 0 {
    } else {
      BitsAre(op, x / 2, y / 2, k - 1);
    }
  }

  lemma {:induction false} BitInverted(x: int, k: nat)
    ensures HasBit(-1 - x, k) <==> !HasBit(x, k)
    decreases k
  {
    if k > 0 {
      assert (-1 - x) / 2 == -1 - x / 2;
      BitInverted(x / 2, k - 1);
    }
  }

  /** Multiples of a power of two leave the bits below it alone. */
  lemma {:induction false} LowBits(x: int, m: int, j: nat, k: nat)
    requires k < j
    ensures HasBit(x + m * Pow2(j), k) <==> HasBit(x, k)
    decreases k
  {
    MulAssoc(m, 2, Pow2(j - 1));
    var h := m * Pow2(j - 1);
    assert m * Pow2(j) == 2 * h;
    if k > 0 {
      assert (x + 2 * h) / 2 == x / 2 + h;
      LowBits(x / 2, m, j - 1, k - 1);
    }
  }

  lemma CellBits(x: int, m: int, k: nat)
    requires k < 64
    ensures HasBit(x + m * 0x1_0000_0000_0000_0000, k) <==> HasBit(x, k)
  {
    Pow2OfCell();
    LowBits(x, m, 64, k);
  }

  lemma WrapBits(x: int, k: nat)
    requires k < 64
    ensures HasBit(Wrap(x), k) <==> HasBit(x, k)
  {
    CellBits(x, -(x / 0x1_0000_0000_0000_0000), k);
  }

  /** From the sign bit on, all bits are the sign. */
  lemma {:induction false} HighBits(x: int, j: nat)
    requires -(Pow2(j) as int) <= x < Pow2(j)
    ensures HasBit(x, j) <==> x < 0
    decreases j
  {
    if j > 0 {
      HighBits(x / 2, j - 1);
    }
  }

  lemma {:induction false} BitsUp(x: int, n: nat, k: nat)
    ensures HasBit(x * Pow2(n), k) <==> k >= n && HasBit(x, k - n)
    decreases n
  {
    if n > 0 {
      MulAssoc(x, 2, Pow2(n - 1));
      var h := x * Pow2(n - 1);
      assert x * Pow2(n) == 2 * h;
      if k > 0 {
        BitsUp(x, n - 1, k - 1);
      }
    }
  }

  lemma {:induction false} BitsDown(x: int, n: nat, k: nat)
    ensures HasBit(x / Pow2(n), k) <==> HasBit(x, k + n)
    decreases n
  {
    if n > 0 {
      HalvedQuotient(x, Pow2(n - 1));
      BitsDown(x / 2, n - 1, k);
    }
  }

  lemma HalvedQuotient(x: int, p: nat)
    requires p > 0
    ensures x / (2 * p) == (x / 2) / p
  {
    var q, r := (x / 2) / p, (x / 2) % p;
    assert x / 2 == q * p + r;
    MulAssoc(q, 2, p);
    UniqueQuotient(x, 2 * p, q, 2 * r + x % 2);
  }

  lemma UniqueQuotient(x: int, d: nat, q: int, r: int)
    requires 0 <= r < d && x == q * d + r
    ensures x / d == q
  {
    var q', r' := x / d, x % d;
    assert (q - q') * d == r' - r;
    if q > q' {
      assert (q - q') * d == d + (q - q' - 1) * d;
      ProductNonNeg(q - q' - 1, d);
    } else if q < q' {
      assert (q' - q) * d == d + (q' - q - 1) * d;
      ProductNonNeg(q' - q - 1, d);
    }
  }

  // ----- what the steps leave -----

  /** The step changes PRI and CIP alone. */
  ghost predicate SetsPri(s: Vm, c: Cell, r: Result<Vm>) {
    r.Ok? && r.value == Past(s, c).(pri := r.value.pri)
  }

  /** The step changes ALT and CIP alone. */
  ghost predicate SetsAlt(s: Vm, c: Cell, r: Result<Vm>) {
    r.Ok? && r.value == Past(s, c).(alt := r.value.alt)
  }

  /** The step sets PRI and ALT to what the instruction computes. */
  lemma Computed(s: Vm, env: Env, t: nat, c: Cell, x: Cell, op: AluOp, pri: Cell, alt: Cell)
    requires Starts(s, c, x) && Decode(c) == Some(Arith(op))
    requires Compute(op, if WithOperand(c) then x else 0, s.pri, s.alt) == Regs(pri, alt)
    ensures Step(s, env, t) == Ok(Past(s, c).(pri := pri, alt := alt))
  {
    Executed(s, env, t, c, x, Arith(op));
  }

  /** CONST.pri and CONST.alt take the operand; XCHG exchanges the registers. */
  lemma MoveStep(s: Vm, env: Env, t: nat, c: Cell, x: Cell)
    requires Starts(s, c, x) && (c == 9 || c == 10 || c == 21)
    ensures Step(s, env, t) ==
            Ok(if c == 9 then Past(s, c).(pri := x)
               else if c == 10 then Past(s, c).(alt := x)
               else Past(s, c).(pri := s.alt, alt := s.pri))
  {
    match c
    case 9 => Computed(s, env, t, 9, x, ConstPri, x, s.alt);
    case 10 => Computed(s, env, t, 10, x, ConstAlt, s.pri, x);
    case _ => Computed(s, env, t, 21, x, Xchg, s.alt, s.pri);
  }

  /** Two numbers agree modulo the size of a cell, off by at most one turn. */
  predicate Agree(x: int, y: int) {
    x == y || x == y + 0x1_0000_0000_0000_0000 || x == y - 0x1_0000_0000_0000_0000
  }

  /** ADD and SUB: the sum of PRI and ALT, and what PRI lacks of ALT. */
  lemma SumStep(s: Vm, env: Env, t: nat, c: Cell, x: Cell)
    requires Starts(s, c, x) && 44 <= c <= 45
    ensures SetsPri(s, c, Step(s, env, t))
    ensures var p := Step(s, env, t).value.pri;
            if c == 44 then Agree(p, s.pri + s.alt) else Agree(p + s.pri, s.alt)
  {
    match c
    case 44 => Computed(s, env, t, 44, x, AddOp, Plus(s.pri, s.alt), s.alt);
    case _ => Computed(s, env, t, 45, x, SubOp, Minus(s.alt, s.pri), s.alt);
  }

  /** INC and DEC of PRI. */
  lemma PriStep(s: Vm, env: Env, t: nat, c: Cell, x: Cell)
    requires Starts(s, c, x) && (c == 58 || c == 61)
    ensures Step(s, env, t) == Ok(Past(s, c).(pri := if c == 58 then CellAfter(s.pri) else CellBefore(s.pri)))
  {
    NextCells(s.pri);
    match c
    case 58 => Computed(s, env, t, 58, x, IncPri, CellAfter(s.pri), s.alt);
    case _ => Computed(s, env, t, 61, x, DecPri, CellBefore(s.pri), s.alt);
  }

  /** INC and DEC of ALT. */
  lemma AltStep(s: Vm, env: Env, t: nat, c: Cell, x: Cell)
    requires Starts(s, c, x) && (c == 59 || c == 62)
    ensures Step(s, env, t) == Ok(Past(s, c).(alt := if c == 59 then CellAfter(s.alt) else CellBefore(s.alt)))
  {
    NextCells(s.alt);
    match c
    case 59 => Computed(s, env, t, 59, x, IncAlt, s.pri, CellAfter(s.alt));
    case _ => Computed(s, env, t, 62, x, DecAlt, s.pri, CellBefore(s.alt));
  }

  /** The step puts the answer of a test into PRI. */
  ghost predicate Answers(s: Vm, c: Cell, yes: bool, r: Result<Vm>) {
    r == Ok(Past(s, c).(pri := if yes then 1 else 0))
  }

  /** NOT, EQ and NEQ test cells. */
  lemma TestStep(s: Vm, env: Env, t: nat, c: Cell, x: Cell)
    requires Starts(s, c, x) && (c == 49 || c == 52 || c == 53)
    ensures var yes := if c == 49 then s.pri == 0 else if c == 52 then s.pri == s.alt else s.pri != s.alt;
            Answers(s, c, yes, Step(s, env, t))
  {
    match c
    case 49 => Computed(s, env, t, 49, x, NotOp, Flag(s.pri == 0), s.alt);
    case 52 => Computed(s, env, t, 52, x, Eq, Flag(s.pri == s.alt), s.alt);
    case _ => Computed(s, env, t, 53, x, Neq, Flag(s.pri != s.alt), s.alt);
  }

  /** SLESS, SLEQ, SGRTR and SGEQ compare signed numbers. */
  lemma OrderStep(s: Vm, env: Env, t: nat, c: Cell, x: Cell)
    requires Starts(s, c, x) && 54 <= c <= 57
    ensures var a, b := Signed(s.pri), Signed(s.alt);
            var yes := if c == 54 then a < b else if c == 55 then a <= b else if c == 56 then a > b else a >= b;
            Answers(s, c, yes, Step(s, env, t))
  {
    match c
    case 54 => Computed(s, env, t, 54, x, Sless, Flag(Signed(s.pri) < Signed(s.alt)), s.alt);
    case 55 => Computed(s, env, t, 55, x, Sleq, Flag(Signed(s.pri) <= Signed(s.alt)), s.alt);
    case 56 => Computed(s, env, t, 56, x, Sgrtr, Flag(Signed(s.pri) > Signed(s.alt)), s.alt);
    case _ => Computed(s, env, t, 57, x, Sgeq, Flag(Signed(s.pri) >= Signed(s.alt)), s.alt);
  }

  /** The step puts the signed number y into PRI, and is undefined exactly when y is not one. */
  ghost predicate SignedResult(s: Vm, c: Cell, y: int, r: Result<Vm>) {
    if FitsSigned(y) then SetsPri(s, c, r) && Signed(r.value.pri) == y else r.Undefined?
  }

  /** NEG negates a signed number. */
  lemma NegStep(s: Vm, env: Env, t: nat, x: Cell)
    requires Starts(s, 50, x)
    ensures SignedResult(s, 50, -Signed(s.pri), Step(s, env, t))
  {
    Executed(s, env, t, 50, x, Arith(NegOp));
    if FitsSigned(-Signed(s.pri)) {
      WrapSigned(-Signed(s.pri));
    }
  }

  /** SMUL multiplies signed numbers. */
  lemma MultiplyStep(s: Vm, env: Env, t: nat, x: Cell)
    requires Starts(s, 42, x)
    ensures SignedResult(s, 42, Signed(s.pri) * Signed(s.alt), Step(s, env, t))
  {
    Executed(s, env, t, 42, x, Arith(Smul));
    var y := Product(s.pri, s.alt);
    if FitsSigned(y) {
      WrapSigned(y);
    }
  }

  /** SDIV divides ALT by PRI: the floored quotient in PRI, the remainder in ALT. It stops on
      a zero divisor and is undefined for the smallest number over minus one. */
  lemma DivideStep(s: Vm, env: Env, t: nat, x: Cell)
    requires Starts(s, 43, x)
    ensures match Step(s, env, t)
            case Ok(s1) =>
              var d, q, r := Signed(s.pri), Signed(s1.pri), Signed(s1.alt);
              && s1 == Past(s, 43).(pri := s1.pri, alt := s1.alt)
              && Signed(s.alt) == q * d + r && (0 <= r < d || d < r <= 0)
            case Stop(e, s1) => s.pri == 0 && e == DivisionWithZero && s1 == Past(s, 43)
            case Undefined => Signed(s.pri) == -1 && Signed(s.alt) == -0x8000_0000_0000_0000
  {
    Executed(s, env, t, 43, x, Arith(Sdiv));
    if s.pri != 0 {
      SdivIsFloored(s.pri, s.alt);
    }
  }

  /** AND, OR, XOR and INVERT, bit by bit. */
  lemma BitStep(s: Vm, env: Env, t: nat, c: Cell, x: Cell)
    requires Starts(s, c, x) && (46 <= c <= 48 || c == 51)
    ensures SetsPri(s, c, Step(s, env, t))
    ensures forall k :: 0 <= k < 64 ==>
              var a, b := HasBit(s.pri, k), HasBit(s.alt, k);
              HasBit(Step(s, env, t).value.pri, k) <==>
              if c == 46 then a && b else if c == 47 then a || b else if c == 48 then a != b else !a
  {
    match c
    case 46 => Computed(s, env, t, 46, x, AndOp, BitCell(And, s.pri, s.alt), s.alt); BitsMean(And, s.pri, s.alt);
    case 47 => Computed(s, env, t, 47, x, OrOp, BitCell(Or, s.pri, s.alt), s.alt); BitsMean(Or, s.pri, s.alt);
    case 48 => Computed(s, env, t, 48, x, XorOp, BitCell(Xor, s.pri, s.alt), s.alt); BitsMean(Xor, s.pri, s.alt);
    case _ => Computed(s, env, t, 51, x, InvertOp, Invert(s.pri), s.alt); InvertMeans(s.pri);
  }

  lemma BitsMean(op: BitOp, x: Cell, y: Cell)
    ensures forall k: nat :: HasBit(BitCell(op, x, y), k) <==> BitMeaning(op, HasBit(x, k), HasBit(y, k))
  {
    forall k: nat
      ensures HasBit(BitCell(op, x, y), k) <==> BitMeaning(op, HasBit(x, k), HasBit(y, k))
    {
      BitsAre(op, x, y, k);
    }
  }

  lemma InvertMeans(x: Cell)
    ensures forall k :: 0 <= k < 64 ==> (HasBit(Invert(x), k) <==> !HasBit(x, k))
  {
    forall k | 0 <= k < 64
      ensures HasBit(Invert(x), k) <==> !HasBit(x, k)
    {
      CellBits(-1 - x, 1, k);
      BitInverted(x, k);
    }
  }

  /** ALIGN.pri flips the bits of PRI that 8 - x has, for an operand x below 8. */
  lemma AlignStep(s: Vm, env: Env, t: nat, x: Cell)
    requires Starts(s, 18, x)
    ensures SetsPri(s, 18, Step(s, env, t))
    ensures x >= 8 ==> Step(s, env, t).value.pri == s.pri
    ensures x < 8 ==> forall k: nat :: HasBit(Step(s, env, t).value.pri, k) <==> HasBit(s.pri, k) != HasBit(8 - x, k)
  {
    Executed(s, env, t, 18, x, Arith(AlignPri));
    if x < 8 {
      BitsMean(Xor, s.pri, 8 - x);
    }
  }

  // ----- shifts -----

  datatype Way = Up | Down | DownSigned

  /** y is x shifted by n: up as a product modulo the cell, down as a floored quotient. */
  ghost predicate Shifted(way: Way, x: Cell, n: nat, y: Cell) {
    match way
    case Up => (y - x * Pow2(n)) % 0x1_0000_0000_0000_0000 == 0
    case Down => 0 <= x - y * Pow2(n) < Pow2(n)
    case DownSigned => 0 <= Signed(x) - Signed(y) * Pow2(n) < Pow2(n)
  }

  /** The same bit by bit: moved by n places, filled with zeros or with the sign. */
  ghost predicate BitsShifted(way: Way, x: Cell, n: nat, y: Cell) {
    forall k :: 0 <= k < 64 ==>
      (HasBit(y, k) <==>
       match way
       case Up => k >= n && HasBit(x, k - n)
       case Down => k + n < 64 && HasBit(x, k + n)
       case DownSigned => HasBit(x, if k + n < 64 then k + n else 63))
  }

  lemma ShiftUp(x: Cell, n: nat)
    ensures Shifted(Up, x, n, ShiftLeft(x, n)) && BitsShifted(Up, x, n, ShiftLeft(x, n))
  {
    WrapAgrees(x * Pow2(n));
    forall k | 0 <= k < 64
      ensures HasBit(ShiftLeft(x, n), k) <==> k >= n && HasBit(x, k - n)
    {
      WrapBits(x * Pow2(n), k);
      BitsUp(x, n, k);
    }
  }

  lemma WrapAgrees(x: int)
    ensures (Wrap(x) - x) % 0x1_0000_0000_0000_0000 == 0
  {
  }

  lemma ShiftDown(x: Cell, n: nat)
    ensures Shifted(Down, x, n, ShiftRight(x, n)) && BitsShifted(Down, x, n, ShiftRight(x, n))
  {
    Quotient(x, Pow2(n));
    forall k | 0 <= k < 64
      ensures HasBit(ShiftRight(x, n), k) <==> k + n < 64 && HasBit(x, k + n)
    {
      BitsDown(x, n, k);
      if k + n >= 64 {
        CellBound(k + n);
        HighBits(x, k + n);
      }
    }
  }

  lemma CellBound(j: nat)
    requires j >= 64
    ensures Pow2(j) >= 0x1_0000_0000_0000_0000
  {
    Pow2OfCell();
    Pow2Add(64, j - 64);
    Enlarge(Pow2(64), Pow2(j - 64));
  }

  lemma Quotient(x: int, p: nat)
    requires p > 0
    ensures 0 <= x - x / p * p < p
    ensures x >= 0 ==> 0 <= x / p <= x
    ensures x < 0 ==> x <= x / p < 0
  {
    var q := x / p;
    assert x == q * p + x % p;
    if q >= 0 {
      ProductNonNeg(q, p - 1);
      assert q * p == q + q * (p - 1);
    } else {
      ProductNonNeg(-q - 1, p - 1);
      ProductNonNeg(-q - 1, p);
      assert q * p == -1 * p - (-q - 1) * p;
      assert (-q - 1) * p == (-q - 1) + (-q - 1) * (p - 1);
    }
  }

  lemma ShiftDownSigned(x: Cell, n: nat)
    ensures Shifted(DownSigned, x, n, SignedShift(x, n)) && BitsShifted(DownSigned, x, n, SignedShift(x, n))
  {
    var a := Signed(x);
    Quotient(a, Pow2(n));
    WrapSigned(a / Pow2(n));
    forall k | 0 <= k < 64
      ensures HasBit(SignedShift(x, n), k) <==> HasBit(x, if k + n < 64 then k + n else 63)
    {
      WrapBits(a / Pow2(n), k);
      BitsDown(a, n, k);
      SignBits(x, k + n);
    }
  }

  /** The signed number has the bits of its cell, and then only its sign. */
  lemma SignBits(x: Cell, j: nat)
    ensures HasBit(Signed(x), j) <==> HasBit(x, if j < 64 then j else 63)
  {
    var i := if j < 64 then j else 63;
    CellBits(x, -1, i);
    if j >= 64 {
      Pow2OfCell();
      CellBound(j);
      HighBits(Signed(x), j);
      HighBits(Signed(x), 63);
    }
  }

  /** SHL, SHR and SSHR shift PRI by ALT, SHL.C.pri and SHL.C.alt a register by the operand;
      a shift by the width of a cell or more is undefined. */
  lemma ShiftStep(s: Vm, env: Env, t: nat, c: Cell, x: Cell)
    requires Starts(s, c, x) && 37 <= c <= 41
    ensures var n := if c <= 39 then s.alt else x;
            var way := if c == 38 then Down else if c == 39 then DownSigned else Up;
            if n >= 64 then Step(s, env, t).Undefined?
            else if c == 41 then
              && SetsAlt(s, c, Step(s, env, t))
              && Shifted(way, s.alt, n, Step(s, env, t).value.alt)
              && BitsShifted(way, s.alt, n, Step(s, env, t).value.alt)
            else
              && SetsPri(s, c, Step(s, env, t))
              && Shifted(way, s.pri, n, Step(s, env, t).value.pri)
              && BitsShifted(way, s.pri, n, Step(s, env, t).value.pri)
  {
    match c
    case 37 => Executed(s, env, t, 37, x, Arith(Shl)); ShiftUp(s.pri, s.alt);
    case 38 => Executed(s, env, t, 38, x, Arith(Shr)); ShiftDown(s.pri, s.alt);
    case 39 => Executed(s, env, t, 39, x, Arith(Sshr)); ShiftDownSigned(s.pri, s.alt);
    case 40 => Executed(s, env, t, 40, x, Arith(ShlCPri)); ShiftUp(s.pri, x);
    case _ => Executed(s, env, t, 41, x, Arith(ShlCAlt)); ShiftUp(s.alt, x);
  }
}

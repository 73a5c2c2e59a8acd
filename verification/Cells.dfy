/** The 64-bit machine cell: unsigned, wrapping, with a two's-complement reading. */
module Cells {
  import opened Bitwise

  type Cell = c: int | 0 <= c < 0x1_0000_0000_0000_0000

  function Wrap(x: int): Cell {
    x % 0x1_0000_0000_0000_0000
  }

  function Plus(a: Cell, b: Cell): Cell {
    Wrap(a + b)
  }

  function Minus(a: Cell, b: Cell): Cell {
    Wrap(a - b)
  }

  /** The cell read as a signed number. */
  function Signed(c: Cell): int {
    if c < 0x8000_0000_0000_0000 then c else c - 0x1_0000_0000_0000_0000
  }

  predicate FitsSigned(x: int) {
    -0x8000_0000_0000_0000 <= x < 0x8000_0000_0000_0000
  }

  function Flag(b: bool): Cell {
    if b then 1 else 0
  }

  lemma Pow2Half()
    ensures Pow2(32) == 0x1_0000_0000
  {
    assert Pow2(8) == 256;
    Pow2Add(8, 8);
    assert Pow2(16) == 0x1_0000;
    Pow2Add(16, 16);
  }

  lemma Pow2OfCell()
    ensures Pow2(64) == 0x1_0000_0000_0000_0000
    ensures Pow2(63) == 0x8000_0000_0000_0000
  {
    Pow2Half();
    Pow2Add(32, 32);
    assert Pow2(64) == 2 * Pow2(63);
  }

  function BitCell(op: BitOp, x: Cell, y: Cell): Cell {
    Pow2OfCell();
    BitsBound(op, 64, x, y);
    Bits(op, x, y)
  }

  function Invert(x: Cell): Cell {
    0xFFFF_FFFF_FFFF_FFFF - x
  }

  /** C++ division: the quotient is cut off towards zero. */
  function CutDiv(a: int, b: int): int
    requires b != 0
  {
    var q := (if a < 0 then -a else a) / (if b < 0 then -b else b);
    if (a < 0) != (b < 0) then -q else q
  }

  function CutMod(a: int, b: int): int
    requires b != 0
  {
    a - CutDiv(a, b) * b
  }

  lemma WrapSigned(x: int)
    requires FitsSigned(x)
    ensures Signed(Wrap(x)) == x
  {
  }
}

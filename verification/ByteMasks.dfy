/** The mask-and-shift expressions of OP_LODB_I and OP_STRB_I extract and replace
    exactly the little-endian bytes that the access names. */
module ByteMasks {
  import opened Bitwise
  import opened LittleEndian
  import opened Cells
  import opened Alu
  import opened Machine

  // ----- the expressions as written -----

  function Aligned(a: Cell): Cell {
    BitCell(And, a, Invert(7))
  }

  function SubcellBits(a: Cell): nat {
    BitCell(And, a, 7) * 8
  }

  function WidthMask(x: Cell): Cell
    requires ByteWidth(x)
  {
    if x == 1 then 0xFF else if x == 2 then 0xFFFF else 0xFFFF_FFFF
  }

  function MaskedExtract(c: Cell, a: Cell, mask: Cell): Cell {
    BitCell(And, c / Pow2(SubcellBits(a)), mask)
  }

  function MaskedMerge(c: Cell, a: Cell, mask: Cell, v: Cell): Cell {
    BitCell(Or, BitCell(And, c, Invert(ShiftLeft(mask, SubcellBits(a)))),
            ShiftLeft(BitCell(And, v, mask), SubcellBits(a)))
  }

  // ----- as arithmetic -----

  lemma AlignedIs(a: Cell)
    ensures Aligned(a) == a - a % 8
    ensures SubcellBits(a) == 8 * (a % 8)
  {
    var q, r := a / 8, a % 8;
    assert Pow2(3) == 8;
    Pow2OfCell();
    Pow2Add(3, 61);
    var ones := 0x1FFF_FFFF_FFFF_FFFF;
    assert Pow2(61) - 1 == ones;
    BitsConcat(And, 3, q, r, ones, 0, a, Invert(7));
    AndOnes(61, q);
    BitsZero(And, r);
    AndLow(3, q, r, a);
  }

  lemma MaskIs(w: Cell)
    requires ByteWidth(w)
    ensures WidthMask(w) == Pow2(8 * w) - 1
  {
    Pow2Half();
    assert Pow2(8) == 256;
    Pow2Add(8, 8);
  }

  /** A cell as low bytes, a field of w bytes, and high bytes. */
  ghost predicate Split(c: nat, o: nat, w: nat, low: nat, field: nat, high: nat, above: nat) {
    && o + w <= 8 && high < Pow2(8 * (8 - o - w))
    && Cut(8 * w, high, field, above) && Cut(8 * o, above, low, c)
  }

  lemma ExtractIsField(c: Cell, a: Cell, w: Cell, low: nat, field: nat, high: nat, above: nat)
    requires ByteWidth(w) && Split(c, a % 8, w, low, field, high, above)
    ensures MaskedExtract(c, a, WidthMask(w)) == field
  {
    AlignedIs(a);
    MaskIs(w);
    CutQuotient(8 * (a % 8), above, low, c);
    AndLow(8 * w, high, field, above);
  }

  lemma CutQuotient(k: nat, high: nat, low: nat, x: nat)
    requires Cut(k, high, low, x)
    ensures x / Pow2(k) == high
  {
    DivideAway(high, Pow2(k), low, x);
  }

  lemma DivideAway(q: nat, p: nat, r: nat, n: nat)
    requires r < p && n == q * p + r
    ensures n / p == q
  {
    var d := n / p;
    assert n == d * p + n % p;
    if d < q {
      NextMultiple(d, q, p);
    } else if d > q {
      NextMultiple(q, d, p);
    }
  }

  lemma NextMultiple(x: nat, y: nat, p: nat)
    requires x < y
    ensures x * p + p <= y * p
  {
    assert y * p == (x + 1) * p + (y - x - 1) * p;
    assert (x + 1) * p == x * p + p;
  }

  /** The cell with ones everywhere but at the field. */
  lemma Hole(o: nat, w: nat, moved: Cell) returns (hole: nat)
    requires o + w <= 8 && Cut(8 * o, Pow2(8 * w) - 1, 0, moved)
    ensures Cut(8 * w, Pow2(8 * (8 - o - w)) - 1, 0, hole)
    ensures Cut(8 * o, hole, Pow2(8 * o) - 1, Invert(moved))
  {
    var a, b, c := Pow2(8 * o), Pow2(8 * w), Pow2(8 * (8 - o - w));
    Pow2OfCell();
    Pow2Add(8 * o, 8 * w);
    Pow2Add(8 * o + 8 * w, 8 * (8 - o - w));
    assert (a * b) * c == 0x1_0000_0000_0000_0000;
    Expand(a, b, c);
    hole := (c - 1) * b;
  }

  lemma Expand(a: nat, b: nat, c: nat)
    requires a > 0 && b > 0 && c > 0
    ensures (c - 1) * b >= 0
    ensures ((c - 1) * b) * a + (a - 1) == (a * b) * c - 1 - (b - 1) * a
  {
    calc {
      ((c - 1) * b) * a + (a - 1);
      (c * b - b) * a + (a - 1);
      (c * b) * a - b * a + a - 1;
    }
    assert (c * b) * a == (a * b) * c;
    assert (b - 1) * a == b * a - a;
  }

  /** And with the hole removes the field. */
  lemma ClearField(c: Cell, o: nat, w: nat, low: nat, field: nat, high: nat, above: nat, moved: Cell)
    returns (rest: nat)
    requires Split(c, o, w, low, field, high, above) && Cut(8 * o, Pow2(8 * w) - 1, 0, moved)
    ensures Cut(8 * w, high, 0, rest) && Cut(8 * o, rest, low, BitCell(And, c, Invert(moved)))
  {
    var hole := Hole(o, w, moved);
    var h := Pow2(8 * (8 - o - w)) - 1;
    BitsConcat(And, 8 * w, high, field, h, 0, above, hole);
    AndOnes(8 * (8 - o - w), high);
    BitsZero(And, field);
    BitsConcat(And, 8 * o, above, low, hole, Pow2(8 * o) - 1, c, Invert(moved));
    AndOnes(8 * o, low);
    rest := Bits(And, above, hole);
  }

  /** Or with the moved field f puts it in place. */
  lemma SetField(c: Cell, o: nat, w: nat, low: nat, high: nat, rest: nat, f: nat, moved: Cell)
    requires Cut(8 * w, high, 0, rest) && Cut(8 * o, rest, low, c)
    requires f < Pow2(8 * w) && Cut(8 * o, f, 0, moved)
    ensures Cut(8 * w, high, f, rest + f) && Cut(8 * o, rest + f, low, BitCell(Or, c, moved))
  {
    OrLow(8 * w, high, f, rest);
    BitsConcat(Or, 8 * o, rest, low, f, 0, c, moved);
    BitsZero(Or, low);
  }

  /** A value of w bytes moved up o bytes stays inside the cell. */
  lemma MovedFits(o: nat, w: nat, f: Cell)
    requires o + w <= 8 && f < Pow2(8 * w)
    ensures Cut(8 * o, f, 0, ShiftLeft(f, 8 * o))
  {
    ThreePowers(o, w);
    ProductBelow(f, Pow2(8 * w), Pow2(8 * o), Pow2(8 * (8 - o - w)));
    var x := f * Pow2(8 * o);
    assert Wrap(x) == x;
  }

  lemma ThreePowers(o: nat, w: nat)
    requires o + w <= 8
    ensures (Pow2(8 * w) * Pow2(8 * o)) * Pow2(8 * (8 - o - w)) == 0x1_0000_0000_0000_0000
  {
    Pow2OfCell();
    Pow2Add(8 * w, 8 * o);
    Pow2Add(8 * w + 8 * o, 8 * (8 - o - w));
  }

  lemma ProductBelow(f: nat, p: nat, q: nat, r: nat)
    requires f < p && q > 0 && r > 0
    ensures 0 <= f * q < (p * q) * r
  {
    NextMultiple(f, p, q);
    Enlarge(p * q, r);
  }

  /** The masked, shifted, or-ed cell is the old one with its field replaced. */
  lemma MergeIsField(c: Cell, a: Cell, w: Cell, v: Cell, low: nat, field: nat, high: nat, above: nat)
    returns (above': nat)
    requires ByteWidth(w) && Split(c, a % 8, w, low, field, high, above)
    ensures Split(MaskedMerge(c, a, WidthMask(w), v), a % 8, w, low, v % Pow2(8 * w), high, above')
  {
    AlignedIs(a);
    MaskIs(w);
    var f := LowBytes(w, v, WidthMask(w));
    MovedFits(a % 8, w, WidthMask(w));
    MovedFits(a % 8, w, f);
    above' := MergeField(c, a % 8, w, low, field, high, above,
                        ShiftLeft(WidthMask(w), 8 * (a % 8)), f, ShiftLeft(f, 8 * (a % 8)));
  }

  lemma LowBytes(w: nat, v: Cell, mask: Cell) returns (f: Cell)
    requires mask == Pow2(8 * w) - 1
    ensures f == BitCell(And, v, mask) == v % Pow2(8 * w) && f < Pow2(8 * w)
  {
    var high, low := CutAt(8 * w, v);
    AndLow(8 * w, high, low, v);
    f := BitCell(And, v, mask);
  }

  /** Clearing the field under the moved mask and or-ing in the moved value f. */
  lemma MergeField(c: Cell, o: nat, w: nat, low: nat, field: nat, high: nat, above: nat,
                   mask: Cell, f: nat, moved: Cell)
    returns (above': nat)
    requires Split(c, o, w, low, field, high, above) && f < Pow2(8 * w)
    requires Cut(8 * o, Pow2(8 * w) - 1, 0, mask) && Cut(8 * o, f, 0, moved)
    ensures Split(BitCell(Or, BitCell(And, c, Invert(mask)), moved), o, w, low, f, high, above')
  {
    var rest := ClearField(c, o, w, low, field, high, above, mask);
    SetField(BitCell(And, c, Invert(mask)), o, w, low, high, rest, f, moved);
    above' := rest + f;
  }

  // ----- cells as byte strings -----

  lemma ValueOfCell(c: Cell)
    ensures LeValue(BytesOf(c)) == c
  {
    CellBytes();
    ValueOfBytes(c, 8);
  }

  lemma CutOf(k: nat, high: nat, low: nat)
    requires low < Pow2(k)
    ensures Cut(k, high, low, low + Pow2(k) * high)
  {
  }

  lemma JoinCut(low: seq<Byte>, high: seq<Byte>)
    ensures Cut(8 * |low|, LeValue(high), LeValue(low), LeValue(low + high))
  {
    LeConcat(low, high);
    LeBound(low);
    Pow256IsPow2(|low|);
    CutOf(8 * |low|, LeValue(high), LeValue(low));
  }

  /** The parts of a cell are the values of its byte ranges. */
  lemma CellParts(c: Cell, o: nat, w: nat) returns (low: nat, field: nat, high: nat, above: nat)
    requires o + w <= 8
    ensures Split(c, o, w, low, field, high, above)
    ensures low == LeValue(BytesOf(c)[..o]) && field == LeValue(BytesOf(c)[o..o + w])
    ensures high == LeValue(BytesOf(c)[o + w..])
  {
    var bs := BytesOf(c);
    ValueOfCell(c);
    JoinCut(bs[o..o + w], bs[o + w..]);
    JoinCut(bs[..o], bs[o..o + w] + bs[o + w..]);
    assert bs == bs[..o] + (bs[o..o + w] + bs[o + w..]);
    LeBound(bs[o + w..]);
    Pow256IsPow2(8 - o - w);
    low, field, high := LeValue(bs[..o]), LeValue(bs[o..o + w]), LeValue(bs[o + w..]);
    above := LeValue(bs[o..o + w] + bs[o + w..]);
  }

  /** A cell with the given part values has the corresponding byte ranges. */
  lemma PartsBytes(c: Cell, o: nat, w: nat, low: seq<Byte>, field: seq<Byte>, high: seq<Byte>, above: nat)
    requires o + w <= 8 && |low| == o && |field| == w && |high| == 8 - o - w
    requires Split(c, o, w, LeValue(low), LeValue(field), LeValue(high), above)
    ensures c == LeValue(low + field + high)
  {
    JoinCut(field, high);
    JoinCut(low, field + high);
    assert low + (field + high) == low + field + high;
  }

  /** The store expression splices the low bytes of v into the bytes of the cell. */
  lemma MaskedStore(c: Cell, a: Cell, w: Cell, v: Cell)
    requires ByteWidth(w) && a % 8 + w <= 8
    ensures MaskedMerge(c, a, WidthMask(w), v) == MergeBytes(c, a % 8, w, v)
  {
    var o := a % 8;
    var bs := BytesOf(c);
    var low, field, high, above := CellParts(c, o, w);
    var above' := MergeIsField(c, a, w, v, low, field, high, above);
    Pow256IsPow2(w);
    ValueOfBytes(v % Pow256(w), w);
    PartsBytes(MaskedMerge(c, a, WidthMask(w), v), o, w, bs[..o], StoredBytes(v, w), bs[o + w..], above');
  }

  /** The load expression is the value of the bytes it names. */
  lemma MaskedLoad(c: Cell, a: Cell, w: Cell)
    requires ByteWidth(w) && a % 8 + w <= 8
    ensures MaskedExtract(c, a, WidthMask(w)) == ExtractBytes(c, a % 8, w)
  {
    var low, field, high, above := CellParts(c, a % 8, w);
    ExtractIsField(c, a, w, low, field, high, above);
  }

  /** Comparing masked addresses, as the code does, is the span test. */
  lemma MaskedSpan(a: Cell, w: Cell)
    ensures Aligned(a) != Aligned(Minus(Plus(a, w), 1)) <==> SpansCells(a, w)
  {
    AlignedIs(a);
    AlignedIs(Minus(Plus(a, w), 1));
  }
}

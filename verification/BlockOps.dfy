/** The block instructions OP_FILL, OP_MOVS and OP_CMPS and the case table of
    OP_SWITCH, on a data segment with aligned, bounded accesses. */
module BlockOps {
  import opened Cells
  import opened Memories
  import opened Machine
  import opened Simulation

  /** Cells touched by a byte count, which the loops round up. */
  function CellCount(n: Cell): nat {
    (n + 7) / 8
  }

  /** Cells of the segment from address v to its end; none when v is misaligned or outside. */
  function Reach(l: Layout, v: Cell): nat {
    if v % 8 == 0 && v / 8 < l.dataLen then l.dataLen - v / 8 else 0
  }

  function Min(a: nat, b: nat): nat {
    if a < b then a else b
  }

  /** Where address v lies in host memory, when it lies in the segment. */
  function HostOf(l: Layout, v: Cell): nat {
    l.data + v / 8
  }

  lemma WholeCells(v: nat, i: nat)
    requires v % 8 == 0 && i % 8 == 0
    ensures (v + i) % 8 == 0 && (v + i) / 8 == v / 8 + i / 8
    ensures v + i == 8 * (v / 8 + i / 8)
  {
  }

  lemma BlockAccess(s: Vm, l: Layout, v: Cell, i: Cell)
    requires Segment(s, l) && i % 8 == 0 && i / 8 <= Reach(l, v)
    ensures s.DataPtr(Plus(v, i)) == if i / 8 < Reach(l, v) then Some(HostOf(l, v) + i / 8) else None
    ensures i / 8 < Reach(l, v) ==> !Wraps(i)
  {
    var a := Plus(v, i);
    if v % 8 == 0 && v / 8 < l.dataLen {
      WholeCells(v, i);
      assert a == v + i;
    } else {
      assert i == 0 && a == v;
    }
    assert s.mem.data(Plus(s.dat, a)) == if a % 8 == 0 && a < 8 * l.dataLen then Some(l.data + a / 8) else None;
  }

  /** r carries s with other host memory: it went on, or it faulted on a data access. */
  ghost predicate OnlyMemory(s: Vm, r: Result<Vm>, completed: bool, h: seq<Cell>) {
    var t := s.(mem := s.mem.(host := h));
    if completed then r == Ok(t) else r == Stop(AccessViolation, t)
  }

  ghost predicate Filled(h: seq<Cell>, h': seq<Cell>, from: int, to: int, x: Cell) {
    |h'| == |h| && forall p :: 0 <= p < |h| ==> h'[p] == if from <= p < to then x else h[p]
  }

  /** r stores PRI in the cell at byte i of the block, or faults. */
  ghost predicate FillsCell(s: Vm, l: Layout, i: Cell, r: Result<Vm>) {
    var p := HostOf(l, s.alt) + i / 8;
    if i / 8 < Reach(l, s.alt) then
      p < |s.mem.host| && !Wraps(i) && r == Ok(s.(mem := s.mem.(host := s.mem.host[p := s.pri])))
    else r == Stop(AccessViolation, s)
  }

  lemma {:induction false} FillLoop(turn: CellTurn, s: Vm, l: Layout, n: Cell, i: Cell) returns (h: seq<Cell>)
    requires Segment(s, l) && i % 8 == 0 && i / 8 <= Reach(l, s.alt)
    requires forall s: Vm, i: Cell :: Segment(s, l) && i % 8 == 0 && i / 8 <= Reach(l, s.alt) ==>
               FillsCell(s, l, i, turn(s, i))
    ensures var done := Min(CellCount(n), Reach(l, s.alt));
            && Filled(s.mem.host, h, HostOf(l, s.alt) + i / 8, HostOf(l, s.alt) + done, s.pri)
            && OnlyMemory(s, EachCell(turn, false, s, n, i), CellCount(n) <= Reach(l, s.alt) || i >= n, h)
    decreases n - i
  {
    h := s.mem.host;
    if i < n {
      assert FillsCell(s, l, i, turn(s, i));
      if i / 8 < Reach(l, s.alt) {
        h := FillLoop(turn, turn(s, i).value, l, n, i + 8);
      }
    }
  }

  /** OP_FILL writes exactly its block, and on a fault exactly the part of it before
      the first cell outside the segment. */
  lemma FillWritesBlock(s: Vm, l: Layout, n: Cell) returns (h: seq<Cell>)
    requires Segment(s, l)
    ensures var done := Min(CellCount(n), Reach(l, s.alt));
            && Filled(s.mem.host, h, HostOf(l, s.alt), HostOf(l, s.alt) + done, s.pri)
            && OnlyMemory(s, ExecBlock(Fill, n, s), done == CellCount(n), h)
  {
    forall s: Vm, i: Cell | Segment(s, l) && i % 8 == 0 && i / 8 <= Reach(l, s.alt)
      ensures FillsCell(s, l, i, Filler()(s, i))
    {
      BlockAccess(s, l, s.alt, i);
    }
    h := FillLoop(Filler(), s, l, n, 0);
  }

  // ----- OP_MOVS -----

  /** The host cell whose original content ends in the k-th target cell: moving up
      into an overlapping block repeats the first to - from cells. */
  function Source(from: nat, to: nat, k: nat): nat {
    if to > from then from + k % (to - from) else from + k
  }

  ghost predicate Moved(h: seq<Cell>, h': seq<Cell>, from: nat, to: nat, count: nat) {
    && |h'| == |h| && from + count <= |h| && to + count <= |h|
    && (forall p :: 0 <= p < |h| && !(to <= p < to + count) ==> h'[p] == h[p])
    && (forall k :: 0 <= k < count ==> Source(from, to, k) < |h| && MovedCell(h, h', from, to, k))
  }

  ghost predicate MovedCell(h: seq<Cell>, h': seq<Cell>, from: nat, to: nat, k: nat)
    requires to + k < |h'| && Source(from, to, k) < |h|
  {
    h'[to + k] == h[Source(from, to, k)]
  }

  lemma ModStep(j: nat, d: nat)
    requires d > 0
    ensures j % d <= j && j % d < d
    ensures j < d ==> j % d == j
    ensures j >= d ==> (j - d) % d == j % d
  {
    if j >= d {
      var q, r := j / d, j % d;
      assert j - d == (q - 1) * d + r;
      UniqueRemainder(j - d, d, q - 1, r);
    } else {
      UniqueRemainder(j, d, 0, j);
    }
    var q := j / d;
    assert j == q * d + j % d;
    ProductSign(q, d, j - j % d);
  }

  lemma ProductSign(q: int, d: nat, x: int)
    requires d > 0 && x == q * d && x + d > 0
    ensures x >= 0
  {
  }

  lemma UniqueRemainder(x: int, d: nat, q: int, r: int)
    requires d > 0 && 0 <= r < d && x == q * d + r
    ensures x % d == r
  {
    var q', r' := x / d, x % d;
    assert x == q' * d + r';
    assert (q - q') * d == r' - r;
    if q - q' >= 1 || q - q' <= -1 {
      FarApart(q - q', d);
    }
  }

  lemma FarApart(x: int, d: nat)
    requires x >= 1 || x <= -1
    ensures x * d >= d || x * d <= -1 * d
  {
    if x >= 1 {
      assert x * d == d + (x - 1) * d;
    } else {
      assert x * d == -1 * d + (x + 1) * d;
    }
  }

  /** The next cell to be copied still holds, or again holds, the right original cell. */
  lemma NextSource(h: seq<Cell>, h': seq<Cell>, from: nat, to: nat, j: nat)
    requires Moved(h, h', from, to, j) && from + j < |h|
    ensures Source(from, to, j) < |h| && h'[from + j] == h[Source(from, to, j)]
  {
    if to > from {
      var d := to - from;
      ModStep(j, d);
      if j >= d {
        assert MovedCell(h, h', from, to, j - d);
        assert to + (j - d) == from + j;
      }
    }
  }

  lemma MovedMore(h: seq<Cell>, h': seq<Cell>, from: nat, to: nat, j: nat)
    requires Moved(h, h', from, to, j) && from + j < |h| && to + j < |h|
    ensures Moved(h, h'[to + j := h'[from + j]], from, to, j + 1)
  {
    NextSource(h, h', from, to, j);
    var g := h'[to + j := h'[from + j]];
    forall k | 0 <= k < j + 1
      ensures Source(from, to, k) < |h| && MovedCell(h, g, from, to, k)
    {
      if k < j {
        assert MovedCell(h, h', from, to, k);
      }
    }
  }

  /** r copies a host cell, or faults. */
  ghost predicate Copies(s: Vm, r: Result<Vm>, inside: bool, from: nat, to: nat) {
    if inside then
      && from < |s.mem.host| && to < |s.mem.host|
      && r == Ok(s.(mem := s.mem.(host := s.mem.host[to := s.mem.host[from]])))
    else r == Stop(AccessViolation, s)
  }

  /** r copies the cell at byte i of the block, or faults. */
  ghost predicate CopiesCell(s: Vm, l: Layout, i: Cell, r: Result<Vm>) {
    var j := i / 8;
    var inside := j < Reach(l, s.alt) && j < Reach(l, s.pri);
    (inside ==> !Wraps(i)) && Copies(s, r, inside, HostOf(l, s.pri) + j, HostOf(l, s.alt) + j)
  }

  /** A block loop can be at byte i: everything before it was reachable. */
  ghost predicate AtByte(s: Vm, l: Layout, i: Cell) {
    Segment(s, l) && i % 8 == 0 && i / 8 <= Reach(l, s.alt) && i / 8 <= Reach(l, s.pri)
  }

  lemma MoveOneIs(s: Vm, i: Cell, fromInside: bool, from: nat, toInside: bool, to: nat)
    requires s.DataPtr(Plus(s.pri, i)) == if fromInside then Some(from) else None
    requires s.DataPtr(Plus(s.alt, i)) == if toInside then Some(to) else None
    ensures Copies(s, MoveOne(s, i), toInside && fromInside, from, to)
  {
  }

  lemma MoveStep(s: Vm, l: Layout, i: Cell)
    requires AtByte(s, l, i)
    ensures CopiesCell(s, l, i, MoveOne(s, i))
  {
    BlockAccess(s, l, s.pri, i);
    BlockAccess(s, l, s.alt, i);
    var j := i / 8;
    MoveOneIs(s, i, j < Reach(l, s.pri), HostOf(l, s.pri) + j, j < Reach(l, s.alt), HostOf(l, s.alt) + j);
  }

  /** One copied cell extends the moved part by one. */
  lemma MoveTurn(s: Vm, h0: seq<Cell>, l: Layout, i: Cell, r: Result<Vm>)
    requires AtByte(s, l, i) && i / 8 < Reach(l, s.alt) && i / 8 < Reach(l, s.pri)
    requires CopiesCell(s, l, i, r) && Moved(h0, s.mem.host, HostOf(l, s.pri), HostOf(l, s.alt), i / 8)
    ensures !Wraps(i) && r.Ok? && r.value == s.(mem := s.mem.(host := r.value.mem.host))
    ensures AtByte(r.value, l, i + 8)
    ensures Moved(h0, r.value.mem.host, HostOf(l, s.pri), HostOf(l, s.alt), (i + 8) / 8)
  {
    MovedMore(h0, s.mem.host, HostOf(l, s.pri), HostOf(l, s.alt), i / 8);
  }

  lemma {:induction false} MoveLoop(turn: CellTurn, s: Vm, h0: seq<Cell>, l: Layout, n: Cell, i: Cell)
    returns (h: seq<Cell>)
    requires AtByte(s, l, i) && i / 8 <= CellCount(n)
    requires forall s: Vm, i: Cell :: AtByte(s, l, i) ==> CopiesCell(s, l, i, turn(s, i))
    requires Moved(h0, s.mem.host, HostOf(l, s.pri), HostOf(l, s.alt), i / 8)
    ensures var done := Min(CellCount(n), Min(Reach(l, s.alt), Reach(l, s.pri)));
            && Moved(h0, h, HostOf(l, s.pri), HostOf(l, s.alt), done)
            && OnlyMemory(s, EachCell(turn, false, s, n, i), done == CellCount(n), h)
    decreases n - i
  {
    h := s.mem.host;
    if i < n {
      assert CopiesCell(s, l, i, turn(s, i));
      if i / 8 < Reach(l, s.alt) && i / 8 < Reach(l, s.pri) {
        MoveTurn(s, h0, l, i, turn(s, i));
        h := MoveLoop(turn, turn(s, i).value, h0, l, n, i + 8);
      }
    }
  }

  /** OP_MOVS, completed or faulted: done cells are moved, upward overlaps repeating
      the first cells, and nothing else changes. */
  lemma MoveMovesBlock(s: Vm, l: Layout, n: Cell) returns (h: seq<Cell>)
    requires Segment(s, l)
    ensures var done := Min(CellCount(n), Min(Reach(l, s.alt), Reach(l, s.pri)));
            && (done > 0 ==> Moved(s.mem.host, h, HostOf(l, s.pri), HostOf(l, s.alt), done))
            && (done == 0 ==> h == s.mem.host)
            && OnlyMemory(s, ExecBlock(Movs, n, s), done == CellCount(n), h)
  {
    h := s.mem.host;
    if n > 0 {
      forall s: Vm, i: Cell | AtByte(s, l, i)
        ensures CopiesCell(s, l, i, Mover()(s, i))
      {
        MoveStep(s, l, i);
      }
      if Reach(l, s.alt) > 0 && Reach(l, s.pri) > 0 {
        h := MoveLoop(Mover(), s, h, l, n, 0);
      } else {
        assert CopiesCell(s, l, 0, Mover()(s, 0));
      }
    }
  }

  /** When the target does not start inside the block, or starts below it, the
      target ends up as a copy of the original block. */
  lemma MoveCopies(h: seq<Cell>, h': seq<Cell>, from: nat, to: nat, count: nat)
    requires Moved(h, h', from, to, count)
    requires to <= from || to >= from + count
    ensures h'[to..to + count] == h[from..from + count]
  {
    var a, b := h'[to..to + count], h[from..from + count];
    forall k | 0 <= k < count
      ensures a[k] == b[k]
    {
      assert MovedCell(h, h', from, to, k);
      if to > from {
        ModStep(k, to - from);
      }
    }
  }

  // ----- OP_CMPS -----

  /** The first cell in which two blocks differ, or their length. */
  function FirstDifference(a: seq<Cell>, b: seq<Cell>): (k: nat)
    requires |a| == |b|
    ensures k <= |a|
    ensures forall j :: 0 <= j < k ==> a[j] == b[j]
    ensures k < |a| ==> a[k] != b[k]
  {
    if a == [] || a[0] != b[0] then 0 else 1 + FirstDifference(a[1..], b[1..])
  }

  /** What a cell-by-cell comparison leaves: the first nonzero difference, or zero. */
  function Difference(a: seq<Cell>, b: seq<Cell>): (d: Cell)
    requires |a| == |b|
    ensures d == 0 <==> a == b
  {
    var k := FirstDifference(a, b);
    if k < |a| then Minus(a[k], b[k]) else 0
  }

  /** The count cells from address v on, in host memory h. */
  function BlockAt(h: seq<Cell>, l: Layout, v: Cell, count: nat): (b: seq<Cell>)
    requires count <= Reach(l, v) && l.data + l.dataLen <= |h|
    ensures |b| == count
  {
    if count == 0 then [] else h[HostOf(l, v)..HostOf(l, v) + count]
  }

  lemma DifferenceTail(a: seq<Cell>, b: seq<Cell>)
    requires |a| == |b| && a != []
    ensures Difference(a, b) == if a[0] != b[0] then Minus(a[0], b[0]) else Difference(a[1..], b[1..])
  {
  }

  /** Turn i of the comparison leaves the i-th difference of two blocks in PRI, and
      faults behind them when the byte count goes on. */
  ghost predicate Subtracts(turn: CellTurn, s: Vm, n: Cell, a: seq<Cell>, b: seq<Cell>) {
    && |a| == |b| <= CellCount(n)
    && (forall i: Cell :: i % 8 == 0 && i / 8 < |a| ==>
          !Wraps(i) && turn(s, i) == Ok(s.(pri := Minus(a[i / 8], b[i / 8]))))
    && (forall i: Cell :: i % 8 == 0 && i / 8 == |a| && i < n ==> turn(s, i) == Stop(AccessViolation, s))
  }

  /** A comparison that has reached two blocks of that many cells out of count: their
      first difference, or a fault when they are equal and not all. */
  function Compared(s: Vm, a: seq<Cell>, b: seq<Cell>, count: nat): Result<Vm>
    requires |a| == |b|
  {
    if a == b && |a| < count then Stop(AccessViolation, s.(pri := 0)) else Ok(s.(pri := Difference(a, b)))
  }

  lemma ComparedTail(s: Vm, a: seq<Cell>, b: seq<Cell>, count: nat)
    requires |a| == |b| && a != [] && count > 0
    ensures Compared(s, a, b, count)
         == if a[0] != b[0] then Ok(s.(pri := Minus(a[0], b[0]))) else Compared(s, a[1..], b[1..], count - 1)
  {
    DifferenceTail(a, b);
    assert a == [a[0]] + a[1..] && b == [b[0]] + b[1..];
  }

  /** While the cells agree PRI, and so the whole machine, stays as it was. */
  lemma {:induction false} CompareLoop(turn: CellTurn, s: Vm, n: Cell, i: Cell, a: seq<Cell>, b: seq<Cell>)
    requires s.pri == 0 && i % 8 == 0 && i / 8 <= |a| && Subtracts(turn, s, n, a, b)
    ensures EachCell(turn, true, s, n, i) == Compared(s, a[i / 8..], b[i / 8..], CellCount(n) - i / 8)
    decreases n - i
  {
    var j := i / 8;
    assert s == s.(pri := 0);
    if i < n && j < |a| {
      var s1 := turn(s, i).value;
      ComparedTail(s, a[j..], b[j..], CellCount(n) - j);
      assert a[j..][1..] == a[j + 1..] && b[j..][1..] == b[j + 1..];
      if a[j] == b[j] {
        assert s1 == s;
        CompareLoop(turn, s, n, i + 8, a, b);
      } else {
        EachStops(turn, s1, n, i + 8);
      }
    }
  }

  lemma EachStops(turn: CellTurn, s: Vm, n: Cell, i: Cell)
    requires s.pri != 0
    ensures EachCell(turn, true, s, n, i) == Ok(s)
  {
  }

  /** The cells that OP_CMPS can compare before it leaves the segment. */
  function Comparable(s: Vm, l: Layout, n: Cell): nat {
    Min(CellCount(n), Min(Reach(l, s.alt), Reach(l, 0)))
  }

  /** OP_CMPS clears PRI before reading through it, so what it compares with the
      block at ALT is the block at data address 0, up to the first difference or fault. */
  lemma CompareUsesAddressZero(s: Vm, l: Layout, n: Cell)
    requires Segment(s, l)
    ensures var done := Comparable(s, l, n);
            ExecBlock(Cmps, n, s)
              == Compared(s, BlockAt(s.mem.host, l, s.alt, done), BlockAt(s.mem.host, l, 0, done), CellCount(n))
  {
    var done := Comparable(s, l, n);
    var a, b := BlockAt(s.mem.host, l, s.alt, done), BlockAt(s.mem.host, l, 0, done);
    var s0 := s.(pri := 0);
    ComparerSubtracts(s0, l, n);
    CompareLoop(Comparer(), s0, n, 0, a, b);
    assert a[0..] == a && b[0..] == b;
  }

  lemma ComparerSubtracts(s: Vm, l: Layout, n: Cell)
    requires Segment(s, l) && s.pri == 0
    ensures var done := Comparable(s, l, n);
            Subtracts(Comparer(), s, n, BlockAt(s.mem.host, l, s.alt, done), BlockAt(s.mem.host, l, 0, done))
  {
    var done := Comparable(s, l, n);
    var a, b := BlockAt(s.mem.host, l, s.alt, done), BlockAt(s.mem.host, l, 0, done);
    forall i: Cell | i % 8 == 0 && i / 8 <= done
      ensures i / 8 < done ==> !Wraps(i) && Comparer()(s, i) == Ok(s.(pri := Minus(a[i / 8], b[i / 8])))
      ensures i / 8 == done && i < n ==> Comparer()(s, i) == Stop(AccessViolation, s)
    {
      BlockAccess(s, l, 0, i);
      BlockAccess(s, l, s.alt, i);
    }
  }

  /** With host memory h, OP_CMPS leaves zero exactly when the blocks at PRI and ALT are equal. */
  ghost predicate ComparesBlocks(s: Vm, l: Layout, n: Cell, h: seq<Cell>)
    requires CellCount(n) <= Reach(l, s.pri) && CellCount(n) <= Reach(l, s.alt)
    requires l.data + l.dataLen <= |h|
  {
    var r := ExecBlock(Cmps, n, s.(mem := s.mem.(host := h)));
    r.Ok? && (r.value.pri == 0 <==> BlockAt(h, l, s.pri, CellCount(n)) == BlockAt(h, l, s.alt, CellCount(n)))
  }

  /** OP_CMPS is a block compare for every content of memory exactly when PRI is 0
      or the block is empty. */
  lemma CompareExact(s: Vm, l: Layout, n: Cell)
    requires Segment(s, l) && CellCount(n) <= Reach(l, s.pri) && CellCount(n) <= Reach(l, s.alt)
    ensures (forall h: seq<Cell> :: |h| == |s.mem.host| ==> ComparesBlocks(s, l, n, h)) <==> s.pri == 0 || n == 0
  {
    if s.pri == 0 || n == 0 {
      forall h: seq<Cell> | |h| == |s.mem.host|
        ensures ComparesBlocks(s, l, n, h)
      {
        CompareUsesAddressZero(s.(mem := s.mem.(host := h)), l, n);
      }
    } else {
      var h: seq<Cell> := seq(|s.mem.host|, p => if p == l.data then 1 else 0);
      CompareMisses(s, l, n, h);
      assert !ComparesBlocks(s, l, n, h);
    }
  }

  /** The input that shows the failure: memory is zero but for a one at data address 0. */
  lemma CompareMisses(s: Vm, l: Layout, n: Cell, h: seq<Cell>)
    requires Segment(s, l) && CellCount(n) <= Reach(l, s.pri) && CellCount(n) <= Reach(l, s.alt)
    requires |h| == |s.mem.host| && s.pri != 0 && n != 0
    requires forall p :: 0 <= p < |h| ==> h[p] == if p == l.data then 1 else 0
    ensures !ComparesBlocks(s, l, n, h)
  {
    CompareUsesAddressZero(s.(mem := s.mem.(host := h)), l, n);
    var count := CellCount(n);
    var a, b, zero := BlockAt(h, l, s.alt, count), BlockAt(h, l, s.pri, count), BlockAt(h, l, 0, count);
    assert zero[0] == 1 && b[0] == 0;
    if s.alt != 0 {
      assert a[0] == 0 && a == b;
    }
  }

  // ----- OP_SWITCH -----

  /** A record of a case table: the value to match and the jump offset. */
  datatype Case = Case(test: Cell, target: Cell)

  ghost predicate RecordsAt(s: Vm, record: Cell, cases: seq<Case>)
    decreases |cases|
  {
    cases != [] ==>
      && ReadCode(s, record) == Ok(cases[0].test)
      && ReadCode(s, Plus(record, 8)) == Ok(cases[0].target)
      && RecordsAt(s, Plus(record, 16), cases[1..])
  }

  /** The first record whose value is x. */
  function FirstMatch(cases: seq<Case>, x: Cell): (k: nat)
    ensures k <= |cases|
    ensures forall j :: 0 <= j < k ==> cases[j].test != x
    ensures k < |cases| ==> cases[k].test == x
  {
    if cases == [] || cases[0].test == x then 0 else 1 + FirstMatch(cases[1..], x)
  }

  lemma NextRecord(record: Cell, k: nat)
    ensures Plus(Plus(record, 16), Wrap(16 * k)) == Plus(record, Wrap(16 * (k + 1)))
  {
    WrapSum(16 * k, record + 16);
    WrapSum(16 * (k + 1), record);
    WrapSum(record + 16, Wrap(16 * k));
    assert 16 * (k + 1) + record == 16 * k + (record + 16);
  }

  lemma WrapSum(x: int, y: int)
    ensures Wrap(Wrap(x) + y) == Wrap(x + y)
  {
  }

  /** A record that does not match is skipped; one that matches ends the search. */
  lemma OneCase(s: Vm, record: Cell, cases: seq<Case>)
    requires cases != [] && RecordsAt(s, record, cases)
    ensures FindCase(s, record, |cases|) ==
            if s.pri == cases[0].test then Ok(s.(cip := Plus(record, cases[0].target)))
            else FindCase(s, Plus(record, 16), |cases| - 1)
  {
  }

  /** The record search stops at the first match. */
  lemma {:induction false} FindCaseMatches(s: Vm, record: Cell, cases: seq<Case>)
    requires RecordsAt(s, record, cases)
    ensures FindCase(s, record, |cases|) == Ok(s.(cip := CaseTarget(record, cases, s.pri, s.cip)))
    decreases |cases|
  {
    if cases != [] {
      OneCase(s, record, cases);
      NextCase(record, cases, s.pri, s.cip, FirstMatch(cases[1..], s.pri));
      if cases[0].test != s.pri {
        FindCaseMatches(s, Plus(record, 16), cases[1..]);
      }
    } else {
      assert s == s.(cip := s.cip);
    }
  }

  /** Where record k of a table resumes: at its own target, or else at the default. */
  function TargetOf(record: Cell, cases: seq<Case>, k: nat, other: Cell): Cell {
    if k < |cases| then Plus(Plus(record, Wrap(16 * k)), cases[k].target) else other
  }

  lemma NextTarget(record: Cell, cases: seq<Case>, k: nat, other: Cell)
    requires cases != []
    ensures TargetOf(record, cases, k + 1, other) == TargetOf(Plus(record, 16), cases[1..], k, other)
  {
    NextRecord(record, k);
  }

  /** The target by the first record alone, or by the table without it. */
  lemma NextCase(record: Cell, cases: seq<Case>, x: Cell, other: Cell, k: nat)
    requires cases != [] && k == FirstMatch(cases[1..], x)
    ensures CaseTarget(record, cases, x, other)
         == if cases[0].test == x then Plus(record, cases[0].target)
            else CaseTarget(Plus(record, 16), cases[1..], x, other)
  {
    if cases[0].test == x {
      assert Plus(record, Wrap(0)) == record;
    } else {
      assert FirstMatch(cases, x) == k + 1;
      NextTarget(record, cases, k, other);
    }
  }

  /** Where a table of records resumes: the first match's own target, or else the default. */
  function CaseTarget(record: Cell, cases: seq<Case>, x: Cell, other: Cell): Cell {
    TargetOf(record, cases, FirstMatch(cases, x), other)
  }

  /** A case table in code memory: its tag, the record count, the default offset, the records. */
  ghost predicate TableAt(s: Vm, table: Cell, cases: seq<Case>, other: Cell) {
    && |cases| < 0x1_0000_0000_0000_0000
    && ReadCode(s, table) == Ok(CASE_TABLE)
    && ReadCode(s, Plus(table, 8)) == Ok(|cases|)
    && ReadCode(s, Plus(table, 16)) == Ok(other)
    && RecordsAt(s, Plus(table, 24), cases)
  }

  lemma RecordsStay(s: Vm, t: Vm, record: Cell, cases: seq<Case>)
    requires RecordsAt(s, record, cases) && t == s.(cip := t.cip)
    ensures RecordsAt(t, record, cases)
    decreases |cases|
  {
    if cases != [] {
      RecordsStay(s, t, Plus(record, 16), cases[1..]);
    }
  }

  /** OP_SWITCH jumps to the target of the first matching record, or to the default;
      each offset counts from the record, or the table's count cell, that holds it. */
  lemma SwitchJumps(s: Vm, x: Cell, cases: seq<Case>, other: Cell)
    requires TableAt(s, JumpTarget(s, x), cases, other)
    ensures var table := JumpTarget(s, x);
            ExecFlow(Switch, x, s) ==
              Ok(s.(cip := CaseTarget(Plus(table, 24), cases, s.pri, Plus(Plus(table, 8), other))))
  {
    var table := JumpTarget(s, x);
    var t := s.(cip := Plus(Plus(table, 8), other));
    RecordsStay(s, t, Plus(table, 24), cases);
    FindCaseMatches(t, Plus(table, 24), cases);
  }
}

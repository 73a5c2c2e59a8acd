/** Runs on the paged Harvard backing are runs on the contiguous backing.

    The paged machine faults on misaligned addresses and the contiguous one does
    not, so the simulation goes from paged to contiguous. */
module Simulation {
  import opened Alu
  import opened Cells
  import opened Memories
  import opened Machine

  /** Where the two segments lie in host memory, in cells. */
  datatype Layout = Layout(code: nat, codeLen: nat, data: nat, dataLen: nat)

  /** Accesses through a page table whose only page holds the segment: aligned and in bounds. */
  ghost predicate Strict(tr: Translation, base: Cell, buf: nat, cells: nat) {
    forall v: Cell :: tr(Plus(base, v)) == if v % 8 == 0 && v < 8 * cells then Some(buf + v / 8) else None
  }

  /** Accesses through a contiguous buffer at address 0: in bounds only. */
  ghost predicate Loose(tr: Translation, base: Cell, buf: nat, cells: nat) {
    forall v: Cell :: tr(Plus(base, v)) == if v < 8 * cells then Some(buf + v / 8) else None
  }

  ghost predicate Apart(l: Layout, size: nat) {
    && l.code + l.codeLen <= size && l.data + l.dataLen <= size
    && (l.code + l.codeLen <= l.data || l.data + l.dataLen <= l.code)
  }

  /** A data segment in host memory, small enough that no address past its end wraps. */
  ghost predicate Segment(s: Vm, l: Layout) {
    && Strict(s.mem.data, s.dat, l.data, l.dataLen)
    && l.data + l.dataLen <= |s.mem.host| && 8 * l.dataLen < 0x1_0000_0000_0000_0000
  }

  /** Data through a page table, code through another one or through a contiguous buffer. */
  ghost predicate PagedHarvard(s: Vm, l: Layout) {
    && (Strict(s.mem.code, s.cod, l.code, l.codeLen) || Loose(s.mem.code, s.cod, l.code, l.codeLen))
    && Strict(s.mem.data, s.dat, l.data, l.dataLen)
    && Apart(l, |s.mem.host|)
  }

  ghost predicate FlatHarvard(t: Vm, m: Layout) {
    && Loose(t.mem.code, t.cod, m.code, m.codeLen)
    && Loose(t.mem.data, t.dat, m.data, m.dataLen)
    && Apart(m, |t.mem.host|)
  }

  ghost predicate SameRegisters(s: Vm, t: Vm) {
    t == s.(cod := t.cod, dat := t.dat, mem := t.mem)
  }

  /** Two stretches of host memory hold the same cells. */
  ghost predicate SameCells(h: seq<Cell>, a: nat, h': seq<Cell>, a': nat, n: nat)
    requires a + n <= |h| && a' + n <= |h'|
  {
    forall k :: 0 <= k < n ==> CellAt(h, a, k) == CellAt(h', a', k)
  }

  ghost function CellAt(h: seq<Cell>, a: nat, k: nat): Cell
    requires a + k < |h|
  {
    h[a + k]
  }

  ghost predicate Sim(l: Layout, m: Layout, s: Vm, t: Vm) {
    && PagedHarvard(s, l) && FlatHarvard(t, m) && SameRegisters(s, t)
    && l.codeLen == m.codeLen && l.dataLen == m.dataLen
    && SameCells(s.mem.host, l.code, t.mem.host, m.code, l.codeLen)
    && SameCells(s.mem.host, l.data, t.mem.host, m.data, l.dataLen)
  }

  ghost predicate OnePage(b: Backing, page: nat, buf: nat, cells: nat) {
    && b.Paged? && page < 32 && 8 * cells <= PAGE_BYTES
    && b.pages[page] == Mapping(Some(buf), 8 * cells)
    && forall j :: 0 <= j < 32 && j != page ==> b.pages[j].buf.None?
  }

  /** A paged access succeeds exactly when the address is cell-aligned and below
      the segment size, whichever page the segment was put on. */
  lemma PagedIsStrict(b: Backing, page: nat, buf: nat, cells: nat)
    requires OnePage(b, page, buf, cells)
    ensures Strict(b.Translate, MakeVa(page, 0), buf, cells)
  {
    forall v: Cell
      ensures b.Translate(Plus(MakeVa(page, 0), v)) ==
              if v % 8 == 0 && v < 8 * cells then Some(buf + v / 8) else None
    {
      var base := page * 0x800_0000_0000_0000;
      var va := Plus(MakeVa(page, 0), v);
      if v < 0x800_0000_0000_0000 {
        assert va == base + v;
        assert PageIndex(va) == page && PageOffset(va) == v;
      } else {
        assert va == base + v || va == base + v - 0x1_0000_0000_0000_0000;
        assert PageIndex(va) != page;
      }
      assert va % 8 == v % 8;
    }
  }

  /** A contiguous access ignores alignment. */
  lemma ContiguousIsLoose(b: Backing, buf: nat, cells: nat)
    requires b == Contiguous(Some(buf), 8 * cells)
    ensures Loose(b.Translate, 0, buf, cells)
  {
  }

  /** A machine on two page tables that hold one segment each, and the machine with the
      same registers on two contiguous backings at base 0 over the same host memory. */
  lemma BackingsRelated(s: Vm, l: Layout, codePages: Backing, dataPages: Backing, i: nat, j: nat)
    requires OnePage(codePages, i, l.code, l.codeLen) && OnePage(dataPages, j, l.data, l.dataLen)
    requires s.cod == MakeVa(i, 0) && s.dat == MakeVa(j, 0) && Apart(l, |s.mem.host|)
    requires s.mem == Memory(s.mem.host, codePages.Translate, dataPages.Translate)
    ensures var code, data := Contiguous(Some(l.code), 8 * l.codeLen), Contiguous(Some(l.data), 8 * l.dataLen);
            Sim(l, l, s, s.(cod := 0, dat := 0, mem := Memory(s.mem.host, code.Translate, data.Translate)))
  {
    PagedIsStrict(codePages, i, l.code, l.codeLen);
    PagedIsStrict(dataPages, j, l.data, l.dataLen);
    ContiguousIsLoose(Contiguous(Some(l.code), 8 * l.codeLen), l.code, l.codeLen);
    ContiguousIsLoose(Contiguous(Some(l.data), 8 * l.dataLen), l.data, l.dataLen);
  }

  /** The errors of a failed memory access, which the paged machine can have alone. */
  predicate MemoryFault(e: Error) {
    e == AccessViolation || e == AccessViolationCode
  }

  /** r on the paged machine is matched by r' on the contiguous one: when it goes on, and
      when it stops for any other reason than a failed memory access. */
  ghost predicate Matched(l: Layout, m: Layout, r: Result<Vm>, r': Result<Vm>) {
    && (r.Ok? ==> r'.Ok? && Sim(l, m, r.value, r'.value))
    && (r.Stop? && !MemoryFault(r.err) ==> r'.Stop? && r'.err == r.err && Sim(l, m, r.vm, r'.vm))
  }

  lemma SimReadData(l: Layout, m: Layout, s: Vm, t: Vm, v: Cell)
    requires Sim(l, m, s, t)
    ensures ReadData(s, v).Ok? ==> ReadData(t, v) == ReadData(s, v)
  {
    if s.DataPtr(v).Some? {
      assert CellAt(s.mem.host, l.data, v / 8) == CellAt(t.mem.host, m.data, v / 8);
    }
  }

  lemma SimReadCode(l: Layout, m: Layout, s: Vm, t: Vm, v: Cell)
    requires Sim(l, m, s, t)
    ensures ReadCode(s, v).Ok? ==> ReadCode(t, v) == ReadCode(s, v)
  {
    if s.CodePtr(v).Some? {
      assert CellAt(s.mem.host, l.code, v / 8) == CellAt(t.mem.host, m.code, v / 8);
    }
  }

  lemma SimRead(l: Layout, m: Layout, s: Vm, t: Vm)
    requires Sim(l, m, s, t)
    ensures forall v: Cell :: ReadData(s, v).Ok? ==> ReadData(t, v) == ReadData(s, v)
    ensures forall v: Cell :: ReadCode(s, v).Ok? ==> ReadCode(t, v) == ReadCode(s, v)
  {
    forall v: Cell
      ensures ReadData(s, v).Ok? ==> ReadData(t, v) == ReadData(s, v)
    {
      SimReadData(l, m, s, t, v);
    }
    forall v: Cell
      ensures ReadCode(s, v).Ok? ==> ReadCode(t, v) == ReadCode(s, v)
    {
      SimReadCode(l, m, s, t, v);
    }
  }

  lemma SimWrite(l: Layout, m: Layout, s: Vm, t: Vm, v: Cell, x: Cell)
    requires Sim(l, m, s, t)
    ensures Matched(l, m, WriteData(s, v, x), WriteData(t, v, x))
  {
    var r, r' := WriteData(s, v, x), WriteData(t, v, x);
    if r.Ok? {
      SameAfterStore(s.mem.host, l.data, t.mem.host, m.data, l.dataLen, v / 8, x);
      SameBeside(s.mem.host, l.code, t.mem.host, m.code, l.codeLen, l.data + v / 8, m.data + v / 8, x);
    }
  }

  lemma SameAfterStore(h: seq<Cell>, a: nat, h': seq<Cell>, a': nat, n: nat, k: nat, x: Cell)
    requires a + n <= |h| && a' + n <= |h'| && SameCells(h, a, h', a', n) && k < n
    ensures SameCells(h[a + k := x], a, h'[a' + k := x], a', n)
  {
    var g, g' := h[a + k := x], h'[a' + k := x];
    forall j | 0 <= j < n
      ensures CellAt(g, a, j) == CellAt(g', a', j)
    {
      assert CellAt(h, a, j) == CellAt(h', a', j);
    }
  }

  lemma SameBeside(h: seq<Cell>, a: nat, h': seq<Cell>, a': nat, n: nat, p: nat, p': nat, x: Cell)
    requires a + n <= |h| && a' + n <= |h'| && SameCells(h, a, h', a', n)
    requires p < |h| && p' < |h'| && !(a <= p < a + n) && !(a' <= p' < a' + n)
    ensures SameCells(h[p := x], a, h'[p' := x], a', n)
  {
    var g, g' := h[p := x], h'[p' := x];
    forall j | 0 <= j < n
      ensures CellAt(g, a, j) == CellAt(g', a', j)
    {
      assert CellAt(h, a, j) == CellAt(h', a', j);
    }
  }

  lemma SimPush(l: Layout, m: Layout, s: Vm, t: Vm, x: Cell)
    requires Sim(l, m, s, t)
    ensures Matched(l, m, Push(s, x), Push(t, x))
  {
    var stk := Minus(s.stk, 8);
    assert Sim(l, m, s.(stk := stk), t.(stk := stk));
    SimWrite(l, m, s.(stk := stk), t.(stk := stk), stk, x);
  }

  lemma SimFetch(l: Layout, m: Layout, s: Vm, t: Vm)
    requires Sim(l, m, s, t)
    ensures Fetch(s).Ok? ==>
              && Fetch(t).Ok? && Fetch(t).value.1 == Fetch(s).value.1
              && Sim(l, m, Fetch(s).value.0, Fetch(t).value.0)
  {
    SimReadCode(l, m, s, t, s.cip);
  }

  lemma SimLoad(l: Layout, m: Layout, op: LoadOp, x: Cell, s: Vm, t: Vm)
    requires Sim(l, m, s, t)
    ensures Matched(l, m, ExecLoad(op, x, s), ExecLoad(op, x, t))
  {
    SimRead(l, m, s, t);
  }

  lemma SimWrites(l: Layout, m: Layout, s: Vm, t: Vm)
    requires Sim(l, m, s, t)
    ensures forall v: Cell, x: Cell :: Matched(l, m, WriteData(s, v, x), WriteData(t, v, x))
  {
    forall v: Cell, x: Cell
      ensures Matched(l, m, WriteData(s, v, x), WriteData(t, v, x))
    {
      SimWrite(l, m, s, t, v, x);
    }
  }

  lemma SimStrb(l: Layout, m: Layout, x: Cell, s: Vm, t: Vm)
    requires Sim(l, m, s, t)
    ensures Matched(l, m, ExecStore(StrbI, x, s), ExecStore(StrbI, x, t))
  {
    var c := ReadData(s, CellStart(s.alt));
    SimReadData(l, m, s, t, CellStart(s.alt));
    if !SpansCells(s.alt, x) && ByteWidth(x) && c.Ok? {
      SpansIs(s.alt, x);
      SimWrite(l, m, s, t, CellStart(s.alt), MergeBytes(c.value, s.alt % 8, x, s.pri));
    }
  }

  lemma SimStore(l: Layout, m: Layout, op: StoreOp, x: Cell, s: Vm, t: Vm)
    requires Sim(l, m, s, t)
    ensures Matched(l, m, ExecStore(op, x, s), ExecStore(op, x, t))
  {
    if op == StrbI {
      SimStrb(l, m, x, s, t);
    } else {
      SimRead(l, m, s, t);
      SimWrites(l, m, s, t);
    }
  }

  /** The instructions through which a program sees its segment bases. */
  predicate ReadsBase(op: Opcode, x: Cell) {
    op == OnStack(PushrPri) || (op == Control(Lctrl) && x <= 1)
  }

  lemma SimStack(l: Layout, m: Layout, op: StackOp, s: Vm, t: Vm)
    requires Sim(l, m, s, t) && op != PushrPri
    ensures Matched(l, m, ExecStack(op, s), ExecStack(op, t))
  {
    SimRead(l, m, s, t);
    SimPush(l, m, s, t, s.pri);
    SimPush(l, m, s, t, s.alt);
  }

  lemma SimPopFrame(l: Layout, m: Layout, s: Vm, t: Vm)
    requires Sim(l, m, s, t)
    ensures Matched(l, m, PopFrame(s), PopFrame(t))
  {
    SimRead(l, m, s, t);
    var a := Pop(s);
    if a.Ok? {
      var s2 := a.value.0.(frm := a.value.1);
      var t2 := Pop(t).value.0.(frm := a.value.1);
      assert Sim(l, m, s2, t2);
      SimRead(l, m, s2, t2);
    }
  }

  lemma {:induction false} SimFindCase(l: Layout, m: Layout, s: Vm, t: Vm, record: Cell, count: nat)
    requires Sim(l, m, s, t)
    ensures Matched(l, m, FindCase(s, record, count), FindCase(t, record, count))
    decreases count
  {
    if count > 0 {
      SimReadCode(l, m, s, t, record);
      SimReadCode(l, m, s, t, Plus(record, 8));
      SimFindCase(l, m, s, t, Plus(record, 16), count - 1);
    }
  }

  lemma SimSwitch(l: Layout, m: Layout, x: Cell, s: Vm, t: Vm)
    requires Sim(l, m, s, t)
    ensures Matched(l, m, ExecFlow(Switch, x, s), ExecFlow(Switch, x, t))
  {
    SimRead(l, m, s, t);
    var table := JumpTarget(s, x);
    var count, other := ReadCode(s, Plus(table, 8)), ReadCode(s, Plus(table, 16));
    if count.Ok? && other.Ok? {
      var cip := Plus(Plus(table, 8), other.value);
      SimFindCase(l, m, s.(cip := cip), t.(cip := cip), Plus(table, 24), count.value);
    }
  }

  lemma SimFlow(l: Layout, m: Layout, op: FlowOp, x: Cell, s: Vm, t: Vm)
    requires Sim(l, m, s, t)
    ensures Matched(l, m, ExecFlow(op, x, s), ExecFlow(op, x, t))
  {
    SimRead(l, m, s, t);
    match op
    case Proc => SimPush(l, m, s, t, s.frm);
    case Call => SimPush(l, m, s, t, s.cip);
    case Ret => SimPopFrame(l, m, s, t);
    case Retn =>
      SimPopFrame(l, m, s, t);
      if PopFrame(s).Ok? {
        SimRead(l, m, PopFrame(s).value, PopFrame(t).value);
      }
    case Switch => SimSwitch(l, m, x, s, t);
    case _ =>
  }

  lemma SimMoveOne(l: Layout, m: Layout, s: Vm, t: Vm, i: Cell)
    requires Sim(l, m, s, t)
    ensures Matched(l, m, MoveOne(s, i), MoveOne(t, i))
  {
    SimReadData(l, m, s, t, Plus(s.pri, i));
    var c := ReadData(s, Plus(s.pri, i));
    if c.Ok? {
      SimWrite(l, m, s, t, Plus(s.alt, i), c.value);
    }
  }

  lemma SimCompareOne(l: Layout, m: Layout, s: Vm, t: Vm, i: Cell)
    requires Sim(l, m, s, t)
    ensures Matched(l, m, CompareOne(s, i), CompareOne(t, i))
  {
    SimReadData(l, m, s, t, Plus(s.pri, i));
    SimReadData(l, m, s, t, Plus(s.alt, i));
  }

  /** Turns of a block loop on related machines match. */
  ghost predicate CellsMatch(l: Layout, m: Layout, turn: CellTurn) {
    forall s: Vm, t: Vm, i: Cell {:trigger turn(s, i), turn(t, i)} ::
      Sim(l, m, s, t) ==> Matched(l, m, turn(s, i), turn(t, i))
  }

  lemma {:induction false} SimEach(l: Layout, m: Layout, turn: CellTurn, whileZero: bool, s: Vm, t: Vm,
                                   n: Cell, i: Cell)
    requires Sim(l, m, s, t) && CellsMatch(l, m, turn)
    ensures Matched(l, m, EachCell(turn, whileZero, s, n, i), EachCell(turn, whileZero, t, n, i))
    decreases n - i
  {
    if i < n {
      assert Matched(l, m, turn(s, i), turn(t, i));
      if turn(s, i).Ok? && !Wraps(i) {
        SimEach(l, m, turn, whileZero, turn(s, i).value, turn(t, i).value, n, i + 8);
      }
    }
  }

  /** The host treats related machines alike and keeps them related, but for callbacks in
      which it fails to access the memory of the paged machine. */
  ghost predicate SameHost(l: Layout, m: Layout, env: Env, env': Env) {
    forall k: nat, i: Cell, s: Vm, t: Vm {:trigger env(k, i, s), env'(k, i, t)} ::
      Sim(l, m, s, t) ==> AnsweredAlike(l, m, s, env(k, i, s), t, env'(k, i, t))
  }

  ghost predicate AnsweredAlike(l: Layout, m: Layout, s: Vm, r: (Error, Vm), t: Vm, r': (Error, Vm)) {
    !MemoryFault(r.0) ==> r'.0 == r.0 && SimAfterCallback(l, m, s, r.1, t, r'.1)
  }

  /** Related once fire_callback has restored the five registers. */
  ghost predicate SimAfterCallback(l: Layout, m: Layout, s: Vm, s': Vm, t: Vm, t': Vm) {
    Sim(l, m,
        s'.(alt := s.alt, frm := s.frm, cip := s.cip, stp := s.stp, stk := s.stk),
        t'.(alt := t.alt, frm := t.frm, cip := t.cip, stp := t.stp, stk := t.stk))
  }

  lemma SimCallback(l: Layout, m: Layout, s: Vm, t: Vm, env: Env, env': Env, k: nat, i: Cell)
    requires Sim(l, m, s, t) && SameHost(l, m, env, env')
    ensures Matched(l, m, Callback(s, env, k, i), Callback(t, env', k, i))
  {
    assert AnsweredAlike(l, m, s, env(k, i, s), t, env'(k, i, t));
  }

  lemma SimControl(l: Layout, m: Layout, op: ControlOp, x: Cell, s: Vm, t: Vm)
    requires Sim(l, m, s, t) && !(op == Lctrl && x <= 1)
    ensures Matched(l, m, ExecControl(op, x, s), ExecControl(op, x, t))
  {
  }

  lemma SimArith(l: Layout, m: Layout, op: AluOp, x: Cell, s: Vm, t: Vm)
    requires Sim(l, m, s, t)
    ensures Matched(l, m, ExecArith(op, x, s), ExecArith(op, x, t))
  {
    var r := Compute(op, x, s.pri, s.alt);
    assert r == Compute(op, x, t.pri, t.alt);
  }

  lemma SimBlock(l: Layout, m: Layout, op: BlockOp, x: Cell, s: Vm, t: Vm)
    requires Sim(l, m, s, t)
    ensures Matched(l, m, ExecBlock(op, x, s), ExecBlock(op, x, t))
  {
    match op
    case Movs =>
      forall s: Vm, t: Vm, i: Cell | Sim(l, m, s, t)
        ensures Matched(l, m, Mover()(s, i), Mover()(t, i))
      {
        SimMoveOne(l, m, s, t, i);
      }
      SimEach(l, m, Mover(), false, s, t, x, 0);
    case Fill =>
      forall s: Vm, t: Vm, i: Cell | Sim(l, m, s, t)
        ensures Matched(l, m, Filler()(s, i), Filler()(t, i))
      {
        SimWrite(l, m, s, t, Plus(s.alt, i), s.pri);
      }
      SimEach(l, m, Filler(), false, s, t, x, 0);
    case Cmps =>
      forall s: Vm, t: Vm, i: Cell | Sim(l, m, s, t)
        ensures Matched(l, m, Comparer()(s, i), Comparer()(t, i))
      {
        SimCompareOne(l, m, s, t, i);
      }
      SimEach(l, m, Comparer(), true, s.(pri := 0), t.(pri := 0), x, 0);
  }

  lemma SimExecute(l: Layout, m: Layout, op: Opcode, x: Cell, s: Vm, t: Vm, env: Env, env': Env, k: nat)
    requires Sim(l, m, s, t) && SameHost(l, m, env, env') && !ReadsBase(op, x)
    ensures Matched(l, m, Execute(op, x, s, env, k), Execute(op, x, t, env', k))
  {
    match op
    case Load(o) => SimLoad(l, m, o, x, s, t);
    case Store(o) => SimStore(l, m, o, x, s, t);
    case Control(o) => SimControl(l, m, o, x, s, t);
    case OnStack(o) => SimStack(l, m, o, s, t);
    case Flow(o) => SimFlow(l, m, o, x, s, t);
    case Arith(o) => SimArith(l, m, o, x, s, t);
    case Block(o) => SimBlock(l, m, o, x, s, t);
    case Host(o) => SimCallback(l, m, s, t, env, env', k, if o.Sysreq? then x else BREAK_CALLBACK);
  }

  lemma SimInstruction(l: Layout, m: Layout, s: Vm, t: Vm)
    requires Sim(l, m, s, t)
    ensures var i, j := Instruction(s), Instruction(t);
            && (i.Ok? ==> j.Ok? && j.value.1 == i.value.1 && j.value.2 == i.value.2 && Sim(l, m, i.value.0, j.value.0))
            && (i.Stop? && !MemoryFault(i.err) ==> j.Stop? && j.err == i.err && Sim(l, m, i.vm, j.vm))
  {
    SimFetch(l, m, s, t);
    if Fetch(s).Ok? {
      SimFetch(l, m, Fetch(s).value.0, Fetch(t).value.0);
    }
  }

  /** The instruction of this turn does not read a segment base. */
  ghost predicate BlindTick(s: Vm, env: Env, k: nat) {
    var c := Callback(s, env, k, SINGLE_STEP);
    c.Ok? && Instruction(c.value).Ok? ==> !ReadsBase(Instruction(c.value).value.1, Instruction(c.value).value.2)
  }

  /** Every turn the loop takes within its fuel is blind. */
  ghost predicate BlindLoop(turn: Turn, blind: (Vm, nat) -> bool, s: Vm, k: nat, fuel: nat)
    decreases fuel
  {
    s.cip != 0 && fuel > 0 ==>
      blind(s, k) && (turn(s, k).Ok? ==> BlindLoop(turn, blind, turn(s, k).value, k + 1, fuel - 1))
  }

  ghost function Blindness(env: Env): (Vm, nat) -> bool {
    (s: Vm, k: nat) => BlindTick(s, env, k)
  }

  /** No instruction of the run reads a segment base. */
  ghost predicate BlindRun(s: Vm, env: Env, k: nat, fuel: nat) {
    BlindLoop(Turns(env), Blindness(env), s, k, fuel)
  }

  /** One turn of the paged machine without a failed access is one turn of the contiguous machine. */
  lemma SimTick(l: Layout, m: Layout, s: Vm, t: Vm, env: Env, env': Env, k: nat)
    requires Sim(l, m, s, t) && SameHost(l, m, env, env') && BlindTick(s, env, k)
    ensures Matched(l, m, Tick(s, env, k), Tick(t, env', k))
  {
    SimCallback(l, m, s, t, env, env', k, SINGLE_STEP);
    var c := Callback(s, env, k, SINGLE_STEP);
    if c.Ok? {
      var d := Callback(t, env', k, SINGLE_STEP);
      SimInstruction(l, m, c.value, d.value);
      var i := Instruction(c.value);
      if i.Ok? {
        var (s1, op, x) := i.value;
        SimExecute(l, m, op, x, s1, Instruction(d.value).value.0, env, env', k);
      }
    }
  }

  ghost predicate MatchedEnd(l: Layout, m: Layout, e: Ending, e': Ending) {
    && (e.Returned? ==> e'.Returned? && Sim(l, m, e.vm, e'.vm))
    && (e.Running? ==> e'.Running? && Sim(l, m, e.vm, e'.vm))
    && (e.Failed? && !MemoryFault(e.err) ==> e'.Failed? && e'.err == e.err && Sim(l, m, e.vm, e'.vm))
  }

  /** Blind turns of one loop are matched by turns of the other. */
  ghost predicate TurnsMatch(l: Layout, m: Layout, turn: Turn, turn': Turn, blind: (Vm, nat) -> bool) {
    forall s: Vm, t: Vm, k: nat {:trigger turn(s, k), turn'(t, k)} ::
      Sim(l, m, s, t) && blind(s, k) ==> Matched(l, m, turn(s, k), turn'(t, k))
  }

  lemma {:induction false} LoopSimulation(l: Layout, m: Layout, turn: Turn, turn': Turn, blind: (Vm, nat) -> bool,
                                          s: Vm, t: Vm, k: nat, fuel: nat)
    requires Sim(l, m, s, t) && TurnsMatch(l, m, turn, turn', blind) && BlindLoop(turn, blind, s, k, fuel)
    ensures MatchedEnd(l, m, Loop(turn, s, k, fuel), Loop(turn', t, k, fuel))
    decreases fuel
  {
    if s.cip != 0 && fuel > 0 {
      assert Matched(l, m, turn(s, k), turn'(t, k));
      if turn(s, k).Ok? {
        LoopSimulation(l, m, turn, turn', blind, turn(s, k).value, turn'(t, k).value, k + 1, fuel - 1);
      }
    }
  }

  /** Every run on the paged backing that has no failed memory access - returned, stopped
      by an error or the host, or not finished - is matched turn for turn by the
      contiguous backing, with equal registers and segments. */
  lemma RunSimulation(l: Layout, m: Layout, s: Vm, t: Vm, env: Env, env': Env, k: nat, fuel: nat)
    requires Sim(l, m, s, t) && SameHost(l, m, env, env') && BlindRun(s, env, k, fuel)
    ensures MatchedEnd(l, m, Run(s, env, k, fuel), Run(t, env', k, fuel))
  {
    forall s: Vm, t: Vm, k: nat | Sim(l, m, s, t) && Blindness(env)(s, k)
      ensures Matched(l, m, Turns(env)(s, k), Turns(env')(t, k))
    {
      SimTick(l, m, s, t, env, env', k);
    }
    LoopSimulation(l, m, Turns(env), Turns(env'), Blindness(env), s, t, k, fuel);
  }

  lemma {:induction false} SimArgs(l: Layout, m: Layout, s: Vm, t: Vm, args: seq<Cell>)
    requires Sim(l, m, s, t)
    ensures Matched(l, m, PushArgs(s, args), PushArgs(t, args))
    decreases |args|
  {
    if args != [] {
      var x := args[|args| - 1];
      SimPush(l, m, s, t, x);
      if Push(s, x).Ok? {
        SimArgs(l, m, Push(s, x).value, Push(t, x).value, args[..|args| - 1]);
      }
    }
  }

  /** The machine just before the loop of a host call: arguments, their size and a zero return address pushed. */
  function CallEntry(s: Vm, cip: Cell, args: seq<Cell>): Result<Vm> {
    var s1 :- PushArgs(s, args);
    var s2 :- Push(s1, Wrap(8 * |args|));
    var s3 :- Push(s2, 0);
    Ok(s3.(cip := cip))
  }

  /** A host call without a failed memory access ends on the contiguous backing as it
      does on the paged one, with the same registers (so the same PRI) and segments. */
  lemma CallSimulation(l: Layout, m: Layout, s: Vm, t: Vm, env: Env, env': Env, cip: Cell, args: seq<Cell>, fuel: nat)
    requires Sim(l, m, s, t) && SameHost(l, m, env, env')
    requires CallEntry(s, cip, args).Ok? ==> BlindRun(CallEntry(s, cip, args).value, env, 0, fuel)
    ensures var e, e' := CallFunction(s, cip, args, env, fuel), CallFunction(t, cip, args, env', fuel);
            MatchedEnd(l, m, e, e')
  {
    SimArgs(l, m, s, t, args);
    var s1 := PushArgs(s, args);
    if s1.Ok? {
      var t1 := PushArgs(t, args);
      SimPush(l, m, s1.value, t1.value, Wrap(8 * |args|));
      var s2 := Push(s1.value, Wrap(8 * |args|));
      if s2.Ok? {
        var t2 := Push(t1.value, Wrap(8 * |args|));
        SimPush(l, m, s2.value, t2.value, 0);
        var s3 := Push(s2.value, 0);
        if s3.Ok? {
          RunSimulation(l, m, s3.value.(cip := cip), Push(t2.value, 0).value.(cip := cip), env, env', 0, fuel);
        }
      }
    }
  }
}

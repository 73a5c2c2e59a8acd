/** What no run changes, and how a single-step callback bounds a run. */
module RunInvariant {
  import opened Alu
  import opened Cells
  import opened Memories
  import opened Machine

  /** Same segment bases and backings; host memory differs at most where data addresses reach. */
  ghost predicate Framed(s: Vm, t: Vm) {
    && t.cod == s.cod && t.dat == s.dat && t.stp == s.stp
    && t.mem.code == s.mem.code && t.mem.data == s.mem.data
    && |t.mem.host| == |s.mem.host|
    && forall p :: 0 <= p < |s.mem.host| && !s.mem.DataCell(p) ==> t.mem.host[p] == s.mem.host[p]
  }

  /** Whatever state a result carries, it keeps the frame. */
  ghost predicate Keeps(s: Vm, r: Result<Vm>) {
    && (r.Ok? ==> Framed(s, r.value))
    && (r.Stop? ==> Framed(s, r.vm))
  }

  /** The contract on the host: a callback may write data, PRI and HEA, and even
      STP or STK for itself, but keeps code, COD and DAT. */
  ghost predicate GoodHost(env: Env) {
    forall t: nat, i: Cell, s: Vm :: Framed(s, env(t, i, s).1.(stp := s.stp))
  }

  lemma SameDataCells(s: Vm, t: Vm)
    requires Framed(s, t)
    ensures forall p: nat :: t.mem.DataCell(p) <==> s.mem.DataCell(p)
  {
    assert forall va: Cell :: t.mem.Data(va) == s.mem.Data(va);
    forall p: nat
      ensures t.mem.DataCell(p) <==> s.mem.DataCell(p)
    {
      if t.mem.DataCell(p) {
        var va: Cell :| t.mem.Data(va) == Some(p);
        assert s.mem.Data(va) == Some(p);
      }
      if s.mem.DataCell(p) {
        var va: Cell :| s.mem.Data(va) == Some(p);
        assert t.mem.Data(va) == Some(p);
      }
    }
  }

  lemma FramedTransitive(s: Vm, t: Vm, u: Vm)
    requires Framed(s, t) && Framed(t, u)
    ensures Framed(s, u)
  {
    SameDataCells(s, t);
  }

  lemma WriteFrame(s: Vm, v: Cell, x: Cell)
    ensures Keeps(s, WriteData(s, v, x))
  {
    var p := s.DataPtr(v);
    if p.Some? {
      assert s.mem.DataCell(p.value) by {
        assert s.mem.Data(Plus(s.dat, v)) == Some(p.value);
      }
    }
  }

  lemma WriteFrames(s: Vm)
    ensures forall v: Cell, x: Cell :: Keeps(s, WriteData(s, v, x))
  {
    forall v: Cell, x: Cell
      ensures Keeps(s, WriteData(s, v, x))
    {
      WriteFrame(s, v, x);
    }
  }

  lemma PushFrame(s: Vm, x: Cell)
    ensures Keeps(s, Push(s, x))
  {
    WriteFrame(s.(stk := Minus(s.stk, 8)), Minus(s.stk, 8), x);
  }

  lemma MoveOneFrame(s: Vm, i: Cell)
    ensures Keeps(s, MoveOne(s, i))
  {
    var c := ReadData(s, Plus(s.pri, i));
    if c.Ok? {
      WriteFrame(s, Plus(s.alt, i), c.value);
    }
  }

  lemma {:induction false} EachFrame(turn: CellTurn, whileZero: bool, s: Vm, n: Cell, i: Cell)
    requires forall s: Vm, i: Cell :: Keeps(s, turn(s, i))
    ensures Keeps(s, EachCell(turn, whileZero, s, n, i))
    decreases n - i
  {
    if i < n {
      var r := turn(s, i);
      assert Keeps(s, r);
      if r.Ok? && !Wraps(i) {
        EachFrame(turn, whileZero, r.value, n, i + 8);
        Chain(s, r.value, EachCell(turn, whileZero, r.value, n, i + 8));
      }
    }
  }

  lemma {:induction false} FindCaseFrame(s: Vm, record: Cell, count: nat)
    ensures Keeps(s, FindCase(s, record, count))
    decreases count
  {
    if count > 0 {
      FindCaseFrame(s, Plus(record, 16), count - 1);
    }
  }

  lemma Chain(s: Vm, t: Vm, r: Result<Vm>)
    requires Framed(s, t) && Keeps(t, r)
    ensures Keeps(s, r)
  {
    if r.Ok? { FramedTransitive(s, t, r.value); }
    if r.Stop? { FramedTransitive(s, t, r.vm); }
  }

  lemma StoreFrame(op: StoreOp, x: Cell, s: Vm)
    ensures Keeps(s, ExecStore(op, x, s))
  {
    WriteFrames(s);
  }

  lemma FlowFrame(op: FlowOp, x: Cell, s: Vm)
    ensures Keeps(s, ExecFlow(op, x, s))
  {
    PushFrame(s, s.frm);
    PushFrame(s, s.cip);
    if op == Switch {
      var table := JumpTarget(s, x);
      var other := ReadCode(s, Plus(table, 16));
      var count := ReadCode(s, Plus(table, 8));
      if other.Ok? && count.Ok? {
        var s1 := s.(cip := Plus(Plus(table, 8), other.value));
        FindCaseFrame(s1, Plus(table, 24), count.value);
        Chain(s, s1, FindCase(s1, Plus(table, 24), count.value));
      }
    }
  }

  lemma StackFrame(op: StackOp, s: Vm)
    ensures Keeps(s, ExecStack(op, s))
  {
    PushFrame(s, s.pri);
    PushFrame(s, s.alt);
    PushFrame(s, Plus(s.pri, s.dat));
  }

  lemma BlockFrame(op: BlockOp, x: Cell, s: Vm)
    ensures Keeps(s, ExecBlock(op, x, s))
  {
    match op
    case Movs =>
      forall s: Vm, i: Cell ensures Keeps(s, Mover()(s, i)) { MoveOneFrame(s, i); }
      EachFrame(Mover(), false, s, x, 0);
    case Fill =>
      forall s: Vm, i: Cell ensures Keeps(s, Filler()(s, i)) { WriteFrame(s, Plus(s.alt, i), s.pri); }
      EachFrame(Filler(), false, s, x, 0);
    case Cmps =>
      var s0 := s.(pri := 0);
      EachFrame(Comparer(), true, s0, x, 0);
      Chain(s, s0, EachCell(Comparer(), true, s0, x, 0));
  }

  lemma ControlFrame(op: ControlOp, x: Cell, s: Vm)
    ensures Keeps(s, ExecControl(op, x, s))
  {
  }

  lemma ArithFrame(op: AluOp, x: Cell, s: Vm)
    ensures Keeps(s, ExecArith(op, x, s))
  {
  }

  lemma LoadFrame(op: LoadOp, x: Cell, s: Vm)
    ensures Keeps(s, ExecLoad(op, x, s))
  {
  }

  lemma CallbackFrame(s: Vm, env: Env, t: nat, index: Cell)
    requires GoodHost(env)
    ensures Keeps(s, Callback(s, env, t, index))
  {
    assert Framed(s, env(t, index, s).1.(stp := s.stp));
  }

  lemma ExecuteFrame(op: Opcode, x: Cell, s: Vm, env: Env, t: nat)
    requires GoodHost(env)
    ensures Keeps(s, Execute(op, x, s, env, t))
  {
    match op
    case Load(l) => LoadFrame(l, x, s);
    case Store(st) => StoreFrame(st, x, s);
    case Control(c) => ControlFrame(c, x, s);
    case OnStack(k) => StackFrame(k, s);
    case Flow(f) => FlowFrame(f, x, s);
    case Arith(a) => ArithFrame(a, x, s);
    case Block(b) => BlockFrame(b, x, s);
    case Host(h) => CallbackFrame(s, env, t, if h.Sysreq? then x else BREAK_CALLBACK);
  }

  lemma TickFrame(s: Vm, env: Env, t: nat)
    requires GoodHost(env)
    ensures Keeps(s, Tick(s, env, t))
  {
    CallbackFrame(s, env, t, SINGLE_STEP);
    var c := Callback(s, env, t, SINGLE_STEP);
    if c.Ok? {
      StepFrame(c.value, env, t);
      Chain(s, c.value, Step(c.value, env, t));
    }
  }

  lemma StepFrame(s: Vm, env: Env, t: nat)
    requires GoodHost(env)
    ensures Keeps(s, Step(s, env, t))
  {
    var i := Instruction(s);
    if i.Ok? {
      var (s1, op, x) := i.value;
      ExecuteFrame(op, x, s1, env, t);
      Chain(s, s1, Execute(op, x, s1, env, t));
    }
  }

  ghost predicate EndsFramed(s: Vm, e: Ending) {
    !e.NoMeaning? ==> Framed(s, e.vm)
  }

  lemma {:induction false} LoopFrame(turn: Turn, s: Vm, t: nat, fuel: nat)
    requires forall s: Vm, t: nat :: Keeps(s, turn(s, t))
    ensures EndsFramed(s, Loop(turn, s, t, fuel))
    decreases fuel
  {
    if s.cip != 0 && fuel > 0 {
      var r := turn(s, t);
      assert Keeps(s, r);
      if r.Ok? {
        LoopFrame(turn, r.value, t + 1, fuel - 1);
        var e := Loop(turn, r.value, t + 1, fuel - 1);
        if !e.NoMeaning? { FramedTransitive(s, r.value, e.vm); }
      }
    }
  }

  lemma RunFrame(s: Vm, env: Env, t: nat, fuel: nat)
    requires GoodHost(env)
    ensures EndsFramed(s, Run(s, env, t, fuel))
  {
    forall s: Vm, t: nat
      ensures Keeps(s, Turns(env)(s, t))
    {
      TickFrame(s, env, t);
    }
    LoopFrame(Turns(env), s, t, fuel);
  }

  /** Harvard separation: no data address reaches a code cell. */
  ghost predicate Separate(m: Memory) {
    forall va: Cell, p: nat :: m.Code(va) == Some(p) ==> !m.DataCell(p)
  }

  /** The cell that code address v holds. */
  function CodeAt(s: Vm, v: Cell): Option<Cell> {
    var p := s.CodePtr(v);
    if p.Some? then Some(s.mem.host[p.value]) else None
  }

  /** On the Harvard backing a run, however it ends, changes no code cell and none
      of COD, DAT and STP, and keeps the separation. */
  lemma RunKeepsCode(s: Vm, cip: Cell, env: Env, fuel: nat, v: Cell)
    requires GoodHost(env) && Separate(s.mem)
    ensures var e := CallRaw(s, cip, env, fuel);
            !e.NoMeaning? ==>
              && CodeAt(e.vm, v) == CodeAt(s, v)
              && e.vm.cod == s.cod && e.vm.dat == s.dat && e.vm.stp == s.stp
              && Separate(e.vm.mem)
  {
    PushFrame(s, 0);
    var r := Push(s, 0);
    var e := CallRaw(s, cip, env, fuel);
    if r.Ok? {
      var s1 := r.value.(cip := cip);
      RunFrame(s1, env, 0, fuel);
      if !e.NoMeaning? { FramedTransitive(s, s1, e.vm); }
    }
    if !e.NoMeaning? {
      assert Framed(s, e.vm);
      SameDataCells(s, e.vm);
      assert forall va: Cell :: e.vm.mem.Code(va) == s.mem.Code(va);
      assert s.mem.Code(Plus(s.cod, v)) == s.CodePtr(v);
    }
  }

  /** The single-step callback stops every run by its n-th turn. */
  ghost predicate StepBudget(env: Env, n: nat) {
    forall t: nat, s: Vm :: t >= n ==> env(t, SINGLE_STEP, s).0 != Success
  }

  lemma {:induction false} BudgetedLoop(turn: Turn, s: Vm, t: nat, n: nat, fuel: nat)
    requires forall s: Vm, t: nat :: t >= n ==> !turn(s, t).Ok?
    requires t <= n && t + fuel > n
    ensures !Loop(turn, s, t, fuel).Running?
    decreases fuel
  {
    if s.cip != 0 && turn(s, t).Ok? {
      BudgetedLoop(turn, turn(s, t).value, t + 1, n, fuel - 1);
    }
  }

  lemma BudgetStops(env: Env, n: nat)
    requires StepBudget(env, n)
    ensures forall s: Vm, t: nat :: t >= n ==> !Turns(env)(s, t).Ok?
  {
    forall s: Vm, t: nat | t >= n
      ensures !Turns(env)(s, t).Ok?
    {
      assert env(t, SINGLE_STEP, s).0 != Success;
    }
  }

  /** A single-step callback that succeeds at most n times bounds every run to n
      instructions, and more fuel changes nothing. */
  lemma BudgetBoundsRun(s: Vm, cip: Cell, env: Env, n: nat, fuel: nat)
    requires StepBudget(env, n) && fuel > n
    ensures !CallRaw(s, cip, env, fuel).Running?
    ensures CallRaw(s, cip, env, fuel) == CallRaw(s, cip, env, n + 1)
  {
    var r := Push(s, 0);
    if r.Ok? {
      var s1 := r.value.(cip := cip);
      BudgetStops(env, n);
      BudgetedLoop(Turns(env), s1, 0, n, n + 1);
      MoreFuel(Turns(env), s1, 0, n + 1, fuel);
    }
  }

  lemma {:induction false} MoreFuel(turn: Turn, s: Vm, t: nat, fuel: nat, more: nat)
    requires fuel <= more && !Loop(turn, s, t, fuel).Running?
    ensures Loop(turn, s, t, more) == Loop(turn, s, t, fuel)
    decreases fuel
  {
    if s.cip != 0 && fuel > 0 && turn(s, t).Ok? {
      MoreFuel(turn, turn(s, t).value, t + 1, fuel - 1, more - 1);
    }
  }
}

/** The machine as the object it is in the source: registers and memory updated in
    place, loops with their own counters. Every method does what the instruction
    functions of module Machine say. */
module AmxObject {
  import opened Alu
  import opened Cells
  import opened Memories
  import opened Machine
  import opened ByteMasks

  /** The run has come to an end that has a meaning. */
  predicate Over(e: Ending) {
    e.Returned? || e.Failed?
  }

  /** The turns of that host's machine. */
  ghost predicate Executes(turn: Turn, env: Env) {
    forall s: Vm, t: nat {:trigger Turns(env)(s, t)} :: turn(s, t) == Turns(env)(s, t)
  }

  lemma LoopTurn(turn: Turn, s: Vm, t: nat, fuel: nat)
    requires s.cip != 0 && Over(Loop(turn, s, t, fuel))
    ensures fuel > 0 && !turn(s, t).Undefined?
    ensures turn(s, t).Ok? ==> Loop(turn, s, t, fuel) == Loop(turn, turn(s, t).value, t + 1, fuel - 1)
    ensures turn(s, t).Stop? ==> Loop(turn, s, t, fuel) == Failed(turn(s, t).err, turn(s, t).vm)
  {
  }

  /** OP_STRB_I with its masks and shifts. */
  function MaskedStrb(x: Cell, s: Vm): Result<Vm> {
    var aligned := Aligned(s.alt);
    if aligned != Aligned(Minus(Plus(s.alt, x), 1)) then Stop(InvalidOperand, s)
    else
      var c :- ReadData(s, aligned);
      if !ByteWidth(x) then Stop(InvalidOperand, s)
      else WriteData(s, aligned, MaskedMerge(c, s.alt, WidthMask(x), s.pri))
  }

  lemma MaskedAddress(a: Cell, x: Cell)
    ensures Aligned(a) == CellStart(a)
    ensures Aligned(a) != Aligned(Minus(Plus(a, x), 1)) <==> SpansCells(a, x)
  {
    MaskedSpan(a, x);
    AlignedIs(a);
  }

  lemma MaskedCell(c: Cell, a: Cell, x: Cell, v: Cell)
    requires ByteWidth(x) && !SpansCells(a, x)
    ensures a % 8 + x <= 8 && MaskedMerge(c, a, WidthMask(x), v) == MergeBytes(c, a % 8, x, v)
  {
    SpansIs(a, x);
    MaskedStore(c, a, x, v);
  }

  lemma StrbIsMasked(x: Cell, s: Vm)
    ensures Machine.ExecStore(StrbI, x, s) == MaskedStrb(x, s)
  {
    MaskedAddress(s.alt, x);
    var r := ReadData(s, CellStart(s.alt));
    if !SpansCells(s.alt, x) && ByteWidth(x) && r.Ok? {
      MaskedCell(r.value, s.alt, x, s.pri);
    }
  }

  /** OP_LODB_I with its masks and shifts. */
  function MaskedLodb(x: Cell, s: Vm): Result<Vm> {
    var aligned := Aligned(s.pri);
    if aligned != Aligned(Minus(Plus(s.pri, x), 1)) then Stop(InvalidOperand, s)
    else
      var c :- ReadData(s, aligned);
      if !ByteWidth(x) then Stop(InvalidOperand, s)
      else Ok(s.(pri := MaskedExtract(c, s.pri, WidthMask(x))))
  }

  lemma MaskedField(c: Cell, a: Cell, x: Cell)
    requires ByteWidth(x) && !SpansCells(a, x)
    ensures a % 8 + x <= 8 && MaskedExtract(c, a, WidthMask(x)) == ExtractBytes(c, a % 8, x)
  {
    SpansIs(a, x);
    MaskedLoad(c, a, x);
  }

  lemma LodbIsMasked(x: Cell, s: Vm)
    ensures Machine.ExecLoad(LodbI, x, s) == MaskedLodb(x, s)
  {
    MaskedAddress(s.pri, x);
    var r := ReadData(s, CellStart(s.pri));
    if !SpansCells(s.pri, x) && ByteWidth(x) && r.Ok? {
      MaskedField(r.value, s.pri, x);
    }
  }

  class Amx {
    var PRI: Cell
    var ALT: Cell
    var FRM: Cell
    var CIP: Cell
    var DAT: Cell
    var COD: Cell
    var STP: Cell
    var STK: Cell
    var HEA: Cell
    var mem: Memory

    /** All registers start at zero. */
    constructor (mem: Memory)
      ensures View() == Vm(0, 0, 0, 0, 0, 0, 0, 0, 0, mem)
    {
      PRI, ALT, FRM, CIP, DAT, COD, STP, STK, HEA := 0, 0, 0, 0, 0, 0, 0, 0, 0;
      this.mem := mem;
    }

    function View(): Vm
      reads this
    {
      Vm(PRI, ALT, FRM, CIP, DAT, COD, STP, STK, HEA, mem)
    }

    /** Error e and the present state are what r says. */
    ghost predicate Agrees(r: Result<Vm>, e: Error)
      reads this
    {
      match r
      case Ok(s) => e == Success && View() == s
      case Stop(err, s) => e == err != Success && View() == s
      case Undefined => false
    }

    function DataPtr(v: Cell): (p: Option<nat>)
      reads this
      ensures p == View().DataPtr(v) && (p.Some? ==> p.value < |mem.host|)
    {
      mem.Data(Plus(DAT, v))
    }

    function CodePtr(v: Cell): (p: Option<nat>)
      reads this
      ensures p == View().CodePtr(v) && (p.Some? ==> p.value < |mem.host|)
    {
      mem.Code(Plus(COD, v))
    }

    /** The next code cell; CIP moves on even when there is none. */
    method Fetch() returns (e: Error, x: Cell)
      modifies this`CIP
      ensures var r := Machine.Fetch(old(View()));
              if r.Ok? then e == Success && (View(), x) == r.value
              else r.Stop? && e == r.err != Success && View() == r.vm
    {
      var p := CodePtr(CIP);
      CIP := Plus(CIP, 8);
      if p.None? { return AccessViolationCode, 0; }
      return Success, mem.host[p.value];
    }

    method Read(v: Cell) returns (e: Error, x: Cell)
      ensures ReadData(View(), v) == if e == Success then Ok(x) else Stop(e, View())
    {
      var p := DataPtr(v);
      if p.None? { return AccessViolation, 0; }
      return Success, mem.host[p.value];
    }

    method ReadCodeCell(v: Cell) returns (e: Error, x: Cell)
      ensures ReadCode(View(), v) == if e == Success then Ok(x) else Stop(e, View())
    {
      var p := CodePtr(v);
      if p.None? { return AccessViolation, 0; }
      return Success, mem.host[p.value];
    }

    method Write(v: Cell, x: Cell) returns (e: Error)
      modifies this`mem
      ensures Agrees(WriteData(old(View()), v, x), e)
    {
      var p := DataPtr(v);
      if p.None? { return AccessViolation; }
      mem := mem.Store(p.value, x);
      return Success;
    }

    method Push(x: Cell) returns (e: Error)
      modifies this`STK, this`mem
      ensures Agrees(Machine.Push(old(View()), x), e)
    {
      STK := Minus(STK, 8);
      e := Write(STK, x);
    }

    method Pop() returns (e: Error, x: Cell)
      modifies this`STK
      ensures Machine.Pop(old(View())) == if e == Success then Ok((View(), x)) else Stop(e, View())
    {
      e, x := Read(STK);
      if e == Success { STK := Plus(STK, 8); }
    }

    /** Runs the host's callback and then puts back the registers it must not keep. */
    method FireCallback(env: Env, t: nat, index: Cell) returns (e: Error)
      modifies this
      ensures Agrees(Callback(old(View()), env, t, index), e)
    {
      var alt, frm, cip, stp, stk := ALT, FRM, CIP, STP, STK;
      var (err, s) := env(t, index, View());
      PRI, ALT, FRM, CIP, DAT, COD, STP, STK, HEA, mem :=
        s.pri, s.alt, s.frm, s.cip, s.dat, s.cod, s.stp, s.stk, s.hea, s.mem;
      ALT, FRM, CIP, STP, STK := alt, frm, cip, stp, stk;
      return err;
    }

    method ExecLoad(op: LoadOp, x: Cell) returns (e: Error)
      modifies this`PRI, this`ALT
      ensures Agrees(Machine.ExecLoad(op, x, old(View())), e)
    {
      var c: Cell;
      match op {
        case LoadPri => e, c := Read(x); if e == Success { PRI := c; }
        case LoadAlt => e, c := Read(x); if e == Success { ALT := c; }
        case LoadSPri => e, c := Read(Plus(FRM, x)); if e == Success { PRI := c; }
        case LoadSAlt => e, c := Read(Plus(FRM, x)); if e == Success { ALT := c; }
        case LrefSPri =>
          e, c := Read(Plus(FRM, x));
          if e == Success { e, c := Read(c); if e == Success { PRI := c; } }
        case LrefSAlt =>
          e, c := Read(Plus(FRM, x));
          if e == Success { e, c := Read(c); if e == Success { ALT := c; } }
        case LoadI => e, c := Read(PRI); if e == Success { PRI := c; }
        case Pick => e, c := Read(Plus(STK, x)); if e == Success { PRI := c; }
        case LodbI => e := LoadBytes(x);
      }
    }

    method LoadBytes(x: Cell) returns (e: Error)
      modifies this`PRI
      ensures Agrees(Machine.ExecLoad(LodbI, x, old(View())), e)
    {
      LodbIsMasked(x, View());
      var aligned := Aligned(PRI);
      if aligned != Aligned(Minus(Plus(PRI, x), 1)) { return InvalidOperand; }
      var c: Cell;
      e, c := Read(aligned);
      if e != Success { return; }
      if !ByteWidth(x) { return InvalidOperand; }
      PRI := MaskedExtract(c, PRI, WidthMask(x));
    }

    method StoreBytes(x: Cell) returns (e: Error)
      modifies this`mem
      ensures Agrees(Machine.ExecStore(StrbI, x, old(View())), e)
    {
      StrbIsMasked(x, View());
      var aligned := Aligned(ALT);
      if aligned != Aligned(Minus(Plus(ALT, x), 1)) { return InvalidOperand; }
      var c: Cell;
      e, c := Read(aligned);
      if e != Success { return; }
      if !ByteWidth(x) { return InvalidOperand; }
      e := Write(aligned, MaskedMerge(c, ALT, WidthMask(x), PRI));
    }

    method ExecStore(op: StoreOp, x: Cell) returns (e: Error)
      modifies this`PRI, this`ALT, this`mem
      ensures Agrees(Machine.ExecStore(op, x, old(View())), e)
    {
      var c: Cell;
      match op {
        case Stor => e := Write(x, PRI);
        case StorS => e := Write(Plus(FRM, x), PRI);
        case SrefS => e, c := Read(Plus(FRM, x)); if e == Success { e := Write(c, PRI); }
        case StorI => e := Write(ALT, PRI);
        case IncI => e, c := Read(PRI); if e == Success { e := Write(PRI, Plus(c, 1)); }
        case DecI => e, c := Read(PRI); if e == Success { e := Write(PRI, Minus(c, 1)); }
        case SwapPri => e, c := Read(STK); if e == Success { e := Write(STK, PRI); PRI := c; }
        case SwapAlt => e, c := Read(STK); if e == Success { e := Write(STK, ALT); ALT := c; }
        case StrbI => e := StoreBytes(x);
      }
    }

    method ExecControl(op: ControlOp, x: Cell) returns (e: Error)
      modifies this
      ensures Agrees(Machine.ExecControl(op, x, old(View())), e)
    {
      e := Success;
      match op {
        case Nop =>
        case AddrPri => PRI := Plus(FRM, x);
        case AddrAlt => ALT := Plus(FRM, x);
        case Stack => STK := Plus(STK, x); ALT := STK;
        case Heap => ALT := HEA; HEA := Plus(HEA, x);
        case Lctrl =>
          match x {
            case 0 => PRI := COD;
            case 1 => PRI := DAT;
            case 2 => PRI := HEA;
            case 3 => PRI := STP;
            case 4 => PRI := STK;
            case 5 => PRI := FRM;
            case 6 => PRI := CIP;
            case _ => e := InvalidOperand;
          }
        case Sctrl =>
          match x {
            case 2 => HEA := PRI;
            case 4 => STK := PRI;
            case 5 => FRM := PRI;
            case 6 => CIP := PRI;
            case _ => e := InvalidOperand;
          }
      }
    }

    method ExecStack(op: StackOp) returns (e: Error)
      modifies this
      ensures Agrees(Machine.ExecStack(op, old(View())), e)
    {
      var c: Cell;
      match op {
        case PushPri => e := Push(PRI);
        case PushAlt => e := Push(ALT);
        case PushrPri => e := Push(Plus(PRI, DAT));
        case PopPri => e, c := Pop(); if e == Success { PRI := c; }
        case PopAlt => e, c := Pop(); if e == Success { ALT := c; }
      }
    }

    method PopFrame() returns (e: Error)
      modifies this
      ensures Agrees(Machine.PopFrame(old(View())), e)
    {
      var c: Cell;
      e, c := Pop();
      if e != Success { return; }
      FRM := c;
      e, c := Pop();
      if e == Success { CIP := c; }
    }

    method ExecFlow(op: FlowOp, x: Cell) returns (e: Error)
      modifies this
      ensures Agrees(Machine.ExecFlow(op, x, old(View())), e)
    {
      e := Success;
      match op {
        case Proc => e := Push(FRM); if e == Success { FRM := STK; }
        case Ret => e := PopFrame();
        case Retn =>
          e := PopFrame();
          if e == Success {
            var size: Cell;
            e, size := Read(STK);
            if e == Success { STK := Plus(STK, Plus(size, 8)); }
          }
        case Call => e := Push(CIP); if e == Success { CIP := Plus(Minus(CIP, 16), x); }
        case Jump => CIP := Plus(Minus(CIP, 16), x);
        case Jzer => if PRI == 0 { CIP := Plus(Minus(CIP, 16), x); }
        case Jnz => if PRI != 0 { CIP := Plus(Minus(CIP, 16), x); }
        case Bounds => if PRI > x { e := OutOfBounds; }
        case Halt => PRI := x; e := Halted;
        case Switch => e := ExecSwitch(x);
      }
    }

    /** The table header, then the records one by one until one matches. */
    method ExecSwitch(x: Cell) returns (e: Error)
      modifies this`CIP
      ensures Agrees(Machine.ExecFlow(Switch, x, old(View())), e)
    {
      var table := Plus(Minus(CIP, 16), x);
      var tag, count, other: Cell;
      e, tag := ReadCodeCell(table);
      if e != Success { return; }
      if tag != CASE_TABLE { return InvalidOperand; }
      e, count := ReadCodeCell(Plus(table, 8));
      if e != Success { return; }
      e, other := ReadCodeCell(Plus(table, 16));
      if e != Success { return; }
      CIP := Plus(Plus(table, 8), other);
      e := SearchCases(Plus(table, 24), count);
    }

    method SearchCases(table: Cell, count: Cell) returns (e: Error)
      modifies this`CIP
      ensures Agrees(FindCase(old(View()), table, count), e)
    {
      var record, left := table, count;
      ghost var s := View();
      while left > 0
        invariant 0 <= left <= count && View() == s
        invariant FindCase(s, table, count) == FindCase(s, record, left)
        decreases left
      {
        var test, target: Cell;
        e, test := ReadCodeCell(record);
        if e != Success { return; }
        e, target := ReadCodeCell(Plus(record, 8));
        if e != Success { return; }
        if PRI == test {
          CIP := Plus(record, target);
          return Success;
        }
        record, left := Plus(record, 16), left - 1;
      }
      return Success;
    }

    /** The three block loops, with i as in the source. */
    method ExecBlock(op: BlockOp, n: Cell) returns (e: Error)
      requires !Machine.ExecBlock(op, n, View()).Undefined?
      modifies this`PRI, this`mem
      ensures Agrees(Machine.ExecBlock(op, n, old(View())), e)
    {
      match op {
        case Movs => e := MoveCells(n);
        case Cmps => e := CompareCells(n);
        case Fill => e := FillCells(n);
      }
    }

    /** One cell of OP_MOVS, at byte i of both blocks. */
    method MoveCell(i: Cell) returns (e: Error)
      modifies this`mem
      ensures Agrees(Mover()(old(View()), i), e)
    {
      var c: Cell;
      e, c := Read(Plus(PRI, i));
      if e == Success {
        e := Write(Plus(ALT, i), c);
      }
    }

    method MoveCells(n: Cell) returns (e: Error)
      requires !EachCell(Mover(), false, View(), n, 0).Undefined?
      modifies this`mem
      ensures Agrees(EachCell(Mover(), false, old(View()), n, 0), e)
    {
      var i: Cell := 0;
      ghost var r := EachCell(Mover(), false, View(), n, 0);
      while i < n
        invariant r == EachCell(Mover(), false, View(), n, i)
        decreases n - i
      {
        e := MoveCell(i);
        if e != Success { return; }
        i := i + 8;
      }
      return Success;
    }

    method FillCells(n: Cell) returns (e: Error)
      requires !EachCell(Filler(), false, View(), n, 0).Undefined?
      modifies this`mem
      ensures Agrees(EachCell(Filler(), false, old(View()), n, 0), e)
    {
      var i: Cell := 0;
      ghost var r := EachCell(Filler(), false, View(), n, 0);
      while i < n
        invariant r == EachCell(Filler(), false, View(), n, i)
        decreases n - i
      {
        ghost var s := View();
        e := Write(Plus(ALT, i), PRI);
        assert Agrees(Filler()(s, i), e);
        if e != Success { return; }
        i := i + 8;
      }
      return Success;
    }

    /** One difference of OP_CMPS, read through PRI. */
    method CompareCell(i: Cell) returns (e: Error)
      modifies this`PRI
      ensures Agrees(Comparer()(old(View()), i), e)
    {
      var c, d: Cell;
      e, c := Read(Plus(PRI, i));
      if e == Success {
        e, d := Read(Plus(ALT, i));
        if e == Success { PRI := Minus(d, c); }
      }
    }

    method CompareCells(n: Cell) returns (e: Error)
      requires !EachCell(Comparer(), true, View().(pri := 0), n, 0).Undefined?
      modifies this`PRI
      ensures Agrees(EachCell(Comparer(), true, old(View()).(pri := 0), n, 0), e)
    {
      PRI := 0;
      var i: Cell := 0;
      ghost var r := EachCell(Comparer(), true, View(), n, 0);
      while PRI == 0 && i < n
        invariant r == EachCell(Comparer(), true, View(), n, i)
        decreases n - i
      {
        e := CompareCell(i);
        if e != Success { return; }
        i := i + 8;
      }
      return Success;
    }

    method ExecArith(op: AluOp, x: Cell) returns (e: Error)
      requires !Machine.ExecArith(op, x, View()).Undefined?
      modifies this`PRI, this`ALT
      ensures Agrees(Machine.ExecArith(op, x, old(View())), e)
    {
      match Compute(op, x, PRI, ALT) {
        case Regs(pri, alt) => PRI, ALT := pri, alt; e := Success;
        case ZeroDivide => e := DivisionWithZero;
      }
    }

    method Execute(op: Opcode, x: Cell, env: Env, t: nat) returns (e: Error)
      requires !Machine.Execute(op, x, View(), env, t).Undefined?
      modifies this
      ensures Agrees(Machine.Execute(op, x, old(View()), env, t), e)
    {
      match op {
        case Load(l) => e := ExecLoad(l, x);
        case Store(st) => e := ExecStore(st, x);
        case Control(c) => e := ExecControl(c, x);
        case OnStack(k) => e := ExecStack(k);
        case Flow(f) => e := ExecFlow(f, x);
        case Arith(a) => e := ExecArith(a, x);
        case Block(b) => e := ExecBlock(b, x);
        case Host(h) => e := FireCallback(env, t, if h.Sysreq? then x else BREAK_CALLBACK);
      }
    }

    /** Fetch, decode, fetch the operand if there is one. */
    method NextInstruction() returns (e: Error, op: Opcode, x: Cell)
      modifies this`CIP
      ensures Instruction(old(View())) == if e == Success then Ok((View(), op, x)) else Stop(e, View())
    {
      var c: Cell;
      e, c := Fetch();
      op, x := Control(Nop), 0;
      if e != Success { return; }
      var d := Decode(c);
      if d.None? { e := InvalidInstruction; return; }
      op := d.value;
      if HasOperand(op) { e, x := Fetch(); }
    }

    method Step(env: Env, t: nat) returns (e: Error)
      requires !Machine.Step(View(), env, t).Undefined?
      modifies this
      ensures Agrees(Machine.Step(old(View()), env, t), e)
    {
      var op, x;
      e, op, x := NextInstruction();
      if e == Success { e := Execute(op, x, env, t); }
    }

    method Tick(env: Env, t: nat) returns (e: Error)
      requires !Turns(env)(View(), t).Undefined?
      modifies this
      ensures Agrees(Turns(env)(old(View()), t), e)
    {
      e := FireCallback(env, t, SINGLE_STEP);
      if e == Success { e := Step(env, t); }
    }

    /** One turn of the loop in call_raw. */
    method LoopOnce(env: Env, t: nat, ghost turn: Turn, ghost fuel: nat) returns (e: Error)
      requires Executes(turn, env) && CIP != 0 && Over(Loop(turn, View(), t, fuel))
      modifies this
      ensures fuel > 0
      ensures Loop(turn, old(View()), t, fuel) ==
              if e == Success then Loop(turn, View(), t + 1, fuel - 1) else Failed(e, View())
    {
      LoopTurn(turn, View(), t, fuel);
      assert turn(View(), t) == Turns(env)(View(), t);
      e := Tick(env, t);
    }

    /** The loop of call_raw, for a run that is over after some number of turns. */
    method RunLoop(env: Env, ghost turn: Turn, ghost n: nat) returns (e: Error)
      requires Executes(turn, env) && Over(Loop(turn, View(), 0, n))
      modifies this
      ensures Loop(turn, old(View()), 0, n) ==
              if e == Success then Returned(View()) else Failed(e, View())
    {
      var t := 0;
      ghost var end := Loop(turn, View(), 0, n);
      while CIP != 0
        invariant t <= n && end == Loop(turn, View(), t, n - t)
        decreases n - t
      {
        e := LoopOnce(env, t, turn, n - t);
        if e != Success { return; }
        t := t + 1;
      }
      return Success;
    }

    method CallRaw(cip: Cell, env: Env, ghost n: nat) returns (e: Error, pri: Cell)
      requires Over(Machine.CallRaw(View(), cip, env, n))
      modifies this
      ensures pri == PRI
      ensures Machine.CallRaw(old(View()), cip, env, n) ==
              if e == Success then Returned(View()) else Failed(e, View())
    {
      e := Push(0);
      CIP := cip;
      if e == Success { e := RunLoop(env, Turns(env), n); }
      pri := PRI;
    }

    method PushArgs(args: seq<Cell>) returns (e: Error)
      modifies this`STK, this`mem
      ensures Agrees(Machine.PushArgs(old(View()), args), e)
    {
      var i := |args|;
      ghost var r := Machine.PushArgs(View(), args);
      assert args[..i] == args;
      while i > 0
        invariant 0 <= i <= |args| && r == Machine.PushArgs(View(), args[..i])
      {
        assert args[..i][..i - 1] == args[..i - 1];
        e := Push(args[i - 1]);
        if e != Success { return; }
        i := i - 1;
      }
      return Success;
    }

    /** A host call: the arguments from last to first, their size, and the run. */
    method Call(cip: Cell, args: seq<Cell>, env: Env, ghost n: nat) returns (e: Error, pri: Cell)
      requires Over(CallFunction(View(), cip, args, env, n))
      modifies this
      ensures CallFunction(old(View()), cip, args, env, n) ==
              if e == Success then Returned(View()) else Failed(e, View())
      ensures e == Success ==> pri == PRI
    {
      pri := 0;
      e := PushArgs(args);
      if e != Success { return; }
      e := Push(Wrap(8 * |args|));
      if e != Success { return; }
      e, pri := CallRaw(cip, env, n);
    }
  }
}

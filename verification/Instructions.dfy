/** What each instruction does, by the number of its code cell: the executed step
    from a machine whose code holds that number, for every state and operand, with
    the result described by registers and cells. Arithmetic is in module Arithmetic. */
module Instructions {
  import opened Cells
  import opened Memories
  import opened Machine
  import opened RunInvariant
  import opened BlockOps

  /** The numbers of the instructions that a code cell with their operand follows. */
  predicate WithOperand(c: Cell) {
    1 <= c <= 6 || 8 <= c <= 15 || 17 <= c <= 20 || 27 <= c <= 29 || 33 <= c <= 36 || 40 <= c <= 41 || 64 <= c <= 70
  }

  /** The code at CIP is instruction c, with operand x if it has one. */
  ghost predicate Starts(s: Vm, c: Cell, x: Cell) {
    && CodeAt(s, s.cip) == Some(c)
    && (WithOperand(c) ==> CodeAt(s, Plus(s.cip, 8)) == Some(x))
  }

  /** The machine with CIP past instruction c. */
  function Past(s: Vm, c: Cell): Vm {
    s.(cip := Plus(s.cip, if WithOperand(c) then 16 else 8))
  }

  /** The data cell at address v. */
  function Reads(s: Vm, v: Cell): Option<Cell> {
    var p := s.DataPtr(v);
    if p.Some? then Some(s.mem.host[p.value]) else None
  }

  /** A result that is s with the cell at address v set to y, or a memory fault that leaves s. */
  ghost predicate Writes(s: Vm, v: Cell, y: Cell, r: Result<Vm>) {
    match s.DataPtr(v)
    case None => r == Stop(AccessViolation, s)
    case Some(p) => r == Ok(s.(mem := s.mem.(host := s.mem.host[p := y])))
  }

  // ----- fetching -----

  /** A step that cannot fetch its instruction stops past the place where it looked. */
  lemma FetchFault(s: Vm, env: Env, t: nat)
    requires CodeAt(s, s.cip).None?
    ensures Step(s, env, t) == Stop(AccessViolationCode, s.(cip := Plus(s.cip, 8)))
  {
  }

  /** So does one that finds a number that is no instruction: 74, the tag of case tables, or more. */
  lemma NoInstruction(s: Vm, env: Env, t: nat, c: Cell)
    requires CodeAt(s, s.cip) == Some(c) && c >= 74
    ensures Step(s, env, t) == Stop(InvalidInstruction, s.(cip := Plus(s.cip, 8)))
  {
    assert Fetch(s) == Ok((s.(cip := Plus(s.cip, 8)), c));
    assert Decode(c) == None;
  }

  /** A step that cannot fetch its operand stops past both cells. */
  lemma OperandFault(s: Vm, env: Env, t: nat, c: Cell)
    requires CodeAt(s, s.cip) == Some(c) && WithOperand(c) && CodeAt(s, Plus(s.cip, 8)).None?
    ensures Step(s, env, t) == Stop(AccessViolationCode, Past(s, c))
  {
    PlusEight(s.cip);
    Operands(c);
    assert s.(cip := Plus(s.cip, 8)).CodePtr(Plus(s.cip, 8)) == s.CodePtr(Plus(s.cip, 8));
  }

  lemma PlusEight(c: Cell)
    ensures Plus(Plus(c, 8), 8) == Plus(c, 16)
  {
  }

  /** Every number below 74 is an instruction, with an operand exactly as listed. */
  lemma Operands(c: Cell)
    requires c < 74
    ensures Decode(c).Some? && (HasOperand(Decode(c).value) <==> WithOperand(c))
  {
  }

  /** The step from instruction c executes op on what follows it. */
  lemma Executed(s: Vm, env: Env, t: nat, c: Cell, x: Cell, op: Opcode)
    requires Starts(s, c, x) && Decode(c) == Some(op)
    ensures Step(s, env, t) == Execute(op, if WithOperand(c) then x else 0, Past(s, c), env, t)
  {
    PlusEight(s.cip);
    Operands(c);
    assert s.(cip := Plus(s.cip, 8)).CodePtr(Plus(s.cip, 8)) == s.CodePtr(Plus(s.cip, 8));
  }

  // ----- loads and stores -----

  /** The address that a load reads: direct, in the frame, through a reference in the
      frame, through PRI, or at an offset from the top of the stack. */
  function LoadAddress(s: Vm, c: Cell, x: Cell): Option<Cell> {
    if c == 1 || c == 2 then Some(x)
    else if c == 3 || c == 4 then Some(Plus(s.frm, x))
    else if c == 5 || c == 6 then Reads(s, Plus(s.frm, x))
    else if c == 7 then Some(s.pri)
    else Some(Plus(s.stk, x))
  }

  /** LOAD.pri and LOAD.alt, LOAD.S.pri and .alt, LREF.S.pri and .alt, LOAD.I, PICK. */
  lemma LoadStep(s: Vm, env: Env, t: nat, c: Cell, x: Cell)
    requires Starts(s, c, x) && (1 <= c <= 7 || c == 27)
    ensures var a := LoadAddress(s, c, x);
            var y := if a.Some? then Reads(s, a.value) else None;
            match y
            case None => Step(s, env, t) == Stop(AccessViolation, Past(s, c))
            case Some(y) =>
              Step(s, env, t) == Ok(if c == 2 || c == 4 || c == 6 then Past(s, c).(alt := y) else Past(s, c).(pri := y))
  {
    match c
    case 1 => Executed(s, env, t, 1, x, Load(LoadPri));
    case 2 => Executed(s, env, t, 2, x, Load(LoadAlt));
    case 3 => Executed(s, env, t, 3, x, Load(LoadSPri));
    case 4 => Executed(s, env, t, 4, x, Load(LoadSAlt));
    case 5 => Executed(s, env, t, 5, x, Load(LrefSPri));
    case 6 => Executed(s, env, t, 6, x, Load(LrefSAlt));
    case 7 => Executed(s, env, t, 7, x, Load(LoadI));
    case _ => Executed(s, env, t, 27, x, Load(Pick));
  }

  /** STOR, STOR.S, SREF.S and STOR.I put PRI into the cell at the operand, in the frame,
      through a reference in the frame, or through ALT. */
  lemma StoreStep(s: Vm, env: Env, t: nat, c: Cell, x: Cell)
    requires Starts(s, c, x) && 13 <= c <= 16
    ensures var a := if c == 13 then Some(x) else if c == 14 then Some(Plus(s.frm, x))
                     else if c == 15 then Reads(s, Plus(s.frm, x)) else Some(s.alt);
            match a
            case None => Step(s, env, t) == Stop(AccessViolation, Past(s, c))
            case Some(v) => Writes(Past(s, c), v, s.pri, Step(s, env, t))
  {
    match c
    case 13 => Executed(s, env, t, 13, x, Store(Stor));
    case 14 => Executed(s, env, t, 14, x, Store(StorS));
    case 15 => Executed(s, env, t, 15, x, Store(SrefS));
    case _ => Executed(s, env, t, 16, x, Store(StorI));
  }

  /** INC.I and DEC.I move the cell that PRI points to one up or one down. */
  lemma CountStep(s: Vm, env: Env, t: nat, c: Cell, x: Cell)
    requires Starts(s, c, x) && (c == 60 || c == 63)
    ensures match Reads(s, s.pri)
            case None => Step(s, env, t) == Stop(AccessViolation, Past(s, c))
            case Some(y) => Writes(Past(s, c), s.pri, if c == 60 then CellAfter(y) else CellBefore(y), Step(s, env, t))
  {
    if Reads(s, s.pri).Some? {
      NextCells(Reads(s, s.pri).value);
    }
    match c
    case 60 => Executed(s, env, t, 60, x, Store(IncI));
    case _ => Executed(s, env, t, 63, x, Store(DecI));
  }

  function CellAfter(y: Cell): Cell {
    if y == 0xFFFF_FFFF_FFFF_FFFF then 0 else y + 1
  }

  function CellBefore(y: Cell): Cell {
    if y == 0 then 0xFFFF_FFFF_FFFF_FFFF else y - 1
  }

  lemma NextCells(y: Cell)
    ensures Plus(y, 1) == CellAfter(y) && Minus(y, 1) == CellBefore(y)
  {
  }

  /** SWAP.pri and SWAP.alt exchange the register with the top of the stack. */
  lemma SwapStep(s: Vm, env: Env, t: nat, c: Cell, x: Cell)
    requires Starts(s, c, x) && (c == 71 || c == 72)
    ensures match Reads(s, s.stk)
            case None => Step(s, env, t) == Stop(AccessViolation, Past(s, c))
            case Some(y) =>
              Writes(if c == 71 then Past(s, c).(pri := y) else Past(s, c).(alt := y), s.stk,
                     if c == 71 then s.pri else s.alt, Step(s, env, t))
  {
    match c
    case 71 => Executed(s, env, t, 71, x, Store(SwapPri));
    case _ => Executed(s, env, t, 72, x, Store(SwapAlt));
  }

  /** LODB.I and STRB.I are the byte accesses of module ByteMemory. */
  lemma ByteStep(s: Vm, env: Env, t: nat, c: Cell, x: Cell)
    requires Starts(s, c, x) && (c == 8 || c == 17)
    ensures Step(s, env, t) == if c == 8 then ExecLoad(LodbI, x, Past(s, c)) else ExecStore(StrbI, x, Past(s, c))
  {
    match c
    case 8 => Executed(s, env, t, 8, x, Load(LodbI));
    case _ => Executed(s, env, t, 17, x, Store(StrbI));
  }

  /** How they fail: a width of 1, 2 or 4 is refused when it leaves the cell and faults when the
      cell is not there; other widths always fail. */
  lemma ByteFault(s: Vm, env: Env, t: nat, c: Cell, x: Cell)
    requires Starts(s, c, x) && (c == 8 || c == 17)
    ensures var a := if c == 8 then s.pri else s.alt;
            Ends(Past(s, c), a, x, Reads(s, a - a % 8), Step(s, env, t))
  {
    match c
    case 8 =>
      Executed(s, env, t, 8, x, Load(LodbI));
      LoadFault(Past(s, 8), x);
    case _ =>
      Executed(s, env, t, 17, x, Store(StrbI));
      StoreFault(Past(s, 17), x);
  }

  /** How an access of width x at address a ends, for the cell there and the machine left behind. */
  ghost predicate Ends(s: Vm, a: Cell, x: Cell, cell: Option<Cell>, r: Result<Vm>) {
    if x == 1 || x == 2 || x == 4 then
      if a % 8 + x > 8 then r == Stop(InvalidOperand, s)
      else if cell.None? then r == Stop(AccessViolation, s) else r.Ok?
    else r == Stop(InvalidOperand, s) || (cell.None? && r == Stop(AccessViolation, s))
  }

  lemma LoadFault(s: Vm, x: Cell)
    ensures Ends(s, s.pri, x, Reads(s, s.pri - s.pri % 8), ExecLoad(LodbI, x, s))
  {
    if ByteWidth(x) {
      SpansIs(s.pri, x);
    }
  }

  lemma StoreFault(s: Vm, x: Cell)
    ensures Ends(s, s.alt, x, Reads(s, s.alt - s.alt % 8), ExecStore(StrbI, x, s))
  {
    if ByteWidth(x) {
      SpansIs(s.alt, x);
    }
  }

  // ----- registers -----

  /** The registers by the numbers that LCTRL and SCTRL give them. */
  function Register(s: Vm, x: Cell): Option<Cell> {
    match x
    case 0 => Some(s.cod)
    case 1 => Some(s.dat)
    case 2 => Some(s.hea)
    case 3 => Some(s.stp)
    case 4 => Some(s.stk)
    case 5 => Some(s.frm)
    case 6 => Some(s.cip)
    case _ => None
  }

  /** LCTRL copies a register to PRI; CIP is already past the instruction. */
  lemma LctrlStep(s: Vm, env: Env, t: nat, x: Cell)
    requires Starts(s, 19, x)
    ensures match Register(Past(s, 19), x)
            case None => Step(s, env, t) == Stop(InvalidOperand, Past(s, 19))
            case Some(y) => Step(s, env, t) == Ok(Past(s, 19).(pri := y))
  {
    Executed(s, env, t, 19, x, Control(Lctrl));
  }

  /** SCTRL sets HEA, STK, FRM or CIP to PRI and no other register; it refuses the rest. */
  lemma SctrlStep(s: Vm, env: Env, t: nat, x: Cell)
    requires Starts(s, 20, x)
    ensures match Step(s, env, t)
            case Ok(s1) =>
              && (x == 2 || 4 <= x <= 6) && Register(s1, x) == Some(s.pri)
              && s1.pri == s.pri && s1.alt == s.alt && s1.mem == s.mem
              && forall y: Cell :: y != x ==> Register(s1, y) == Register(Past(s, 20), y)
            case Stop(e, s1) => !(x == 2 || 4 <= x <= 6) && e == InvalidOperand && s1 == Past(s, 20)
            case Undefined => false
  {
    Executed(s, env, t, 20, x, Control(Sctrl));
  }

  /** NOP does nothing. */
  lemma NopStep(s: Vm, env: Env, t: nat, x: Cell)
    requires Starts(s, 0, x)
    ensures Step(s, env, t) == Ok(Past(s, 0))
  {
    Executed(s, env, t, 0, x, Control(Nop));
  }

  /** ADDR.pri and ADDR.alt give the address of a place in the frame. */
  lemma AddrStep(s: Vm, env: Env, t: nat, c: Cell, x: Cell)
    requires Starts(s, c, x) && (c == 11 || c == 12)
    ensures Step(s, env, t) ==
            Ok(if c == 11 then Past(s, c).(pri := Plus(s.frm, x)) else Past(s, c).(alt := Plus(s.frm, x)))
  {
    match c
    case 11 => Executed(s, env, t, 11, x, Control(AddrPri));
    case _ => Executed(s, env, t, 12, x, Control(AddrAlt));
  }

  /** STACK moves STK by the operand and leaves its new value in ALT; HEAP moves HEA and
      leaves its old value there. */
  lemma ReserveStep(s: Vm, env: Env, t: nat, c: Cell, x: Cell)
    requires Starts(s, c, x) && (c == 28 || c == 29)
    ensures Step(s, env, t) ==
            Ok(if c == 28 then Past(s, c).(stk := Plus(s.stk, x), alt := Plus(s.stk, x))
               else Past(s, c).(hea := Plus(s.hea, x), alt := s.hea))
  {
    match c
    case 28 => Executed(s, env, t, 28, x, Control(Stack));
    case _ => Executed(s, env, t, 29, x, Control(Heap));
  }

  // ----- the stack -----

  /** The machine with the stack pointer one cell down. */
  function Down(s: Vm): Vm {
    s.(stk := Minus(s.stk, 8))
  }

  /** PUSH.pri, PUSH.alt and PUSHR.pri, which adds DAT: the pointer moves even when the write faults. */
  lemma PushStep(s: Vm, env: Env, t: nat, c: Cell, x: Cell)
    requires Starts(s, c, x) && 22 <= c <= 24
    ensures Writes(Down(Past(s, c)), Down(s).stk,
                   if c == 22 then s.pri else if c == 23 then s.alt else Plus(s.pri, s.dat), Step(s, env, t))
  {
    match c
    case 22 => Executed(s, env, t, 22, x, OnStack(PushPri));
    case 23 => Executed(s, env, t, 23, x, OnStack(PushAlt));
    case _ => Executed(s, env, t, 24, x, OnStack(PushrPri));
  }

  /** POP.pri and POP.alt. */
  lemma PopStep(s: Vm, env: Env, t: nat, c: Cell, x: Cell)
    requires Starts(s, c, x) && 25 <= c <= 26
    ensures match Reads(s, s.stk)
            case None => Step(s, env, t) == Stop(AccessViolation, Past(s, c))
            case Some(y) =>
              Step(s, env, t) == Ok(if c == 25 then Past(s, c).(stk := Plus(s.stk, 8), pri := y)
                                    else Past(s, c).(stk := Plus(s.stk, 8), alt := y))
  {
    match c
    case 25 => Executed(s, env, t, 25, x, OnStack(PopPri));
    case _ => Executed(s, env, t, 26, x, OnStack(PopAlt));
  }

  // ----- control flow -----

  /** PROC pushes FRM and makes the new top of the stack the frame. */
  lemma ProcStep(s: Vm, env: Env, t: nat, x: Cell)
    requires Starts(s, 30, x)
    ensures match s.DataPtr(Minus(s.stk, 8))
            case None => Step(s, env, t) == Stop(AccessViolation, Down(Past(s, 30)))
            case Some(_) => Writes(Down(Past(s, 30)).(frm := Down(s).stk), Down(s).stk, s.frm, Step(s, env, t))
  {
    Executed(s, env, t, 30, x, Flow(Proc));
  }

  /** CALL pushes the address after itself and jumps to its own address plus the operand. */
  lemma CallStep(s: Vm, env: Env, t: nat, x: Cell)
    requires Starts(s, 33, x)
    ensures match s.DataPtr(Minus(s.stk, 8))
            case None => Step(s, env, t) == Stop(AccessViolation, Down(Past(s, 33)))
            case Some(_) =>
              Writes(Down(s).(cip := Plus(s.cip, x)), Down(s).stk, Plus(s.cip, 16), Step(s, env, t))
  {
    Executed(s, env, t, 33, x, Flow(Call));
    Target(s, 33, x);
  }

  lemma ThereAndBack(c: Cell)
    ensures Minus(Plus(c, 16), 16) == c
  {
    assert Plus(c, 16) == if c < 0xFFFF_FFFF_FFFF_FFF0 then c + 16 else c + 16 - 0x1_0000_0000_0000_0000;
  }

  lemma BackAndOn(c: Cell, x: Cell)
    ensures Plus(Minus(Plus(c, 16), 16), x) == Plus(c, x)
  {
    ThereAndBack(c);
  }

  /** Jumps count from the instruction itself. */
  lemma Target(s: Vm, c: Cell, x: Cell)
    requires 33 <= c <= 36 || c == 70
    ensures JumpTarget(Past(s, c), x) == Plus(s.cip, x)
    ensures Past(s, c).(cip := Plus(s.cip, x)) == s.(cip := Plus(s.cip, x))
  {
    BackAndOn(s.cip, x);
  }

  /** JUMP always, JZER when PRI is zero and JNZ when it is not go to their own address plus
      the operand; else the next instruction follows. */
  lemma JumpStep(s: Vm, env: Env, t: nat, c: Cell, x: Cell)
    requires Starts(s, c, x) && 34 <= c <= 36
    ensures var taken := c == 34 || (c == 35 && s.pri == 0) || (c == 36 && s.pri != 0);
            Step(s, env, t) == Ok(if taken then s.(cip := Plus(s.cip, x)) else Past(s, c))
  {
    Target(s, c, x);
    match c
    case 34 => Executed(s, env, t, 34, x, Flow(Jump));
    case 35 => Executed(s, env, t, 35, x, Flow(Jzer));
    case _ => Executed(s, env, t, 36, x, Flow(Jnz));
  }

  /** FRM and then CIP popped; what was popped before a fault stays popped. */
  ghost predicate FramePopped(s: Vm, s1: Vm, r: Result<Vm>) {
    match Reads(s, s.stk)
    case None => r == Stop(AccessViolation, s1)
    case Some(frm) =>
      match Reads(s, Plus(s.stk, 8))
      case None => r == Stop(AccessViolation, s1.(stk := Plus(s.stk, 8), frm := frm))
      case Some(cip) => r == Ok(s1.(stk := Plus(s.stk, 16), frm := frm, cip := cip))
  }

  lemma PopFrameIs(s: Vm, c: Cell)
    ensures FramePopped(s, Past(s, c), PopFrame(Past(s, c)))
  {
    PlusEight(s.stk);
  }

  /** RET pops FRM and CIP. */
  lemma RetStep(s: Vm, env: Env, t: nat, x: Cell)
    requires Starts(s, 31, x)
    ensures FramePopped(s, Past(s, 31), Step(s, env, t))
  {
    Executed(s, env, t, 31, x, Flow(Ret));
    PopFrameIs(s, 31);
  }

  /** RETN pops FRM and CIP, and then a size and as many bytes. */
  lemma RetnStep(s: Vm, env: Env, t: nat, x: Cell) returns (r: Result<Vm>)
    requires Starts(s, 32, x)
    ensures FramePopped(s, Past(s, 32), r)
    ensures if !r.Ok? then Step(s, env, t) == r
            else
              match Reads(s, Plus(s.stk, 16))
              case None => Step(s, env, t) == Stop(AccessViolation, r.value)
              case Some(size) => Step(s, env, t) == Ok(r.value.(stk := Wrap(s.stk + 24 + size)))
  {
    Executed(s, env, t, 32, x, Flow(Retn));
    PopFrameIs(s, 32);
    r := PopFrame(Past(s, 32));
    if r.Ok? && Reads(s, Plus(s.stk, 16)).Some? {
      Popped(s.stk, Reads(s, Plus(s.stk, 16)).value);
    }
  }

  lemma Popped(v: Cell, size: Cell)
    ensures Plus(Plus(v, 16), Plus(size, 8)) == Wrap(v + 24 + size)
  {
    WrapSum(v + 16, Plus(size, 8));
    WrapSum(size + 8, v + 16);
  }

  /** HALT stops with its operand in PRI; BOUNDS stops when PRI is above its operand. */
  lemma HaltStep(s: Vm, env: Env, t: nat, c: Cell, x: Cell)
    requires Starts(s, c, x) && 67 <= c <= 68
    ensures Step(s, env, t) ==
            if c == 67 then Stop(Halted, Past(s, c).(pri := x))
            else if s.pri > x then Stop(OutOfBounds, Past(s, c)) else Ok(Past(s, c))
  {
    match c
    case 67 => Executed(s, env, t, 67, x, Flow(Halt));
    case _ => Executed(s, env, t, 68, x, Flow(Bounds));
  }

  /** SWITCH over a case table that lies at its own address plus the operand. */
  lemma SwitchStep(s: Vm, env: Env, t: nat, x: Cell, cases: seq<Case>, other: Cell)
    requires Starts(s, 70, x) && TableAt(s, Plus(s.cip, x), cases, other)
    ensures var table := Plus(s.cip, x);
            Step(s, env, t) ==
              Ok(s.(cip := CaseTarget(Plus(table, 24), cases, s.pri, Plus(Plus(table, 8), other))))
  {
    Executed(s, env, t, 70, x, Flow(Switch));
    BackAndOn(s.cip, x);
    RecordsStay(s, Past(s, 70), Plus(Plus(s.cip, x), 24), cases);
    assert TableAt(Past(s, 70), Plus(s.cip, x), cases, other);
    SwitchJumps(Past(s, 70), x, cases, other);
  }

  /** SWITCH refuses a table without the tag 74, and faults on one that is cut off in its head. */
  lemma SwitchFaults(s: Vm, env: Env, t: nat, x: Cell)
    requires Starts(s, 70, x)
    ensures var tag := CodeAt(s, Plus(s.cip, x));
            && (tag.Some? && tag.value != 74 ==> Step(s, env, t) == Stop(InvalidOperand, Past(s, 70)))
            && (tag.None? || (tag.value == 74 && (CodeAt(s, Plus(Plus(s.cip, x), 8)).None?
                                               || CodeAt(s, Plus(Plus(s.cip, x), 16)).None?)) ==>
                  Step(s, env, t) == Stop(AccessViolation, Past(s, 70)))
  {
    Executed(s, env, t, 70, x, Flow(Switch));
    BackAndOn(s.cip, x);
  }

  // ----- blocks and the host -----

  /** MOVS, CMPS and FILL are the block operations of module BlockOps. */
  lemma BlockStep(s: Vm, env: Env, t: nat, c: Cell, x: Cell)
    requires Starts(s, c, x) && 64 <= c <= 66
    ensures Step(s, env, t) == ExecBlock(if c == 64 then Movs else if c == 65 then Cmps else Fill, x, Past(s, c))
  {
    match c
    case 64 => Executed(s, env, t, 64, x, Block(Movs));
    case 65 => Executed(s, env, t, 65, x, Block(Cmps));
    case _ => Executed(s, env, t, 66, x, Block(Fill));
  }

  /** SYSREQ and BREAK run the host's callback, with the operand or with the number of the
      break callback; ALT, FRM, CIP, STP and STK are put back and its error ends the run. */
  lemma HostStep(s: Vm, env: Env, t: nat, c: Cell, x: Cell)
    requires Starts(s, c, x) && (c == 69 || c == 73)
    ensures var (e, h) := env(t, if c == 69 then x else 0xFFFF_FFFF_FFFF_FFFE, Past(s, c));
            var s1 := Past(s, c).(pri := h.pri, hea := h.hea, cod := h.cod, dat := h.dat, mem := h.mem);
            Step(s, env, t) == if e == Success then Ok(s1) else Stop(e, s1)
  {
    match c
    case 69 => Executed(s, env, t, 69, x, Host(Sysreq));
    case _ => Executed(s, env, t, 73, x, Host(Break));
  }

  /** A turn of the loop: the single-step callback, and the instruction unless it failed. */
  lemma TurnStep(s: Vm, env: Env, t: nat)
    ensures var (e, h) := env(t, 0xFFFF_FFFF_FFFF_FFFF, s);
            var s1 := s.(pri := h.pri, hea := h.hea, cod := h.cod, dat := h.dat, mem := h.mem);
            Tick(s, env, t) == if e == Success then Step(s1, env, t) else Stop(e, s1)
  {
  }
  /** The machines of consecutive turns from turn t on, none of them at address zero before the last. */
  ghost predicate Consecutive(turn: Turn, machines: seq<Vm>, t: nat) {
    && machines != []
    && forall i :: 0 <= i < |machines| - 1 ==> Goes(turn, machines, t, i)
  }

  ghost predicate Goes(turn: Turn, machines: seq<Vm>, t: nat, i: nat)
    requires i + 1 < |machines|
  {
    machines[i].cip != 0 && turn(machines[i], t + i) == Ok(machines[i + 1])
  }

  /** The loop goes from machine to machine. It returns the first one at address zero, fails
      with the error and the machine of a turn that stops, and has no meaning when a turn has none. */
  lemma {:induction false} RunEnds(turn: Turn, machines: seq<Vm>, t: nat, fuel: nat)
    requires Consecutive(turn, machines, t) && fuel >= |machines| - 1
    ensures var n := |machines| - 1;
            var last, end := machines[n], Loop(turn, machines[0], t, fuel);
            if last.cip == 0 then end == Returned(last)
            else if fuel == n then end == Running(last)
            else
              match turn(last, t + n)
              case Ok(_) => true
              case Stop(e, s1) => end == Failed(e, s1)
              case Undefined => end == NoMeaning
    decreases |machines|
  {
    if |machines| > 1 {
      assert Goes(turn, machines, t, 0);
      RestConsecutive(turn, machines, t);
      RunEnds(turn, machines[1..], t + 1, fuel - 1);
    }
  }

  lemma RestConsecutive(turn: Turn, machines: seq<Vm>, t: nat)
    requires Consecutive(turn, machines, t) && |machines| > 1
    ensures Consecutive(turn, machines[1..], t + 1)
  {
    var rest, next := machines[1..], t + 1;
    forall i | 0 <= i < |rest| - 1
      ensures Goes(turn, rest, next, i)
    {
      assert Goes(turn, machines, t, i + 1);
    }
  }
}

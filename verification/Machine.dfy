/** The instruction set of the Pawn abstract machine as a function on machine
    states: fetch, decode, execute, host callbacks, and the loop of call_raw. */
module Machine {
  import opened Bitwise
  import opened LittleEndian
  import opened Cells
  import opened Memories
  import opened Alu

  datatype Error =
    | Success | AccessViolation | AccessViolationCode | InvalidInstruction | InvalidOperand
    | DivisionWithZero | Halted | OutOfBounds | CallbackAbort

  // Instructions by what they touch; the numbering is Decode's.
  datatype LoadOp = LoadPri | LoadAlt | LoadSPri | LoadSAlt | LrefSPri | LrefSAlt | LoadI | LodbI | Pick
  datatype StoreOp = Stor | StorS | SrefS | StorI | StrbI | IncI | DecI | SwapPri | SwapAlt
  datatype ControlOp = Nop | AddrPri | AddrAlt | Lctrl | Sctrl | Stack | Heap
  datatype StackOp = PushPri | PushAlt | PushrPri | PopPri | PopAlt
  datatype FlowOp = Proc | Ret | Retn | Call | Jump | Jzer | Jnz | Switch | Bounds | Halt
  datatype BlockOp = Movs | Cmps | Fill
  datatype HostOp = Sysreq | Break
  datatype Opcode =
    | Load(load: LoadOp) | Store(store: StoreOp) | Control(control: ControlOp) | OnStack(stack: StackOp)
    | Flow(flow: FlowOp) | Arith(arith: AluOp) | Block(block: BlockOp) | Host(host: HostOp)

  const CASE_TABLE: Cell := 74

  function Decode(c: Cell): Option<Opcode> {
    match c
    case 0 => Some(Control(Nop))
    case 1 => Some(Load(LoadPri))
    case 2 => Some(Load(LoadAlt))
    case 3 => Some(Load(LoadSPri))
    case 4 => Some(Load(LoadSAlt))
    case 5 => Some(Load(LrefSPri))
    case 6 => Some(Load(LrefSAlt))
    case 7 => Some(Load(LoadI))
    case 8 => Some(Load(LodbI))
    case 9 => Some(Arith(ConstPri))
    case 10 => Some(Arith(ConstAlt))
    case 11 => Some(Control(AddrPri))
    case 12 => Some(Control(AddrAlt))
    case 13 => Some(Store(Stor))
    case 14 => Some(Store(StorS))
    case 15 => Some(Store(SrefS))
    case 16 => Some(Store(StorI))
    case 17 => Some(Store(StrbI))
    case 18 => Some(Arith(AlignPri))
    case 19 => Some(Control(Lctrl))
    case 20 => Some(Control(Sctrl))
    case 21 => Some(Arith(Xchg))
    case 22 => Some(OnStack(PushPri))
    case 23 => Some(OnStack(PushAlt))
    case 24 => Some(OnStack(PushrPri))
    case 25 => Some(OnStack(PopPri))
    case 26 => Some(OnStack(PopAlt))
    case 27 => Some(Load(Pick))
    case 28 => Some(Control(Stack))
    case 29 => Some(Control(Heap))
    case 30 => Some(Flow(Proc))
    case 31 => Some(Flow(Ret))
    case 32 => Some(Flow(Retn))
    case 33 => Some(Flow(Call))
    case 34 => Some(Flow(Jump))
    case 35 => Some(Flow(Jzer))
    case 36 => Some(Flow(Jnz))
    case 37 => Some(Arith(Shl))
    case 38 => Some(Arith(Shr))
    case 39 => Some(Arith(Sshr))
    case 40 => Some(Arith(ShlCPri))
    case 41 => Some(Arith(ShlCAlt))
    case 42 => Some(Arith(Smul))
    case 43 => Some(Arith(Sdiv))
    case 44 => Some(Arith(AddOp))
    case 45 => Some(Arith(SubOp))
    case 46 => Some(Arith(AndOp))
    case 47 => Some(Arith(OrOp))
    case 48 => Some(Arith(XorOp))
    case 49 => Some(Arith(NotOp))
    case 50 => Some(Arith(NegOp))
    case 51 => Some(Arith(InvertOp))
    case 52 => Some(Arith(Eq))
    case 53 => Some(Arith(Neq))
    case 54 => Some(Arith(Sless))
    case 55 => Some(Arith(Sleq))
    case 56 => Some(Arith(Sgrtr))
    case 57 => Some(Arith(Sgeq))
    case 58 => Some(Arith(IncPri))
    case 59 => Some(Arith(IncAlt))
    case 60 => Some(Store(IncI))
    case 61 => Some(Arith(DecPri))
    case 62 => Some(Arith(DecAlt))
    case 63 => Some(Store(DecI))
    case 64 => Some(Block(Movs))
    case 65 => Some(Block(Cmps))
    case 66 => Some(Block(Fill))
    case 67 => Some(Flow(Halt))
    case 68 => Some(Flow(Bounds))
    case 69 => Some(Host(Sysreq))
    case 70 => Some(Flow(Switch))
    case 71 => Some(Store(SwapPri))
    case 72 => Some(Store(SwapAlt))
    case 73 => Some(Host(Break))
    case _ => None
  }

  predicate HasOperand(op: Opcode) {
    match op
    case Load(l) => !l.LoadI?
    case Store(st) => st.Stor? || st.StorS? || st.SrefS? || st.StrbI?
    case Control(c) => !c.Nop?
    case OnStack(_) => false
    case Flow(f) => !(f.Proc? || f.Ret? || f.Retn?)
    case Arith(a) => a.ConstPri? || a.ConstAlt? || a.AlignPri? || a.ShlCPri? || a.ShlCAlt?
    case Block(_) => true
    case Host(h) => h.Sysreq?
  }

  datatype Vm = Vm(pri: Cell, alt: Cell, frm: Cell, cip: Cell, dat: Cell, cod: Cell,
                   stp: Cell, stk: Cell, hea: Cell, mem: Memory)
  {
    function DataPtr(v: Cell): Option<nat> {
      mem.Data(Plus(dat, v))
    }

    function CodePtr(v: Cell): Option<nat> {
      mem.Code(Plus(cod, v))
    }
  }

  /** A step goes on, stops with an error in the state it left behind, or has no
      defined behaviour (or never ends because a byte counter wraps). */
  datatype Result<+T> = Ok(value: T) | Stop(err: Error, vm: Vm) | Undefined {
    predicate IsFailure() {
      !Ok?
    }

    function PropagateFailure<U>(): Result<U>
      requires !Ok?
    {
      if Stop? then Stop(err, vm) else Undefined
    }

    function Extract(): T
      requires Ok?
    {
      value
    }
  }

  /** The host's callback: any function of a running number, the callback index
      and the machine; it may change the whole machine. */
  type Env = (nat, Cell, Vm) -> (Error, Vm)

  const SINGLE_STEP: Cell := 0xFFFF_FFFF_FFFF_FFFF
  const BREAK_CALLBACK: Cell := 0xFFFF_FFFF_FFFF_FFFE

  function ReadData(s: Vm, v: Cell): Result<Cell> {
    var p := s.DataPtr(v);
    if p.Some? then Ok(s.mem.host[p.value]) else Stop(AccessViolation, s)
  }

  function WriteData(s: Vm, v: Cell, x: Cell): Result<Vm> {
    var p := s.DataPtr(v);
    if p.Some? then Ok(s.(mem := s.mem.Store(p.value, x))) else Stop(AccessViolation, s)
  }

  function ReadCode(s: Vm, v: Cell): Result<Cell> {
    var p := s.CodePtr(v);
    if p.Some? then Ok(s.mem.host[p.value]) else Stop(AccessViolation, s)
  }

  function Fetch(s: Vm): Result<(Vm, Cell)> {
    var s' := s.(cip := Plus(s.cip, 8));
    var p := s.CodePtr(s.cip);
    if p.Some? then Ok((s', s.mem.host[p.value])) else Stop(AccessViolationCode, s')
  }

  function Push(s: Vm, x: Cell): Result<Vm> {
    var s' := s.(stk := Minus(s.stk, 8));
    WriteData(s', s'.stk, x)
  }

  function Pop(s: Vm): Result<(Vm, Cell)> {
    var x :- ReadData(s, s.stk);
    Ok((s.(stk := Plus(s.stk, 8)), x))
  }

  function FireCallback(s: Vm, env: Env, t: nat, index: Cell): (Error, Vm) {
    var (e, s') := env(t, index, s);
    (e, s'.(alt := s.alt, frm := s.frm, cip := s.cip, stp := s.stp, stk := s.stk))
  }

  function Callback(s: Vm, env: Env, t: nat, index: Cell): Result<Vm> {
    var (e, s') := FireCallback(s, env, t, index);
    if e == Success then Ok(s') else Stop(e, s')
  }

  // ----- byte accesses inside a cell; ByteMasks has the mask-and-shift form -----

  predicate ByteWidth(x: Cell) {
    x == 1 || x == 2 || x == 4
  }

  function CellStart(a: Cell): Cell {
    a - a % 8
  }

  /** The access of x bytes at a leaves the cell that holds a. */
  predicate SpansCells(a: Cell, x: Cell) {
    CellStart(a) != CellStart(Minus(Plus(a, x), 1))
  }

  lemma SpansIs(a: Cell, x: Cell)
    requires ByteWidth(x)
    ensures SpansCells(a, x) <==> a % 8 + x > 8
  {
    var b := Minus(Plus(a, x), 1);
    if a + x - 1 < 0x1_0000_0000_0000_0000 {
      assert b == a + x - 1;
    } else {
      assert b < 8 && a >= 8 && a % 8 + x > 8;
    }
  }

  function BytesOf(c: Cell): (bs: seq<Byte>)
    ensures |bs| == 8
  {
    LeBytes(c, 8)
  }

  function CellOf(bs: seq<Byte>): Cell
    requires |bs| == 8
  {
    LeBound(bs);
    CellBytes();
    LeValue(bs)
  }

  lemma CellBytes()
    ensures Pow256(8) == 0x1_0000_0000_0000_0000
  {
    Pow256IsPow2(8);
    Pow2OfCell();
  }

  /** The bytes that a store of width w writes. */
  function StoredBytes(v: Cell, w: nat): (bs: seq<Byte>)
    ensures |bs| == w
  {
    LeBytes(v % Pow256(w), w)
  }

  function ExtractBytes(c: Cell, o: nat, w: nat): Cell
    requires o + w <= 8 && w <= 4
  {
    LeBound(BytesOf(c)[o..o + w]);
    ShortBytes(w);
    LeValue(BytesOf(c)[o..o + w])
  }

  lemma ShortBytes(w: nat)
    requires w <= 4
    ensures Pow256(w) <= 0x1_0000_0000
  {
    Pow256IsPow2(w);
    Pow256IsPow2(4 - w);
    Pow2Half();
    Pow2Add(8 * w, 8 * (4 - w));
    Enlarge(Pow2(8 * w), Pow2(8 * (4 - w)));
  }

  lemma Enlarge(x: nat, c: nat)
    requires c > 0
    ensures x * c >= x
  {
    assert x * c == x + x * (c - 1);
  }

  function MergeBytes(c: Cell, o: nat, w: nat, v: Cell): Cell
    requires o + w <= 8
  {
    CellOf(BytesOf(c)[..o] + StoredBytes(v, w) + BytesOf(c)[o + w..])
  }

  // ----- one function per group of instructions -----

  function ExecLoad(op: LoadOp, x: Cell, s: Vm): Result<Vm> {
    match op
    case LoadPri => var c :- ReadData(s, x); Ok(s.(pri := c))
    case LoadAlt => var c :- ReadData(s, x); Ok(s.(alt := c))
    case LoadSPri => var c :- ReadData(s, Plus(s.frm, x)); Ok(s.(pri := c))
    case LoadSAlt => var c :- ReadData(s, Plus(s.frm, x)); Ok(s.(alt := c))
    case LrefSPri => var a :- ReadData(s, Plus(s.frm, x)); var c :- ReadData(s, a); Ok(s.(pri := c))
    case LrefSAlt => var a :- ReadData(s, Plus(s.frm, x)); var c :- ReadData(s, a); Ok(s.(alt := c))
    case LoadI => var c :- ReadData(s, s.pri); Ok(s.(pri := c))
    case Pick => var c :- ReadData(s, Plus(s.stk, x)); Ok(s.(pri := c))
    case LodbI =>
      if SpansCells(s.pri, x) then Stop(InvalidOperand, s)
      else
        var c :- ReadData(s, CellStart(s.pri));
        if !ByteWidth(x) then Stop(InvalidOperand, s)
        else
          SpansIs(s.pri, x);
          Ok(s.(pri := ExtractBytes(c, s.pri % 8, x)))
  }

  function ExecStore(op: StoreOp, x: Cell, s: Vm): Result<Vm> {
    match op
    case Stor => WriteData(s, x, s.pri)
    case StorS => WriteData(s, Plus(s.frm, x), s.pri)
    case SrefS => var a :- ReadData(s, Plus(s.frm, x)); WriteData(s, a, s.pri)
    case StorI => WriteData(s, s.alt, s.pri)
    case IncI => var c :- ReadData(s, s.pri); WriteData(s, s.pri, Plus(c, 1))
    case DecI => var c :- ReadData(s, s.pri); WriteData(s, s.pri, Minus(c, 1))
    case SwapPri =>
      var c :- ReadData(s, s.stk);
      var s1 :- WriteData(s, s.stk, s.pri);
      Ok(s1.(pri := c))
    case SwapAlt =>
      var c :- ReadData(s, s.stk);
      var s1 :- WriteData(s, s.stk, s.alt);
      Ok(s1.(alt := c))
    case StrbI =>
      if SpansCells(s.alt, x) then Stop(InvalidOperand, s)
      else
        var c :- ReadData(s, CellStart(s.alt));
        if !ByteWidth(x) then Stop(InvalidOperand, s)
        else
          SpansIs(s.alt, x);
          WriteData(s, CellStart(s.alt), MergeBytes(c, s.alt % 8, x, s.pri))
  }

  function ExecControl(op: ControlOp, x: Cell, s: Vm): Result<Vm> {
    match op
    case Nop => Ok(s)
    case AddrPri => Ok(s.(pri := Plus(s.frm, x)))
    case AddrAlt => Ok(s.(alt := Plus(s.frm, x)))
    case Stack => Ok(s.(stk := Plus(s.stk, x), alt := Plus(s.stk, x)))
    case Heap => Ok(s.(alt := s.hea, hea := Plus(s.hea, x)))
    case Lctrl =>
      (match x
       case 0 => Ok(s.(pri := s.cod))
       case 1 => Ok(s.(pri := s.dat))
       case 2 => Ok(s.(pri := s.hea))
       case 3 => Ok(s.(pri := s.stp))
       case 4 => Ok(s.(pri := s.stk))
       case 5 => Ok(s.(pri := s.frm))
       case 6 => Ok(s.(pri := s.cip))
       case _ => Stop(InvalidOperand, s))
    case Sctrl =>
      (match x
       case 2 => Ok(s.(hea := s.pri))
       case 4 => Ok(s.(stk := s.pri))
       case 5 => Ok(s.(frm := s.pri))
       case 6 => Ok(s.(cip := s.pri))
       case _ => Stop(InvalidOperand, s))
  }

  function ExecStack(op: StackOp, s: Vm): Result<Vm> {
    match op
    case PushPri => Push(s, s.pri)
    case PushAlt => Push(s, s.alt)
    case PushrPri => Push(s, Plus(s.pri, s.dat))
    case PopPri => var (s1, c) :- Pop(s); Ok(s1.(pri := c))
    case PopAlt => var (s1, c) :- Pop(s); Ok(s1.(alt := c))
  }

  /** Jump offsets count from the start of the instruction, two cells back. */
  function JumpTarget(s: Vm, x: Cell): Cell {
    Plus(Minus(s.cip, 16), x)
  }

  function ExecFlow(op: FlowOp, x: Cell, s: Vm): Result<Vm> {
    match op
    case Proc => var s1 :- Push(s, s.frm); Ok(s1.(frm := s1.stk))
    case Ret => PopFrame(s)
    case Retn =>
      var s1 :- PopFrame(s);
      var size :- ReadData(s1, s1.stk);
      Ok(s1.(stk := Plus(s1.stk, Plus(size, 8))))
    case Call => var s1 :- Push(s, s.cip); Ok(s1.(cip := JumpTarget(s, x)))
    case Jump => Ok(s.(cip := JumpTarget(s, x)))
    case Jzer => Ok(if s.pri == 0 then s.(cip := JumpTarget(s, x)) else s)
    case Jnz => Ok(if s.pri != 0 then s.(cip := JumpTarget(s, x)) else s)
    case Bounds => if s.pri > x then Stop(OutOfBounds, s) else Ok(s)
    case Halt => Stop(Halted, s.(pri := x))
    case Switch =>
      var table := JumpTarget(s, x);
      var tag :- ReadCode(s, table);
      if tag != CASE_TABLE then Stop(InvalidOperand, s)
      else
        var count :- ReadCode(s, Plus(table, 8));
        var other :- ReadCode(s, Plus(table, 16));
        FindCase(s.(cip := Plus(Plus(table, 8), other)), Plus(table, 24), count)
  }

  function PopFrame(s: Vm): Result<Vm> {
    var (s1, frm) :- Pop(s);
    var s2 := s1.(frm := frm);
    var (s3, cip) :- Pop(s2);
    Ok(s3.(cip := cip))
  }

  /** The record search of OP_SWITCH; s already resumes at the default target. */
  function FindCase(s: Vm, record: Cell, count: nat): Result<Vm>
    decreases count
  {
    if count == 0 then Ok(s)
    else
      var test :- ReadCode(s, record);
      var target :- ReadCode(s, Plus(record, 8));
      if s.pri == test then Ok(s.(cip := Plus(record, target)))
      else FindCase(s, Plus(record, 16), count - 1)
  }

  predicate Wraps(i: Cell) {
    i + 8 >= 0x1_0000_0000_0000_0000
  }

  function MoveOne(s: Vm, i: Cell): Result<Vm> {
    var c :- ReadData(s, Plus(s.pri, i));
    WriteData(s, Plus(s.alt, i), c)
  }

  /** As written: PRI is both the running difference and the source address. */
  function CompareOne(s: Vm, i: Cell): Result<Vm> {
    var c :- ReadData(s, Plus(s.pri, i));
    var d :- ReadData(s, Plus(s.alt, i));
    Ok(s.(pri := Minus(d, c)))
  }

  function FillOne(s: Vm, i: Cell): Result<Vm> {
    WriteData(s, Plus(s.alt, i), s.pri)
  }

  /** One turn of a block loop, at byte i of the block. */
  type CellTurn = (Vm, Cell) -> Result<Vm>

  function Mover(): CellTurn {
    (s: Vm, i: Cell) => MoveOne(s, i)
  }

  function Comparer(): CellTurn {
    (s: Vm, i: Cell) => CompareOne(s, i)
  }

  function Filler(): CellTurn {
    (s: Vm, i: Cell) => FillOne(s, i)
  }

  /** The block loops: cell by cell to byte n, or only as long as PRI stays zero. */
  function EachCell(turn: CellTurn, whileZero: bool, s: Vm, n: Cell, i: Cell): Result<Vm>
    decreases n - i
  {
    if i >= n || (whileZero && s.pri != 0) then Ok(s)
    else
      var s1 :- turn(s, i);
      if Wraps(i) then Undefined else EachCell(turn, whileZero, s1, n, i + 8)
  }

  function ExecBlock(op: BlockOp, x: Cell, s: Vm): Result<Vm> {
    match op
    case Movs => EachCell(Mover(), false, s, x, 0)
    case Cmps => EachCell(Comparer(), true, s.(pri := 0), x, 0)
    case Fill => EachCell(Filler(), false, s, x, 0)
  }

  function ExecArith(op: AluOp, x: Cell, s: Vm): Result<Vm> {
    match Compute(op, x, s.pri, s.alt)
    case Regs(pri, alt) => Ok(s.(pri := pri, alt := alt))
    case ZeroDivide => Stop(DivisionWithZero, s)
    case Unspecified => Undefined
  }

  function Execute(op: Opcode, x: Cell, s: Vm, env: Env, t: nat): Result<Vm> {
    match op
    case Load(l) => ExecLoad(l, x, s)
    case Store(st) => ExecStore(st, x, s)
    case Control(c) => ExecControl(c, x, s)
    case OnStack(k) => ExecStack(k, s)
    case Flow(f) => ExecFlow(f, x, s)
    case Arith(a) => ExecArith(a, x, s)
    case Block(b) => ExecBlock(b, x, s)
    case Host(h) => Callback(s, env, t, if h.Sysreq? then x else BREAK_CALLBACK)
  }

  /** Fetch and decode: the opcode, its operand (0 when it has none) and the state after them. */
  function Instruction(s: Vm): Result<(Vm, Opcode, Cell)> {
    var (s1, c) :- Fetch(s);
    var op := Decode(c);
    if op.None? then Stop(InvalidInstruction, s1)
    else if HasOperand(op.value) then
      var (s2, x) :- Fetch(s1);
      Ok((s2, op.value, x))
    else Ok((s1, op.value, 0))
  }

  function Step(s: Vm, env: Env, t: nat): Result<Vm> {
    var (s1, op, x) :- Instruction(s);
    Execute(op, x, s1, env, t)
  }

  /** One turn of the loop in call_raw: the single-step callback, then an instruction. */
  function Tick(s: Vm, env: Env, t: nat): Result<Vm> {
    var s1 :- Callback(s, env, t, SINGLE_STEP);
    Step(s1, env, t)
  }

  /** Where a run of at most fuel turns ends: Running when the fuel was not enough. */
  datatype Ending = Returned(vm: Vm) | Failed(err: Error, vm: Vm) | NoMeaning | Running(vm: Vm)

  /** A turn of a loop: from a machine and a turn number. */
  type Turn = (Vm, nat) -> Result<Vm>

  function Turns(env: Env): Turn {
    (s: Vm, t: nat) => Tick(s, env, t)
  }

  /** The loop of call_raw: it returns when CIP is zero. */
  function Loop(turn: Turn, s: Vm, t: nat, fuel: nat): Ending
    decreases fuel
  {
    if s.cip == 0 then Returned(s)
    else if fuel == 0 then Running(s)
    else
      match turn(s, t)
      case Ok(s1) => Loop(turn, s1, t + 1, fuel - 1)
      case Stop(e, s1) => Failed(e, s1)
      case Undefined => NoMeaning
  }

  function Run(s: Vm, env: Env, t: nat, fuel: nat): Ending {
    Loop(Turns(env), s, t, fuel)
  }

  function CallRaw(s: Vm, cip: Cell, env: Env, fuel: nat): Ending {
    match Push(s, 0)
    case Ok(s1) => Run(s1.(cip := cip), env, 0, fuel)
    case Stop(e, s1) => Failed(e, s1.(cip := cip))
    case Undefined => NoMeaning
  }

  /** The arguments, last one first. */
  function PushArgs(s: Vm, args: seq<Cell>): Result<Vm>
    decreases |args|
  {
    if args == [] then Ok(s)
    else
      var s1 :- Push(s, args[|args| - 1]);
      PushArgs(s1, args[..|args| - 1])
  }

  function CallFunction(s: Vm, cip: Cell, args: seq<Cell>, env: Env, fuel: nat): Ending {
    var pushed := match PushArgs(s, args)
      case Ok(s1) => Push(s1, Wrap(8 * |args|))
      case other => other;
    match pushed
    case Ok(s1) => CallRaw(s1, cip, env, fuel)
    case Stop(e, s1) => Failed(e, s1)
    case Undefined => NoMeaning
  }
}

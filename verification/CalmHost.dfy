/** A host that does nothing meets what the theorems ask of hosts, and a function that
    calls another one meets what they ask of function bodies. */
module CalmHost {
  import opened Alu
  import opened Cells
  import opened Memories
  import opened Machine
  import opened RunInvariant
  import opened Simulation
  import opened Traces
  import opened CallDiscipline

  function Calm(): Env {
    (t: nat, i: Cell, s: Vm) => (Success, s)
  }

  /** It keeps the frame and treats related machines alike. */
  lemma CalmIsGood(l: Layout, m: Layout)
    ensures GoodHost(Calm()) && SameHost(l, m, Calm(), Calm())
  {
  }

  // ----- the program -----

  /** A function that calls the function behind it with no arguments:
      PROC; CONST.PRI 0; PUSH.PRI; CALL 24; RETN, then PROC; RETN. */
  const PROGRAM: seq<Cell> := [30, 9, 0, 22, 33, 24, 32, 30, 32]

  /** The program is at code address p, out of reach of data writes. */
  ghost predicate Ready(s: Vm, l: Layout, p: Cell) {
    && Segment(s, l) && Separate(s.mem) && p < 0x1_0000_0000
    && forall k: nat :: k < 9 ==> CodeAt(s, p + 8 * k) == Some(PROGRAM[k])
  }

  /** The callback does nothing, so a turn is the instruction at CIP. */
  lemma CalmTurn(s: Vm, t: nat, s1: Vm, op: Opcode, x: Cell)
    requires Instruction(s) == Ok((s1, op, x))
    ensures TurnLooks(Calm())(s, t) == Look(KindOf(op), s)
    ensures Turns(Calm())(s, t) == Execute(op, x, s1, Calm(), t)
  {
    assert Callback(s, Calm(), t, SINGLE_STEP) == Ok(s);
  }

  lemma FetchAt(s: Vm, l: Layout, p: Cell, k: nat)
    requires Ready(s, l, p) && k < 9 && s.cip == p + 8 * k
    ensures Fetch(s) == Ok((s.(cip := s.cip + 8), PROGRAM[k]))
  {
    assert CodeAt(s, p + 8 * k) == Some(PROGRAM[k]);
  }

  /** The program stays where it is when only registers other than COD and DAT change. */
  lemma SameProgram(s: Vm, l: Layout, p: Cell, s1: Vm)
    requires Ready(s, l, p) && s1.mem == s.mem && s1.cod == s.cod && s1.dat == s.dat
    ensures Ready(s1, l, p)
  {
    assert forall k: nat :: k < 9 ==> CodeAt(s1, p + 8 * k) == CodeAt(s, p + 8 * k);
  }

  /** Instruction k with the operand behind it. */
  lemma WithOperand(s: Vm, l: Layout, p: Cell, k: nat, op: Opcode)
    requires Ready(s, l, p) && k < 8 && s.cip == p + 8 * k && Decode(PROGRAM[k]) == Some(op) && HasOperand(op)
    ensures Instruction(s) == Ok((s.(cip := s.cip + 16), op, PROGRAM[k + 1]))
  {
    var c := s.(cip := s.cip + 8);
    FetchAt(s, l, p, k);
    SameProgram(s, l, p, c);
    FetchAt(c, l, p, k + 1);
  }

  /** Writing at a data address leaves the program. */
  lemma StillReady(s: Vm, l: Layout, p: Cell, s1: Vm, x: Cell)
    requires Ready(s, l, p) && Pushed(s, l, s1, x) && s1.cod == s.cod
    ensures Ready(s1, l, p)
  {
    var v: Cell := s.stk - 8;
    var q := l.data + v / 8;
    DataAccess(s, l, v);
    assert s.mem.Data(Plus(s.dat, v)) == Some(q);
    assert s.mem.DataCell(q);
    SeparateStays(s.mem, s1.mem);
    forall k: nat | k < 9
      ensures CodeAt(s1, p + 8 * k) == Some(PROGRAM[k])
    {
      assert CodeAt(s, p + 8 * k) == Some(PROGRAM[k]);
      assert s.CodePtr(p + 8 * k) != Some(q);
    }
  }

  lemma SeparateStays(m: Memory, m1: Memory)
    requires Separate(m) && m1 == m.(host := m1.host) && |m1.host| == |m.host|
    ensures Separate(m1)
  {
    forall v: Cell, q: nat | m1.Code(v) == Some(q)
      ensures !m1.DataCell(q)
    {
      assert m.Code(v) == Some(q);
      forall w: Cell
        ensures m1.Data(w) != Some(q)
      {
        assert m1.Data(w) == m.Data(w);
        assert !m.DataCell(q);
      }
    }
  }

  lemma PushGoes(s: Vm, l: Layout, x: Cell)
    requires Segment(s, l) && InSegment(l, s.stk - 8)
    ensures Push(s, x).Ok? && Pushed(s, l, Push(s, x).value, x)
    ensures Push(s, x).value == s.(stk := s.stk - 8, mem := Push(s, x).value.mem)
  {
    MinusEight(s.stk);
    DataAccess(s.(stk := s.stk - 8), l, s.stk - 8);
  }

  // ----- its instructions -----

  lemma DoProc(s: Vm, l: Layout, p: Cell, k: nat, t: nat) returns (s1: Vm)
    requires Ready(s, l, p) && (k == 0 || k == 7) && s.cip == p + 8 * k && InSegment(l, s.stk - 8)
    ensures Turns(Calm())(s, t) == Ok(s1) && TurnLooks(Calm())(s, t) == Look(Enters, s)
    ensures Ready(s1, l, p) && Pushed(s, l, s1, s.frm) && s1.frm == s1.stk && s1.cip == s.cip + 8
  {
    var c := s.(cip := s.cip + 8);
    FetchAt(s, l, p, k);
    CalmTurn(s, t, c, Flow(Proc), 0);
    PushGoes(c, l, s.frm);
    s1 := Push(c, s.frm).value.(frm := s.stk - 8);
    StillReady(s, l, p, s1, s.frm);
  }

  lemma DoConst(s: Vm, l: Layout, p: Cell, t: nat)
    requires Ready(s, l, p) && s.cip == p + 8
    ensures Turns(Calm())(s, t) == Ok(s.(pri := 0, cip := s.cip + 16))
    ensures Ready(s.(pri := 0, cip := s.cip + 16), l, p)
  {
    WithOperand(s, l, p, 1, Arith(ConstPri));
    CalmTurn(s, t, s.(cip := s.cip + 16), Arith(ConstPri), 0);
    SameProgram(s, l, p, s.(pri := 0, cip := s.cip + 16));
  }

  lemma DoPush(s: Vm, l: Layout, p: Cell, t: nat) returns (s1: Vm)
    requires Ready(s, l, p) && s.cip == p + 24 && InSegment(l, s.stk - 8)
    ensures Turns(Calm())(s, t) == Ok(s1)
    ensures Ready(s1, l, p) && Pushed(s, l, s1, s.pri) && s1.cip == s.cip + 8
  {
    var c := s.(cip := s.cip + 8);
    FetchAt(s, l, p, 3);
    CalmTurn(s, t, c, OnStack(PushPri), 0);
    PushGoes(c, l, s.pri);
    s1 := Push(c, s.pri).value;
    StillReady(s, l, p, s1, s.pri);
  }

  lemma Addresses(c: Cell)
    requires 16 <= c < 0x2_0000_0000
    ensures Plus(c, 16) == c + 16 && Plus(Minus(c, 16), 24) == c + 8
  {
  }

  /** OP_CALL with operand 24, from the machine behind it. */
  lemma CallGoes24(d: Vm, l: Layout) returns (s1: Vm)
    requires Segment(d, l) && 16 <= d.cip < 0x2_0000_0000 && InSegment(l, d.stk - 8)
    ensures ExecFlow(Call, 24, d) == Ok(s1) && Pushed(d, l, s1, d.cip)
    ensures s1 == d.(stk := d.stk - 8, mem := s1.mem, cip := d.cip + 8)
  {
    Addresses(d.cip);
    PushGoes(d, l, d.cip);
    s1 := Push(d, d.cip).value.(cip := d.cip + 8);
  }

  lemma DoCall(s: Vm, l: Layout, p: Cell, t: nat) returns (s1: Vm)
    requires Ready(s, l, p) && s.cip == p + 32 && InSegment(l, s.stk - 8)
    ensures Turns(Calm())(s, t) == Ok(s1) && TurnLooks(Calm())(s, t) == Look(Calls, s)
    ensures Ready(s1, l, p) && Pushed(s, l, s1, Plus(s.cip, 16)) && s1.frm == s.frm && s1.cip == p + 56
  {
    var d := s.(cip := s.cip + 16);
    WithOperand(s, l, p, 4, Flow(Call));
    CalmTurn(s, t, d, Flow(Call), 24);
    s1 := CallGoes24(d, l);
    Addresses(s.cip);
    StillReady(s, l, p, s1, d.cip);
  }

  lemma RetnGoes(s: Vm, l: Layout) returns (s4: Vm)
    requires Segment(s, l) && InSegment(l, s.stk) && InSegment(l, s.stk + 8) && InSegment(l, s.stk + 16)
    ensures ExecFlow(Retn, 0, s) == Ok(s4) && s4.cod == s.cod && FrameTurn(Returns, s, l, s4)
  {
    DataAccess(s, l, s.stk);
    PopIs(s, l);
    var s1 := s.(stk := s.stk + 8, frm := At(s, l, s.stk));
    DataAccess(s1, l, s1.stk);
    PopIs(s1, l);
    var s2 := s1.(stk := s1.stk + 8, cip := At(s, l, s.stk + 8));
    assert PopFrame(s) == Ok(s2);
    DataAccess(s2, l, s2.stk);
    s4 := ExecFlow(Retn, 0, s).value;
    RetnReturns(0, s, l);
  }

  lemma DoRetn(s: Vm, l: Layout, p: Cell, k: nat, t: nat) returns (s1: Vm)
    requires Ready(s, l, p) && (k == 6 || k == 8) && s.cip == p + 8 * k
    requires InSegment(l, s.stk) && InSegment(l, s.stk + 8) && InSegment(l, s.stk + 16)
    ensures Turns(Calm())(s, t) == Ok(s1) && TurnLooks(Calm())(s, t) == Look(Returns, s)
    ensures Ready(s1, l, p) && FrameTurn(Returns, s, l, s1)
  {
    var c := s.(cip := s.cip + 8);
    FetchAt(s, l, p, k);
    CalmTurn(s, t, c, Flow(Retn), 0);
    s1 := RetnGoes(c, l);
    FrameTurnMoves(Returns, s, c, l, s1);
    SameProgram(s, l, p, s1);
  }

  // ----- what the turns of the program do, for any turns that execute it -----

  ghost predicate ProcWorks(turn: Turn, look: Looks, l: Layout, p: Cell, s: Vm, t: nat) {
    Ready(s, l, p) && (s.cip == p || s.cip == p + 56) && InSegment(l, s.stk - 8) ==>
      var s1 := Next(turn, s, t);
      && turn(s, t) == Ok(s1) && look(s, t) == Look(Enters, s)
      && Ready(s1, l, p) && Pushed(s, l, s1, s.frm) && s1.frm == s1.stk && s1.cip == s.cip + 8
  }

  ghost predicate ConstWorks(turn: Turn, l: Layout, p: Cell, s: Vm, t: nat) {
    Ready(s, l, p) && s.cip == p + 8 ==>
      var s1 := s.(pri := 0, cip := s.cip + 16);
      turn(s, t) == Ok(s1) && Ready(s1, l, p)
  }

  ghost predicate PushWorks(turn: Turn, l: Layout, p: Cell, s: Vm, t: nat) {
    Ready(s, l, p) && s.cip == p + 24 && InSegment(l, s.stk - 8) ==>
      var s1 := Next(turn, s, t);
      turn(s, t) == Ok(s1) && Ready(s1, l, p) && Pushed(s, l, s1, s.pri) && s1.cip == s.cip + 8
  }

  ghost predicate CallWorks(turn: Turn, look: Looks, l: Layout, p: Cell, s: Vm, t: nat) {
    Ready(s, l, p) && s.cip == p + 32 && InSegment(l, s.stk - 8) ==>
      var s1 := Next(turn, s, t);
      && turn(s, t) == Ok(s1) && look(s, t) == Look(Calls, s)
      && Ready(s1, l, p) && Pushed(s, l, s1, Plus(s.cip, 16)) && s1.frm == s.frm && s1.cip == p + 56
  }

  ghost predicate RetnWorks(turn: Turn, look: Looks, l: Layout, p: Cell, s: Vm, t: nat) {
    && Ready(s, l, p) && (s.cip == p + 48 || s.cip == p + 64)
    && InSegment(l, s.stk) && InSegment(l, s.stk + 8) && InSegment(l, s.stk + 16) ==>
      var s1 := Next(turn, s, t);
      && turn(s, t) == Ok(s1) && look(s, t) == Look(Returns, s)
      && Ready(s1, l, p) && FrameTurn(Returns, s, l, s1)
  }

  ghost predicate ProgramWorks(turn: Turn, look: Looks, l: Layout, p: Cell) {
    && (forall s: Vm, t: nat :: ProcWorks(turn, look, l, p, s, t))
    && (forall s: Vm, t: nat :: ConstWorks(turn, l, p, s, t))
    && (forall s: Vm, t: nat :: PushWorks(turn, l, p, s, t))
    && (forall s: Vm, t: nat :: CallWorks(turn, look, l, p, s, t))
    && (forall s: Vm, t: nat :: RetnWorks(turn, look, l, p, s, t))
  }

  lemma CalmProc(l: Layout, p: Cell, s: Vm, t: nat)
    ensures ProcWorks(Turns(Calm()), TurnLooks(Calm()), l, p, s, t)
  {
    if Ready(s, l, p) && (s.cip == p || s.cip == p + 56) && InSegment(l, s.stk - 8) {
      var s1 := DoProc(s, l, p, if s.cip == p then 0 else 7, t);
    }
  }

  lemma CalmConst(l: Layout, p: Cell, s: Vm, t: nat)
    ensures ConstWorks(Turns(Calm()), l, p, s, t)
  {
    if Ready(s, l, p) && s.cip == p + 8 {
      DoConst(s, l, p, t);
    }
  }

  lemma CalmPush(l: Layout, p: Cell, s: Vm, t: nat)
    ensures PushWorks(Turns(Calm()), l, p, s, t)
  {
    if Ready(s, l, p) && s.cip == p + 24 && InSegment(l, s.stk - 8) {
      var s1 := DoPush(s, l, p, t);
    }
  }

  lemma CalmCall(l: Layout, p: Cell, s: Vm, t: nat)
    ensures CallWorks(Turns(Calm()), TurnLooks(Calm()), l, p, s, t)
  {
    if Ready(s, l, p) && s.cip == p + 32 && InSegment(l, s.stk - 8) {
      var s1 := DoCall(s, l, p, t);
    }
  }

  lemma CalmRetn(l: Layout, p: Cell, s: Vm, t: nat)
    ensures RetnWorks(Turns(Calm()), TurnLooks(Calm()), l, p, s, t)
  {
    if Ready(s, l, p) && (s.cip == p + 48 || s.cip == p + 64)
       && InSegment(l, s.stk) && InSegment(l, s.stk + 8) && InSegment(l, s.stk + 16) {
      var s1 := DoRetn(s, l, p, if s.cip == p + 48 then 6 else 8, t);
    }
  }

  lemma CalmWorks(l: Layout, p: Cell)
    ensures ProgramWorks(Turns(Calm()), TurnLooks(Calm()), l, p)
  {
    forall s: Vm, t: nat
      ensures ProcWorks(Turns(Calm()), TurnLooks(Calm()), l, p, s, t)
      ensures ConstWorks(Turns(Calm()), l, p, s, t)
      ensures PushWorks(Turns(Calm()), l, p, s, t)
      ensures CallWorks(Turns(Calm()), TurnLooks(Calm()), l, p, s, t)
      ensures RetnWorks(Turns(Calm()), TurnLooks(Calm()), l, p, s, t)
    {
      CalmProc(l, p, s, t);
      CalmConst(l, p, s, t);
      CalmPush(l, p, s, t);
      CalmCall(l, p, s, t);
      CalmRetn(l, p, s, t);
    }
  }

  // ----- the inner call -----

  /** OP_CALL, OP_PROC and OP_RETN, three turns with idle callbacks, from m3 to m6. */
  ghost predicate CallsEmpty(turn: Turn, look: Looks, l: Layout, m3: Vm, m4: Vm, m5: Vm, m6: Vm) {
    && m3.cip != 0 && turn(m3, 3) == Ok(m4) && look(m3, 3) == Look(Calls, m3)
    && Pushed(m3, l, m4, Plus(m3.cip, 16)) && m4.frm == m3.frm && Segment(m4, l)
    && m4.cip != 0 && turn(m4, 4) == Ok(m5) && look(m4, 4) == Look(Enters, m4)
    && Pushed(m4, l, m5, m4.frm) && m5.frm == m5.stk && Segment(m5, l)
    && m5.cip != 0 && turn(m5, 5) == Ok(m6) && look(m5, 5) == Look(Returns, m5)
    && FrameTurn(Returns, m5, l, m6) && Segment(m6, l)
  }

  /** The frame of the inner call. */
  lemma InnerFrame(l: Layout, saved: set<Cell>, m3: Vm, m4: Vm, m5: Vm)
    requires Guarded(m3, l, saved) && InSegment(l, m3.stk)
    requires Pushed(m3, l, m4, Plus(m3.cip, 16)) && m4.frm == m3.frm && Segment(m4, l)
    requires Pushed(m4, l, m5, m4.frm) && m5.frm == m5.stk && Segment(m5, l)
    ensures Guarded(m4, l, saved + {m3.stk} + {m4.stk}) && Framing(m3, m5, l, saved)
  {
    PushKeeps(m3, l, m4, Plus(m3.cip, 16), saved + {m3.stk});
    TwoPushes(l, m3, m3, m4, m4, m5, saved);
  }

  /** The machine after its return: the size cell is popped, and control is after the call. */
  lemma InnerReturns(l: Layout, saved: set<Cell>, m3: Vm, m5: Vm, m6: Vm)
    requires Guarded(m3, l, saved) && InSegment(l, m3.stk) && At(m3, l, m3.stk) == 0
    requires Framing(m3, m5, l, saved) && FrameTurn(Returns, m5, l, m6)
    ensures m6.stk == m3.stk + 8 && m6.cip == Plus(m3.cip, 16)
  {
    assert m3.stk + 8 < 0x1_0000_0000_0000_0000;
  }

  lemma InnerInvokes(turn: Turn, look: Looks, l: Layout, saved: set<Cell>, m3: Vm, m4: Vm, m5: Vm, m6: Vm)
    requires Guarded(m3, l, saved) && InSegment(l, m3.stk) && At(m3, l, m3.stk) == 0
    requires forall v :: v in saved ==> m3.stk + 8 <= v
    requires CallsEmpty(turn, look, l, m3, m4, m5, m6)
    ensures Invokes(turn, look, l, m3, 3, m5, m5, 5, saved)
  {
    InnerFrame(l, saved, m3, m4, m5);
    InnerReturns(l, saved, m3, m5, m6);
    assert SizeFits(m3, l, saved);
    assert Begins(turn, look, l, Calls, m3, 3, saved + {m3.stk});
    assert Begins(turn, look, l, Enters, m4, 4, saved + {m3.stk} + {m4.stk});
    assert Begins(turn, look, l, Returns, m5, 5, saved + FrameCells(m5.stk));
  }

  // ----- the outer body -----

  function NestedTrace(m5: Vm): Trace {
    Plain(Plain(Invoke(m5, Done, m5, 5, Done)))
  }

  lemma NestedFollows(turn: Turn, plain: PlainRule, call: CallRule,
                      m1: Vm, m2: Vm, m3: Vm, m5: Vm, m6: Vm, saved: set<Cell>)
    requires plain(m1, 1, saved) && Next(turn, m1, 1) == m2 && plain(m2, 2, saved) && Next(turn, m2, 2) == m3
    requires call(m3, 3, m5, m5, 5, saved) && Next(turn, m5, 5) == m6
    ensures Follows(turn, plain, call, NestedTrace(m5), m1, 1, saved, m6, 6)
  {
    assert Follows(turn, plain, call, Done, m6, 6, saved, m6, 6);
    assert Follows(turn, plain, call, Done, m5, 5, saved + FrameCells(m5.stk), m5, 5);
    assert Follows(turn, plain, call, Invoke(m5, Done, m5, 5, Done), m3, 3, saved, m6, 6);
    assert Follows(turn, plain, call, Plain(Invoke(m5, Done, m5, 5, Done)), m2, 2, saved, m6, 6);
  }

  /** The stack at the entry: a return address, the size of the arguments, and room below. */
  ghost predicate AtEntry(e: Vm, l: Layout, p: Cell) {
    && Ready(e, l, p) && e.cip == p && p != 0
    && InSegment(l, e.stk - 32) && InSegment(l, e.stk) && InSegment(l, e.stk + 8)
  }

  /** OP_PROC and two plain turns, which leave the argument size zero on the stack. */
  ghost predicate Starts(turn: Turn, look: Looks, l: Layout, e: Vm, m1: Vm, m2: Vm, m3: Vm) {
    && turn(e, 0) == Ok(m1) && look(e, 0) == Look(Enters, e) && m1.cip != 0 && m2.cip != 0
    && turn(m1, 1) == Ok(m2) && turn(m2, 2) == Ok(m3)
    && Segment(m1, l) && m2 == m1.(pri := 0, cip := m2.cip) && Pushed(m2, l, m3, 0) && Segment(m3, l)
    && m1.stk == e.stk - 8
  }

  lemma OuterStart(turn: Turn, look: Looks, l: Layout, p: Cell, e: Vm) returns (m1: Vm, m2: Vm, m3: Vm)
    requires ProgramWorks(turn, look, l, p) && AtEntry(e, l, p)
    ensures Starts(turn, look, l, e, m1, m2, m3)
    ensures Ready(m3, l, p) && m3.cip == p + 32 && m3.stk == e.stk - 16
  {
    assert ProcWorks(turn, look, l, p, e, 0);
    m1 := Next(turn, e, 0);
    assert ConstWorks(turn, l, p, m1, 1);
    m2 := Next(turn, m1, 1);
    assert PushWorks(turn, l, p, m2, 2);
    m3 := Next(turn, m2, 2);
  }

  /** The saved cells of the outer frame through the two plain turns. */
  lemma OuterKeeps(turn: Turn, look: Looks, l: Layout, e: Vm, m1: Vm, m2: Vm, m3: Vm)
    requires Starts(turn, look, l, e, m1, m2, m3)
    requires InSegment(l, m1.stk) && InSegment(l, m1.stk + 8) && InSegment(l, m1.stk + 16)
    ensures var saved := FrameCells(m1.stk);
            && Guarded(m1, l, saved) && Kept(m1, m2, l, saved)
            && Guarded(m2, l, saved) && Kept(m2, m3, l, saved)
            && InSegment(l, m3.stk) && At(m3, l, m3.stk) == 0 && forall v :: v in saved ==> m3.stk + 8 <= v
  {
    FrameGuarded(m1, l);
    FrameGuarded(m2, l);
    PushKeeps(m2, l, m3, 0, FrameCells(m1.stk));
  }

  lemma FrameGuarded(s: Vm, l: Layout)
    requires Segment(s, l) && InSegment(l, s.stk) && InSegment(l, s.stk + 8) && InSegment(l, s.stk + 16)
    ensures Guarded(s, l, FrameCells(s.stk))
    ensures forall v :: v in FrameCells(s.stk) ==> s.stk <= v
  {
    assert Plus(s.stk, 8) == s.stk + 8 && Plus(s.stk, 16) == s.stk + 16;
  }

  /** The inner call, from OP_CALL to just after it. */
  lemma InnerTurns(turn: Turn, look: Looks, l: Layout, p: Cell, m3: Vm) returns (m4: Vm, m5: Vm, m6: Vm)
    requires ProgramWorks(turn, look, l, p) && Ready(m3, l, p) && m3.cip == p + 32
    requires InSegment(l, m3.stk - 16) && InSegment(l, m3.stk)
    ensures CallsEmpty(turn, look, l, m3, m4, m5, m6) && Ready(m6, l, p)
  {
    assert CallWorks(turn, look, l, p, m3, 3);
    m4 := Next(turn, m3, 3);
    assert ProcWorks(turn, look, l, p, m4, 4);
    m5 := Next(turn, m4, 4);
    assert RetnWorks(turn, look, l, p, m5, 5);
    m6 := Next(turn, m5, 5);
  }

  lemma EntersIdle(turn: Turn, look: Looks, l: Layout, e: Vm, m1: Vm)
    requires Segment(e, l) && InSegment(l, e.stk) && InSegment(l, e.stk + 8) && e.cip != 0
    requires turn(e, 0) == Ok(m1) && look(e, 0) == Look(Enters, e)
    ensures var cells := {Plus(e.stk, 8)} + {e.stk};
            Guarded(e, l, cells) && Begins(turn, look, l, Enters, e, 0, cells)
  {
    assert Plus(e.stk, 8) == e.stk + 8;
  }

  lemma ReturnsIdle(turn: Turn, look: Looks, l: Layout, m1: Vm, m6: Vm)
    requires m6.cip != 0 && m6.stk == m1.stk && Guarded(m6, l, FrameCells(m1.stk))
    requires turn(m6, 6).Ok? && look(m6, 6) == Look(Returns, m6)
    ensures CanReturn(turn, look, l, m1, m6, 6, {})
  {
    assert {} + FrameCells(m1.stk) == FrameCells(m1.stk);
  }

  /** An entering turn, a body and a returning turn, with idle callbacks at both ends. */
  lemma BodyIs(turn: Turn, look: Looks, l: Layout, body: Trace, e: Vm, m1: Vm, m6: Vm)
    requires Segment(e, l) && InSegment(l, e.stk) && InSegment(l, e.stk + 8) && e.cip != 0
    requires turn(e, 0) == Ok(m1) && look(e, 0) == Look(Enters, e)
    requires Guarded(m1, l, FrameCells(m1.stk)) && Disciplined(turn, look, l, body, m1, 1, FrameCells(m1.stk), m6, 6)
    requires m6.cip != 0 && m6.stk == m1.stk && Guarded(m6, l, FrameCells(m1.stk))
    requires turn(m6, 6).Ok? && look(m6, 6) == Look(Returns, m6)
    ensures BodyRuns(turn, look, l, body, e, m6, 6)
  {
    EntersIdle(turn, look, l, e, m1);
    ReturnsIdle(turn, look, l, m1, m6);
  }

  lemma IsPlain(turn: Turn, l: Layout, s: Vm, t: nat, s1: Vm, saved: set<Cell>)
    requires s.cip != 0 && turn(s, t) == Ok(s1) && Guarded(s, l, saved) && Kept(s, s1, l, saved)
    ensures PlainTurns(turn, l)(s, t, saved) && Next(turn, s, t) == s1
  {
    assert Goes(turn, s, t) && Kept(s, Next(turn, s, t), l, saved);
  }

  /** The three turns from m1 on with the frame of the outer function saved. */
  lemma NestedDisciplined(turn: Turn, look: Looks, l: Layout, e: Vm, m1: Vm, m2: Vm, m3: Vm, m4: Vm, m5: Vm, m6: Vm)
    requires Starts(turn, look, l, e, m1, m2, m3) && CallsEmpty(turn, look, l, m3, m4, m5, m6)
    requires InSegment(l, m1.stk) && InSegment(l, m1.stk + 8) && InSegment(l, m1.stk + 16)
    ensures Disciplined(turn, look, l, NestedTrace(m5), m1, 1, FrameCells(m1.stk), m6, 6)
  {
    var saved, call := FrameCells(m1.stk), CallTurns(turn, look, l);
    OuterKeeps(turn, look, l, e, m1, m2, m3);
    IsPlain(turn, l, m1, 1, m2, saved);
    IsPlain(turn, l, m2, 2, m3, saved);
    assert call(m3, 3, m5, m5, 5, saved) by {
      InnerInvokes(turn, look, l, saved, m3, m4, m5, m6);
    }
    NestedFollows(turn, PlainTurns(turn, l), call, m1, m2, m3, m5, m6, saved);
  }

  /** It ends with the stack where it began, in front of the outer OP_RETN. */
  lemma NestedEnds(turn: Turn, look: Looks, l: Layout, e: Vm, m1: Vm, m2: Vm, m3: Vm, m4: Vm, m5: Vm, m6: Vm)
    requires Starts(turn, look, l, e, m1, m2, m3) && CallsEmpty(turn, look, l, m3, m4, m5, m6)
    requires InSegment(l, m1.stk) && InSegment(l, m1.stk + 8) && InSegment(l, m1.stk + 16)
    ensures m6.stk == m1.stk && m6.cip == Plus(m3.cip, 16)
  {
    OuterKeeps(turn, look, l, e, m1, m2, m3);
    InnerFrame(l, FrameCells(m1.stk), m3, m4, m5);
    InnerReturns(l, FrameCells(m1.stk), m3, m5, m6);
  }

  /** So the outer function runs a disciplined, balanced body with a call inside. */
  lemma NestedBodyRuns(turn: Turn, look: Looks, l: Layout, p: Cell, e: Vm) returns (m5: Vm, m6: Vm)
    requires ProgramWorks(turn, look, l, p) && AtEntry(e, l, p)
    ensures BodyRuns(turn, look, l, NestedTrace(m5), e, m6, 6)
  {
    var m1, m2, m3 := OuterStart(turn, look, l, p, e);
    var m4;
    m4, m5, m6 := InnerTurns(turn, look, l, p, m3);
    NestedDisciplined(turn, look, l, e, m1, m2, m3, m4, m5, m6);
    NestedEnds(turn, look, l, e, m1, m2, m3, m4, m5, m6);
    assert RetnWorks(turn, look, l, p, m6, 6);
    FrameGuarded(m1, l);
    FrameGuarded(m6, l);
    BodyIs(turn, look, l, NestedTrace(m5), e, m1, m6);
  }

  /** A host call of the function, with any arguments, returns with FRM and STK as before it. */
  lemma NestedCallReturns(s: Vm, p: Cell, args: seq<Cell>, l: Layout, e: Vm)
    requires Segment(s, l) && CallEntry(s, p, args) == Ok(e) && AtEntry(e, l, p)
    ensures var end := CallFunction(s, p, args, Calm(), 7);
            end.Returned? && end.vm.frm == s.frm && end.vm.stk == s.stk
  {
    CalmIsGood(l, l);
    CalmWorks(l, p);
    var m5, m6 := NestedBodyRuns(Turns(Calm()), TurnLooks(Calm()), l, p, e);
    HostCallRestores(s, p, args, Calm(), l, e, NestedTrace(m5), m6, 6, 7);
  }
}

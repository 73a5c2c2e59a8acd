/** Calls and returns: whatever a disciplined function body does, with calls nested
    to any depth, its return restores the caller's frame, resumes just after the
    call and pops exactly the arguments and their size. */
module CallDiscipline {
  import opened Cells
  import opened Memories
  import opened Machine
  import opened RunInvariant
  import opened Simulation
  import opened Traces

  // ----- what the three instructions do to the frame -----

  predicate InSegment(l: Layout, v: int) {
    v % 8 == 0 && 0 <= v < 8 * l.dataLen
  }

  /** The data cell at address v. */
  ghost function At(s: Vm, l: Layout, v: Cell): Cell
    requires Segment(s, l) && InSegment(l, v)
  {
    s.mem.host[l.data + v / 8]
  }

  /** s1 is s with x pushed, up to the registers that a push does not concern. */
  ghost predicate Pushed(s: Vm, l: Layout, s1: Vm, x: Cell) {
    && Segment(s, l) && InSegment(l, s.stk - 8)
    && s1.stk == s.stk - 8 && s1.dat == s.dat
    && s1.mem == s.mem.(host := s.mem.host[l.data + (s.stk - 8) / 8 := x])
  }

  datatype Kind = Calls | Enters | Returns | Other

  /** What a turn that executes OP_CALL, OP_PROC or OP_RETN does. */
  ghost predicate FrameTurn(kind: Kind, s: Vm, l: Layout, s1: Vm) {
    match kind
    case Calls => Pushed(s, l, s1, Plus(s.cip, 16)) && s1.frm == s.frm
    case Enters => Pushed(s, l, s1, s.frm) && s1.frm == s1.stk
    case Returns =>
      && Segment(s, l) && InSegment(l, s.stk) && InSegment(l, s.stk + 8) && InSegment(l, s.stk + 16)
      && s1.frm == At(s, l, s.stk) && s1.cip == At(s, l, s.stk + 8)
      && s1.stk == Plus(s.stk + 16, Plus(At(s, l, s.stk + 16), 8))
      && s1.mem == s.mem && s1.dat == s.dat
    case Other => true
  }

  lemma DataAccess(s: Vm, l: Layout, v: Cell)
    requires Segment(s, l)
    ensures s.DataPtr(v) == if InSegment(l, v) then Some(l.data + v / 8) else None
  {
    assert s.mem.data(Plus(s.dat, v)) == if v % 8 == 0 && v < 8 * l.dataLen then Some(l.data + v / 8) else None;
  }

  lemma PushIsPushed(s: Vm, l: Layout, x: Cell)
    requires Segment(s, l) && Push(s, x).Ok?
    ensures Pushed(s, l, Push(s, x).value, x)
    ensures Push(s, x).value == s.(stk := Push(s, x).value.stk, mem := Push(s, x).value.mem)
  {
    var stk := Minus(s.stk, 8);
    DataAccess(s.(stk := stk), l, stk);
    MinusEight(s.stk);
  }

  lemma MinusEight(v: Cell)
    ensures Minus(v, 8) == if v >= 8 then v - 8 else v - 8 + 0x1_0000_0000_0000_0000
  {
  }

  lemma ProcEnters(x: Cell, s: Vm, l: Layout)
    requires Segment(s, l) && ExecFlow(Proc, x, s).Ok?
    ensures FrameTurn(Enters, s, l, ExecFlow(Proc, x, s).value)
  {
    PushIsPushed(s, l, s.frm);
  }

  lemma CallPushes(x: Cell, s: Vm, l: Layout)
    requires Segment(s, l) && ExecFlow(Call, x, s).Ok?
    ensures Pushed(s, l, ExecFlow(Call, x, s).value, s.cip) && ExecFlow(Call, x, s).value.frm == s.frm
  {
    PushIsPushed(s, l, s.cip);
  }

  lemma PopIs(s: Vm, l: Layout)
    requires Segment(s, l) && Pop(s).Ok?
    ensures InSegment(l, s.stk) && s.stk + 8 < 0x1_0000_0000_0000_0000
    ensures Pop(s) == Ok((s.(stk := s.stk + 8), At(s, l, s.stk)))
  {
    DataAccess(s, l, s.stk);
  }

  lemma RetnReturns(x: Cell, s: Vm, l: Layout)
    requires Segment(s, l) && ExecFlow(Retn, x, s).Ok?
    ensures FrameTurn(Returns, s, l, ExecFlow(Retn, x, s).value)
  {
    PopIs(s, l);
    var s1 := s.(stk := s.stk + 8, frm := At(s, l, s.stk));
    PopIs(s1, l);
    var s2 := s1.(stk := s1.stk + 8, cip := At(s, l, s.stk + 8));
    assert PopFrame(s) == Ok(s2);
    DataAccess(s2, l, s2.stk);
  }

  function KindOf(op: Opcode): Kind {
    match op
    case Flow(f) => if f.Call? then Calls else if f.Proc? then Enters else if f.Retn? then Returns else Other
    case _ => Other
  }

  /** What a turn is about to do: the kind of its instruction, and the machine after the
      single-step callback, from which the instruction starts. */
  datatype Look = Look(kind: Kind, after: Vm)

  type Looks = (Vm, nat) -> Look

  function TurnLooks(env: Env): Looks {
    (s: Vm, t: nat) =>
      var c := Callback(s, env, t, SINGLE_STEP);
      if c.Ok? && Instruction(c.value).Ok? then Look(KindOf(Instruction(c.value).value.1), c.value) else Look(Other, s)
  }

  lemma InstructionMoves(s: Vm)
    requires Instruction(s).Ok?
    ensures var (s1, op, x) := Instruction(s).value;
            s1 == s.(cip := if HasOperand(op) then Plus(Plus(s.cip, 8), 8) else Plus(s.cip, 8))
  {
  }

  /** A frame turn looks at CIP beforehand only for the return address. */
  lemma FrameTurnMoves(kind: Kind, s: Vm, s1: Vm, l: Layout, s2: Vm)
    requires s1 == s.(cip := s1.cip) && (kind == Enters || kind == Returns)
    requires FrameTurn(kind, s1, l, s2)
    ensures FrameTurn(kind, s, l, s2)
  {
  }

  lemma CallCalls(x: Cell, s: Vm, s1: Vm, l: Layout)
    requires Segment(s1, l) && ExecFlow(Call, x, s1).Ok? && s1 == s.(cip := Plus(Plus(s.cip, 8), 8))
    ensures FrameTurn(Calls, s, l, ExecFlow(Call, x, s1).value)
  {
    CallPushes(x, s1, l);
    PlusTwice(s.cip);
  }

  lemma PlusTwice(c: Cell)
    ensures Plus(Plus(c, 8), 8) == Plus(c, 16)
  {
  }

  lemma StepIsFrameTurn(s: Vm, env: Env, t: nat, l: Layout)
    requires Segment(s, l) && Step(s, env, t).Ok?
    ensures Instruction(s).Ok? && FrameTurn(KindOf(Instruction(s).value.1), s, l, Step(s, env, t).value)
  {
    InstructionMoves(s);
    var (s1, op, x) := Instruction(s).value;
    if op == Flow(Call) {
      CallCalls(x, s, s1, l);
    } else if op == Flow(Proc) {
      ProcEnters(x, s1, l);
      FrameTurnMoves(Enters, s, s1, l, ExecFlow(Proc, x, s1).value);
    } else if op == Flow(Retn) {
      RetnReturns(x, s1, l);
      FrameTurnMoves(Returns, s, s1, l, ExecFlow(Retn, x, s1).value);
    }
  }

  /** The callback leaves the registers that frames are made of. */
  predicate SameFrame(s: Vm, c: Vm) {
    c.frm == s.frm && c.cip == s.cip && c.stk == s.stk
  }

  lemma TurnIsFrameTurn(s: Vm, env: Env, t: nat, l: Layout)
    requires GoodHost(env) && Segment(s, l) && Turns(env)(s, t).Ok?
    ensures var look := TurnLooks(env)(s, t);
            && SameFrame(s, look.after)
            && FrameTurn(look.kind, look.after, l, Turns(env)(s, t).value)
    ensures Segment(Turns(env)(s, t).value, l)
  {
    TickFrame(s, env, t);
    CallbackFrame(s, env, t, SINGLE_STEP);
    var c := Callback(s, env, t, SINGLE_STEP).value;
    StepIsFrameTurn(c, env, t, l);
  }

  // ----- disciplined runs -----

  /** The cells at the saved addresses are the same in both machines. */
  ghost predicate Untouched(s: Vm, s1: Vm, l: Layout, saved: set<Cell>)
    requires Segment(s, l) && Segment(s1, l) && forall v :: v in saved ==> InSegment(l, v)
  {
    forall v :: v in saved ==> At(s1, l, v) == At(s, l, v)
  }

  /** Saved cells lie in the segment, at or above the stack pointer. */
  ghost predicate Guarded(s: Vm, l: Layout, saved: set<Cell>) {
    && Segment(s, l)
    && forall v :: v in saved ==> InSegment(l, v) && s.stk <= v
  }

  /** What a plain turn, a callback and a disciplined run keep: the saved cells, with
      nothing popped past one. */
  ghost predicate Kept(s: Vm, s1: Vm, l: Layout, saved: set<Cell>)
    requires Guarded(s, l, saved)
  {
    Guarded(s1, l, saved) && Untouched(s, s1, l, saved)
  }

  /** The two ends of a call: OP_CALL and OP_PROC at turn t, OP_RETN at turn t3. */
  ghost predicate Invokes(turn: Turn, look: Looks, l: Layout, s: Vm, t: nat, s2: Vm, s3: Vm, t3: nat, saved: set<Cell>)
    requires Guarded(s, l, saved)
  {
    && Opened(turn, look, l, s, t, saved) == Some(s2)
    && Guarded(s2, l, saved + FrameCells(s2.stk))
    && CanReturn(turn, look, l, s2, s3, t3, saved)
  }

  /** OP_CALL then OP_PROC, with the argument size on top of the stack. The callbacks
      before them leave the saved cells and those of the new frame alone. */
  ghost function Opened(turn: Turn, look: Looks, l: Layout, s: Vm, t: nat, saved: set<Cell>): Option<Vm>
    requires Guarded(s, l, saved)
  {
    if InSegment(l, s.stk) && SizeFits(s, l, saved) && Begins(turn, look, l, Calls, s, t, saved + {s.stk}) then
      var s1, more := turn(s, t).value, saved + {s.stk};
      if Guarded(s1, l, more + {s1.stk}) && Begins(turn, look, l, Enters, s1, t + 1, more + {s1.stk})
      then Some(turn(s1, t + 1).value) else None
    else None
  }

  /** A turn of that kind goes through, its callback leaving the given cells alone. */
  ghost predicate Begins(turn: Turn, look: Looks, l: Layout, kind: Kind, s: Vm, t: nat, cells: set<Cell>)
    requires Guarded(s, l, cells)
  {
    Goes(turn, s, t) && look(s, t).kind == kind && Kept(s, look(s, t).after, l, cells)
  }

  /** Popping the size cell and as many bytes as it says stays below the saved cells. */
  ghost predicate SizeFits(s: Vm, l: Layout, saved: set<Cell>)
    requires Guarded(s, l, saved) && InSegment(l, s.stk)
  {
    forall v :: v in saved ==> Plus(s.stk, Plus(At(s, l, s.stk), 8)) <= v
  }

  /** The body has balanced its stack and OP_RETN is next; s2 is the machine that entered it. */
  ghost predicate CanReturn(turn: Turn, look: Looks, l: Layout, s2: Vm, s3: Vm, t: nat, saved: set<Cell>) {
    && s3.stk == s2.stk && Guarded(s3, l, saved + FrameCells(s2.stk))
    && Begins(turn, look, l, Returns, s3, t, saved + FrameCells(s2.stk))
  }

  /** Plain turns: any instruction that keeps the saved cells, whatever it does to FRM. */
  ghost function PlainTurns(turn: Turn, l: Layout): PlainRule {
    (s: Vm, t: nat, saved: set<Cell>) => Goes(turn, s, t) && Guarded(s, l, saved) && Kept(s, Next(turn, s, t), l, saved)
  }

  ghost function CallTurns(turn: Turn, look: Looks, l: Layout): CallRule {
    (s: Vm, t: nat, s2: Vm, s3: Vm, t3: nat, saved: set<Cell>) =>
      Guarded(s, l, saved) && Invokes(turn, look, l, s, t, s2, s3, t3, saved)
  }

  /** A disciplined run: nested bodies are balanced, nobody writes the saved cells of a live
      frame, and a call's size counts only cells of its caller's frame. */
  ghost predicate Disciplined(turn: Turn, look: Looks, l: Layout, tr: Trace, s: Vm, t: nat,
                              saved: set<Cell>, s1: Vm, t1: nat) {
    Follows(turn, PlainTurns(turn, l), CallTurns(turn, look, l), tr, s, t, saved, s1, t1)
  }

  /** Turns of the given kinds do what FrameTurn says and keep the segment. */
  ghost predicate Faithful(turn: Turn, look: Looks, l: Layout) {
    forall s: Vm, t: nat {:trigger FrameTurn(look(s, t).kind, look(s, t).after, l, turn(s, t).value)} ::
      Segment(s, l) && turn(s, t).Ok? ==>
        && SameFrame(s, look(s, t).after) && Segment(turn(s, t).value, l)
        && FrameTurn(look(s, t).kind, look(s, t).after, l, turn(s, t).value)
  }

  lemma PushKeeps(s: Vm, l: Layout, s1: Vm, x: Cell, saved: set<Cell>)
    requires Pushed(s, l, s1, x) && Segment(s1, l) && Guarded(s, l, saved)
    ensures Guarded(s1, l, saved + {s1.stk}) && Untouched(s, s1, l, saved) && At(s1, l, s1.stk) == x
  {
    forall v | v in saved
      ensures At(s1, l, v) == At(s, l, v)
    {
      assert v / 8 != (s.stk - 8) / 8;
    }
  }

  /** s4 is s after a completed call: same frame, resumed after the call, arguments and size popped. */
  ghost predicate CallReturned(s: Vm, s4: Vm, l: Layout)
    requires Segment(s, l) && InSegment(l, s.stk)
  {
    && s4.frm == s.frm
    && s4.cip == Plus(s.cip, 16)
    && s4.stk == Plus(s.stk, Plus(At(s, l, s.stk), 8))
  }

  /** The frame that OP_CALL and OP_PROC build on top of the size cell. */
  ghost predicate Framing(s: Vm, s2: Vm, l: Layout, saved: set<Cell>)
    requires Guarded(s, l, saved) && InSegment(l, s.stk)
  {
    && s2.stk == s.stk - 16 && Guarded(s2, l, saved + FrameCells(s2.stk)) && s2.frm == s2.stk
    && Untouched(s, s2, l, saved)
    && At(s2, l, s2.stk) == s.frm && At(s2, l, s2.stk + 8) == Plus(s.cip, 16)
    && At(s2, l, s2.stk + 16) == At(s, l, s.stk)
  }

  lemma KeptThrough(s: Vm, s2: Vm, s3: Vm, l: Layout, saved: set<Cell>)
    requires Guarded(s, l, saved) && Kept(s, s2, l, saved) && Kept(s2, s3, l, saved)
    ensures Kept(s, s3, l, saved)
  {
    UntouchedThrough(s, s2, s3, l, saved, saved);
  }

  /** A callback and a push: the cells are kept and the pushed cell is one more to keep. */
  lemma CallbackThenPush(s: Vm, c: Vm, l: Layout, s1: Vm, x: Cell, cells: set<Cell>)
    requires Guarded(s, l, cells) && Kept(s, c, l, cells) && c.stk == s.stk && Pushed(c, l, s1, x) && Segment(s1, l)
    ensures Kept(s, s1, l, cells) && Guarded(s1, l, cells + {s1.stk}) && At(s1, l, s1.stk) == x
  {
    PushKeeps(c, l, s1, x, cells);
    KeptThrough(s, c, s1, l, cells);
  }

  /** Two pushes, each after a callback, on top of the size cell. */
  lemma TwoPushes(l: Layout, s: Vm, c: Vm, s1: Vm, c1: Vm, s2: Vm, saved: set<Cell>)
    requires Guarded(s, l, saved) && InSegment(l, s.stk) && Kept(s, c, l, saved + {s.stk}) && c.stk == s.stk
    requires Pushed(c, l, s1, Plus(s.cip, 16)) && Segment(s1, l) && Guarded(s1, l, saved + {s.stk} + {s1.stk})
    requires Kept(s1, c1, l, saved + {s.stk} + {s1.stk}) && c1.stk == s1.stk
    requires Pushed(c1, l, s2, s.frm) && s2.frm == s2.stk && Segment(s2, l)
    ensures Framing(s, s2, l, saved)
  {
    var more := saved + {s.stk};
    CallbackThenPush(s, c, l, s1, Plus(s.cip, 16), more);
    CallbackThenPush(s1, c1, l, s2, s.frm, more + {s1.stk});
    TwoKept(s, s1, s2, l, more);
    FramingIs(l, s, s1, s2, saved);
  }

  lemma FramingIs(l: Layout, s: Vm, s1: Vm, s2: Vm, saved: set<Cell>)
    requires Guarded(s, l, saved + {s.stk}) && Kept(s, s2, l, saved + {s.stk})
    requires Guarded(s1, l, saved + {s.stk} + {s1.stk}) && Kept(s1, s2, l, saved + {s.stk} + {s1.stk})
    requires Guarded(s2, l, saved + {s.stk} + {s1.stk} + {s2.stk})
    requires s1.stk == s.stk - 8 && s2.stk == s1.stk - 8 && s2.frm == s2.stk
    requires At(s1, l, s1.stk) == Plus(s.cip, 16) && At(s2, l, s2.stk) == s.frm
    ensures Framing(s, s2, l, saved)
  {
    assert saved + FrameCells(s2.stk) == saved + {s.stk} + {s1.stk} + {s2.stk};
    assert s1.stk in saved + {s.stk} + {s1.stk} && s.stk in saved + {s.stk};
  }

  lemma TwoKept(s: Vm, s1: Vm, s2: Vm, l: Layout, more: set<Cell>)
    requires Guarded(s, l, more) && Kept(s, s1, l, more)
             && Guarded(s1, l, more + {s1.stk}) && Kept(s1, s2, l, more + {s1.stk})
    ensures Kept(s, s2, l, more)
  {
    UntouchedThrough(s, s1, s2, l, more, more + {s1.stk});
  }

  lemma OpenedFrame(turn: Turn, look: Looks, l: Layout, s: Vm, t: nat, saved: set<Cell>)
    requires Faithful(turn, look, l) && Guarded(s, l, saved) && Opened(turn, look, l, s, t, saved).Some?
    ensures InSegment(l, s.stk) && Framing(s, Opened(turn, look, l, s, t, saved).value, l, saved)
  {
    var s1 := turn(s, t).value;
    var s2 := turn(s1, t + 1).value;
    var c, c1 := look(s, t).after, look(s1, t + 1).after;
    assert FrameTurn(look(s, t).kind, c, l, s1) && FrameTurn(look(s1, t + 1).kind, c1, l, s2);
    TwoPushes(l, s, c, s1, c1, s2, saved);
  }

  lemma UntouchedThrough(s: Vm, s2: Vm, s3: Vm, l: Layout, saved: set<Cell>, inside: set<Cell>)
    requires Guarded(s, l, saved) && Guarded(s2, l, inside) && Segment(s3, l) && saved <= inside
    requires Untouched(s, s2, l, saved) && Untouched(s2, s3, l, inside)
    ensures Untouched(s, s3, l, saved)
  {
    forall v | v in saved
      ensures At(s3, l, v) == At(s, l, v)
    {
      assert v in inside;
    }
  }

  /** OP_RETN from a machine that kept the frame undoes the call, whatever is in FRM. */
  lemma ReturnFrame(s: Vm, s2: Vm, s3: Vm, c3: Vm, s4: Vm, l: Layout, saved: set<Cell>)
    requires Guarded(s, l, saved) && InSegment(l, s.stk) && Framing(s, s2, l, saved)
    requires Kept(s2, s3, l, saved + FrameCells(s2.stk)) && s3.stk == s2.stk
    requires Kept(s3, c3, l, saved + FrameCells(s2.stk)) && c3.stk == s3.stk
    requires FrameTurn(Returns, c3, l, s4) && Segment(s4, l) && SizeFits(s, l, saved)
    ensures CallReturned(s, s4, l) && Kept(s, s4, l, saved)
  {
    KeptThrough(s2, s3, c3, l, saved + FrameCells(s2.stk));
    FrameSurvives(s, s2, c3, l, saved);
    UntouchedThrough(s, s2, c3, l, saved, saved + FrameCells(s2.stk));
  }

  /** The body leaves the three cells of its frame as OP_CALL and OP_PROC made them. */
  lemma FrameSurvives(s: Vm, s2: Vm, s3: Vm, l: Layout, saved: set<Cell>)
    requires Guarded(s, l, saved) && InSegment(l, s.stk) && Framing(s, s2, l, saved)
    requires Kept(s2, s3, l, saved + FrameCells(s2.stk))
    ensures At(s3, l, s2.stk) == s.frm
    ensures At(s3, l, s2.stk + 8) == Plus(s.cip, 16)
    ensures At(s3, l, s2.stk + 16) == At(s, l, s.stk)
  {
    var inside := saved + FrameCells(s2.stk);
    var stk := s2.stk;
    assert stk in inside && stk + 8 in inside && stk + 16 in inside;
  }

  /** A call whose body kept the frame returns with the caller's frame restored, just
      after the call, and exactly the arguments and their size popped. */
  lemma CallIsUndone(turn: Turn, look: Looks, l: Layout, s: Vm, t: nat, s2: Vm, s3: Vm, t3: nat, saved: set<Cell>)
    requires Faithful(turn, look, l) && Guarded(s, l, saved) && Invokes(turn, look, l, s, t, s2, s3, t3, saved)
    requires Kept(s2, s3, l, saved + FrameCells(s2.stk))
    ensures InSegment(l, s.stk)
    ensures CallReturned(s, turn(s3, t3).value, l) && Kept(s, turn(s3, t3).value, l, saved)
  {
    OpenedFrame(turn, look, l, s, t, saved);
    var s4, c3 := turn(s3, t3).value, look(s3, t3).after;
    assert FrameTurn(look(s3, t3).kind, c3, l, s4);
    ReturnFrame(s, s2, s3, c3, s4, l, saved);
  }

  ghost function Keeping(l: Layout): Keeper {
    (s: Vm, s1: Vm, saved: set<Cell>) => Guarded(s, l, saved) && Kept(s, s1, l, saved)
  }

  lemma CallTurnKeeps(turn: Turn, look: Looks, l: Layout, s: Vm, t: nat, s2: Vm, s3: Vm, t3: nat, saved: set<Cell>)
    requires Faithful(turn, look, l)
    ensures CallKeeps(turn, CallTurns(turn, look, l), Keeping(l), s, t, s2, s3, t3, saved)
  {
    if CallTurns(turn, look, l)(s, t, s2, s3, t3, saved) && Keeping(l)(s2, s3, saved + FrameCells(s2.stk)) {
      CallIsUndone(turn, look, l, s, t, s2, s3, t3, saved);
    }
  }

  lemma KeepingOn(l: Layout, s: Vm, s1: Vm, s2: Vm, saved: set<Cell>)
    ensures KeepsOn(Keeping(l), s, s1, s2, saved)
  {
    if Keeping(l)(s, s1, saved) && Keeping(l)(s1, s2, saved) {
      KeptThrough(s, s1, s2, l, saved);
    }
  }

  lemma DisciplineKeeps(turn: Turn, look: Looks, l: Layout)
    requires Faithful(turn, look, l)
    ensures AllKeep(turn, PlainTurns(turn, l), CallTurns(turn, look, l), Keeping(l))
  {
    forall s: Vm, t: nat, s2: Vm, s3: Vm, t3: nat, saved: set<Cell>
      ensures CallKeeps(turn, CallTurns(turn, look, l), Keeping(l), s, t, s2, s3, t3, saved)
    {
      CallTurnKeeps(turn, look, l, s, t, s2, s3, t3, saved);
    }
    forall s: Vm, s1: Vm, s2: Vm, saved: set<Cell>
      ensures KeepsOn(Keeping(l), s, s1, s2, saved)
    {
      KeepingOn(l, s, s1, s2, saved);
    }
  }

  /** A disciplined run keeps the saved cells of every live frame. */
  lemma RunKeepsFrames(turn: Turn, look: Looks, l: Layout, tr: Trace, s: Vm, t: nat, saved: set<Cell>, s1: Vm, t1: nat)
    requires Faithful(turn, look, l) && Guarded(s, l, saved)
    requires Disciplined(turn, look, l, tr, s, t, saved, s1, t1)
    ensures Kept(s, s1, l, saved)
  {
    DisciplineKeeps(turn, look, l);
    assert Keeping(l)(s, s, saved);
    FollowKeeps(turn, PlainTurns(turn, l), CallTurns(turn, look, l), Keeping(l), tr, s, t, saved, s1, t1);
    assert Keeping(l)(s, s1, saved);
  }

  /** Every call in a disciplined run, at any depth, returns with the caller's frame
      restored, just after the call, and exactly the arguments and their size popped. */
  lemma InvokeReturns(turn: Turn, look: Looks, l: Layout, body: Trace, s: Vm, t: nat, saved: set<Cell>,
                      s2: Vm, s3: Vm, t3: nat)
    requires Faithful(turn, look, l) && Guarded(s, l, saved)
    requires Invokes(turn, look, l, s, t, s2, s3, t3, saved)
    requires Disciplined(turn, look, l, body, s2, t + 2, saved + FrameCells(s2.stk), s3, t3)
    ensures InSegment(l, s.stk)
    ensures CallReturned(s, turn(s3, t3).value, l) && Kept(s, turn(s3, t3).value, l, saved)
  {
    RunKeepsFrames(turn, look, l, body, s2, t + 2, saved + FrameCells(s2.stk), s3, t3);
    CallIsUndone(turn, look, l, s, t, s2, s3, t3, saved);
  }

  // ----- host calls -----

  /** The loop of call_raw takes the turns of a disciplined run. */
  lemma LoopDisciplined(turn: Turn, loop: Looper, look: Looks, l: Layout, tr: Trace, s: Vm, t: nat,
                        saved: set<Cell>, s1: Vm, t1: nat, rest: nat)
    requires TakesTurns(turn, loop) && Disciplined(turn, look, l, tr, s, t, saved, s1, t1)
    ensures Reaches(loop, s, t, s1, t1, rest)
  {
    assert AllGo(turn, PlainTurns(turn, l), CallTurns(turn, look, l));
    LoopFollows(turn, loop, PlainTurns(turn, l), CallTurns(turn, look, l), tr, s, t, saved, s1, t1, rest);
  }

  lemma {:induction false} ArgsPushed(s: Vm, l: Layout, args: seq<Cell>)
    requires Segment(s, l) && PushArgs(s, args).Ok?
    ensures var s1 := PushArgs(s, args).value;
            Segment(s1, l) && s1.stk == s.stk - 8 * |args| && s1.frm == s.frm
    decreases |args|
  {
    if args != [] {
      var x := args[|args| - 1];
      PushIsPushed(s, l, x);
      ArgsPushed(Push(s, x).value, l, args[..|args| - 1]);
    }
  }

  /** The function entered at e, with a return address and the argument size on the stack,
      runs OP_PROC, a disciplined and balanced body that ends in machine s3 at turn t3,
      and OP_RETN. */
  ghost predicate BodyRuns(turn: Turn, look: Looks, l: Layout, body: Trace, e: Vm, s3: Vm, t3: nat) {
    && Guarded(e, l, {Plus(e.stk, 8)} + {e.stk}) && Begins(turn, look, l, Enters, e, 0, {Plus(e.stk, 8)} + {e.stk})
    && var s2 := turn(e, 0).value;
    && Guarded(s2, l, FrameCells(s2.stk))
    && Disciplined(turn, look, l, body, s2, 1, FrameCells(s2.stk), s3, t3)
    && CanReturn(turn, look, l, s2, s3, t3, {})
  }

  /** The body leaves its frame's cells, and so does the callback before OP_RETN. */
  lemma BodyKeeps(turn: Turn, look: Looks, l: Layout, body: Trace, e: Vm, s3: Vm, t3: nat)
    requires Faithful(turn, look, l) && BodyRuns(turn, look, l, body, e, s3, t3)
    ensures var s2, c3 := turn(e, 0).value, look(s3, t3).after;
            && s3.stk == s2.stk == c3.stk && Kept(s2, s3, l, {} + FrameCells(s2.stk))
            && Guarded(s3, l, {} + FrameCells(s2.stk)) && Kept(s3, c3, l, {} + FrameCells(s2.stk))
            && FrameTurn(Returns, c3, l, turn(s3, t3).value) && Segment(turn(s3, t3).value, l)
  {
    var s2, c3 := turn(e, 0).value, look(s3, t3).after;
    assert {} + FrameCells(s2.stk) == FrameCells(s2.stk);
    RunKeepsFrames(turn, look, l, body, s2, 1, FrameCells(s2.stk), s3, t3);
    assert FrameTurn(look(s3, t3).kind, c3, l, turn(s3, t3).value);
  }

  lemma EntryFraming(turn: Turn, look: Looks, l: Layout, caller: Vm, e: Vm)
    requires Faithful(turn, look, l) && Segment(caller, l) && InSegment(l, caller.stk) && Segment(e, l)
    requires Pushed(caller, l, e, 0) && e.frm == caller.frm && Plus(caller.cip, 16) == 0
    requires var cells := {Plus(e.stk, 8)} + {e.stk};
             Guarded(e, l, cells) && Begins(turn, look, l, Enters, e, 0, cells)
    ensures Framing(caller, turn(e, 0).value, l, {})
  {
    var s2, ce := turn(e, 0).value, look(e, 0).after;
    assert FrameTurn(look(e, 0).kind, ce, l, s2);
    EntryCells(caller, e, l);
    TwoPushes(l, caller, caller, e, ce, s2, {});
  }

  lemma EntryCells(c: Vm, e: Vm, l: Layout)
    requires Segment(c, l) && InSegment(l, c.stk) && Pushed(c, l, e, 0)
    ensures {Plus(e.stk, 8)} + {e.stk} == {} + {c.stk} + {e.stk}
  {
  }

  /** As if an OP_CALL just below the top of the address space had pushed the zero. */
  lemma AsCaller(c: Vm, e: Vm, l: Layout) returns (caller: Vm)
    requires Segment(c, l) && InSegment(l, c.stk) && Pushed(c, l, e, 0)
    ensures Segment(caller, l) && Pushed(caller, l, e, 0) && Plus(caller.cip, 16) == 0
    ensures caller.stk == c.stk && caller.frm == c.frm && At(caller, l, c.stk) == At(c, l, c.stk)
  {
    caller := c.(cip := 0xFFFF_FFFF_FFFF_FFF0);
  }

  /** The return undoes what entered the body. */
  lemma BodyUndone(turn: Turn, look: Looks, l: Layout, body: Trace, caller: Vm, e: Vm, s3: Vm, t3: nat)
    requires Faithful(turn, look, l) && Segment(caller, l) && InSegment(l, caller.stk) && Segment(e, l)
    requires Pushed(caller, l, e, 0) && e.frm == caller.frm && Plus(caller.cip, 16) == 0
    requires BodyRuns(turn, look, l, body, e, s3, t3)
    ensures CallReturned(caller, turn(s3, t3).value, l)
  {
    EntryFraming(turn, look, l, caller, e);
    BodyKeeps(turn, look, l, body, e, s3, t3);
    ReturnFrame(caller, turn(e, 0).value, s3, look(s3, t3).after, turn(s3, t3).value, l, {});
  }

  /** From a size cell and a zero return address on the stack: frame and stack are
      restored, the size and its arguments popped, and control goes to address zero. */
  lemma BodyReturns(turn: Turn, look: Looks, l: Layout, body: Trace, c: Vm, e: Vm, s3: Vm, t3: nat)
    requires Faithful(turn, look, l) && Segment(c, l) && InSegment(l, c.stk) && Segment(e, l)
    requires Pushed(c, l, e, 0) && e.frm == c.frm
    requires BodyRuns(turn, look, l, body, e, s3, t3)
    ensures var s4 := turn(s3, t3).value;
            s4.cip == 0 && s4.frm == c.frm && s4.stk == Plus(c.stk, Plus(At(c, l, c.stk), 8))
  {
    var caller := AsCaller(c, e, l);
    BodyUndone(turn, look, l, body, caller, e, s3, t3);
  }

  /** A loop over the turns gets to where the body returns to. */
  lemma BodyPath(turn: Turn, loop: Looper, look: Looks, l: Layout, body: Trace, e: Vm, s3: Vm, t3: nat, rest: nat)
    requires TakesTurns(turn, loop) && BodyRuns(turn, look, l, body, e, s3, t3)
    ensures Reaches(loop, e, 0, turn(s3, t3).value, t3 + 1, rest)
  {
    var s2 := turn(e, 0).value;
    LoopDisciplined(turn, loop, look, l, body, s2, 1, FrameCells(s2.stk), s3, t3, 1 + rest);
    BodyReaches(turn, loop, e, s2, s3, t3, rest);
  }

  /** It enters the body, runs it, leaves it, and stops at address zero. */
  lemma BodyLoops(turn: Turn, loop: Looper, look: Looks, l: Layout, body: Trace, e: Vm, s3: Vm, t3: nat, fuel: nat)
    requires TakesTurns(turn, loop) && StopsAtZero(loop)
    requires BodyRuns(turn, look, l, body, e, s3, t3) && fuel > t3 && turn(s3, t3).value.cip == 0
    ensures loop(e, 0, fuel) == Returned(turn(s3, t3).value)
  {
    BodyPath(turn, loop, look, l, body, e, s3, t3, fuel - (t3 + 1));
    ReachesEnd(loop, e, turn(s3, t3).value, t3 + 1, fuel);
  }

  lemma TurnsAreFaithful(env: Env, l: Layout)
    requires GoodHost(env)
    ensures Faithful(Turns(env), TurnLooks(env), l)
  {
    forall s: Vm, t: nat | Segment(s, l) && Turns(env)(s, t).Ok?
      ensures SameFrame(s, TurnLooks(env)(s, t).after) && Segment(Turns(env)(s, t).value, l)
      ensures FrameTurn(TurnLooks(env)(s, t).kind, TurnLooks(env)(s, t).after, l, Turns(env)(s, t).value)
    {
      TurnIsFrameTurn(s, env, t, l);
    }
  }

  lemma CallIsLoop(s: Vm, cip: Cell, args: seq<Cell>, env: Env, fuel: nat, e: Vm)
    requires CallEntry(s, cip, args) == Ok(e)
    ensures CallFunction(s, cip, args, env, fuel) == Loops(Turns(env))(e, 0, fuel)
  {
  }

  /** The machine just before the zero return address is pushed: the argument size
      is on top of the stack. */
  lemma EntryShape(s: Vm, cip: Cell, args: seq<Cell>, l: Layout, e: Vm) returns (c: Vm)
    requires Segment(s, l) && CallEntry(s, cip, args) == Ok(e)
    ensures Segment(c, l) && InSegment(l, c.stk) && Segment(e, l) && Pushed(c, l, e, 0)
    ensures e.frm == c.frm == s.frm
    ensures Plus(c.stk, Plus(At(c, l, c.stk), 8)) == s.stk
  {
    var s1 := PushArgs(s, args).value;
    ArgsPushed(s, l, args);
    var size := Wrap(8 * |args|);
    PushIsPushed(s1, l, size);
    c := Push(s1, size).value;
    PushedTop(s1, l, c, size);
    PushIsPushed(c, l, 0);
    SizePops(s.stk, |args|, c.stk);
  }

  lemma PushedTop(s: Vm, l: Layout, s1: Vm, x: Cell)
    requires Pushed(s, l, s1, x)
    ensures Segment(s1, l) && At(s1, l, s1.stk) == x
  {
  }

  lemma SizePops(stk: Cell, n: nat, top: Cell)
    requires top == stk - 8 * n - 8
    ensures Plus(top, Plus(Wrap(8 * n), 8)) == stk
  {
  }

  /** A host call of a disciplined function, with whatever nesting of calls inside,
      returns with FRM and STK as they were before it. */
  lemma HostCallRestores(s: Vm, cip: Cell, args: seq<Cell>, env: Env, l: Layout, e: Vm,
                         body: Trace, s3: Vm, t3: nat, fuel: nat)
    requires GoodHost(env) && Segment(s, l) && CallEntry(s, cip, args) == Ok(e)
    requires BodyRuns(Turns(env), TurnLooks(env), l, body, e, s3, t3) && fuel > t3
    ensures var end := CallFunction(s, cip, args, env, fuel);
            end.Returned? && end.vm.frm == s.frm && end.vm.stk == s.stk
  {
    var c := EntryShape(s, cip, args, l, e);
    TurnsAreFaithful(env, l);
    BodyReturns(Turns(env), TurnLooks(env), l, body, c, e, s3, t3);
    LoopTakesTurns(Turns(env));
    BodyLoops(Turns(env), Loops(Turns(env)), TurnLooks(env), l, body, e, s3, t3, fuel);
    CallIsLoop(s, cip, args, env, fuel, e);
  }
}

/** The shape of a run with nested calls, and what every run of such a shape keeps, given
    what plain turns and calls keep. */
module Traces {
  import opened Cells
  import opened Machine

  /** Plain turns and calls; a call with the machine that entered the callee, the run of its
      body, and the machine and turn about to return. */
  datatype Trace = Done | Plain(next: Trace) | Invoke(entry: Vm, body: Trace, exit: Vm, turns: nat, next: Trace)

  /** The number of items in a trace, bodies included. */
  function Depth(tr: Trace): nat {
    match tr
    case Done => 0
    case Plain(next) => 1 + Depth(next)
    case Invoke(_, body, _, _, next) => 1 + Depth(body) + Depth(next)
  }

  /** The machine after a turn that goes through. */
  function Next(turn: Turn, s: Vm, t: nat): Vm {
    if turn(s, t).Ok? then turn(s, t).value else s
  }

  /** The saved cells of a call whose callee has just pushed FRM: FRM, return address, argument size. */
  function FrameCells(stk: Cell): set<Cell> {
    {stk, Plus(stk, 8), Plus(stk, 16)}
  }

  /** Which plain turns, and which ends of calls, a discipline allows while the given
      cells are saved. */
  type PlainRule = (Vm, nat, set<Cell>) -> bool

  type CallRule = (Vm, nat, Vm, Vm, nat, set<Cell>) -> bool

  /** The run from s at turn t follows the trace to s1 at turn t1 with discipline. A call
      takes two turns to enter its body and one to leave it. */
  ghost predicate Follows(turn: Turn, plain: PlainRule, call: CallRule, tr: Trace, s: Vm, t: nat, saved: set<Cell>,
                          s1: Vm, t1: nat)
    decreases tr
  {
    match tr
    case Done => s1 == s && t1 == t
    case Plain(next) => plain(s, t, saved) && Follows(turn, plain, call, next, Next(turn, s, t), t + 1, saved, s1, t1)
    case Invoke(s2, body, s3, t3, next) =>
      && call(s, t, s2, s3, t3, saved)
      && Follows(turn, plain, call, body, s2, t + 2, saved + FrameCells(s2.stk), s3, t3)
      && Follows(turn, plain, call, next, Next(turn, s3, t3), t3 + 1, saved, s1, t1)
  }

  // ----- what is kept -----

  /** The second machine keeps what the first has saved; a machine that keeps its own
      saved cells is a good place to start. */
  type Keeper = (Vm, Vm, set<Cell>) -> bool

  ghost predicate PlainKeeps(turn: Turn, plain: PlainRule, keep: Keeper, s: Vm, t: nat, saved: set<Cell>) {
    var s' := Next(turn, s, t);
    plain(s, t, saved) ==> keep(s, s', saved) && keep(s', s', saved)
  }

  ghost predicate CallKeeps(turn: Turn, call: CallRule, keep: Keeper, s: Vm, t: nat, s2: Vm, s3: Vm,
                            t3: nat, saved: set<Cell>) {
    var s4, inside := Next(turn, s3, t3), saved + FrameCells(s2.stk);
    call(s, t, s2, s3, t3, saved) ==>
      keep(s2, s2, inside) && (keep(s2, s3, inside) ==> keep(s, s4, saved) && keep(s4, s4, saved))
  }

  ghost predicate KeepsOn(keep: Keeper, s: Vm, s1: Vm, s2: Vm, saved: set<Cell>) {
    keep(s, s1, saved) && keep(s1, s2, saved) ==> keep(s, s2, saved)
  }

  ghost predicate AllKeep(turn: Turn, plain: PlainRule, call: CallRule, keep: Keeper) {
    && (forall s: Vm, t: nat, saved: set<Cell> :: PlainKeeps(turn, plain, keep, s, t, saved))
    && (forall s: Vm, t: nat, s2: Vm, s3: Vm, t3: nat, saved: set<Cell> ::
        CallKeeps(turn, call, keep, s, t, s2, s3, t3, saved))
    && (forall s: Vm, s1: Vm, s2: Vm, saved: set<Cell> :: KeepsOn(keep, s, s1, s2, saved))
  }

  /** What plain turns and calls keep, every disciplined run keeps. */
  lemma {:induction false} FollowKeeps(turn: Turn, plain: PlainRule, call: CallRule, keep: Keeper, tr: Trace,
                                       s: Vm, t: nat, saved: set<Cell>, s1: Vm, t1: nat)
    requires AllKeep(turn, plain, call, keep) && keep(s, s, saved)
    requires Follows(turn, plain, call, tr, s, t, saved, s1, t1)
    ensures keep(s, s1, saved)
    decreases Depth(tr)
  {
    match tr
    case Done =>
    case Plain(next) =>
      var s' := Next(turn, s, t);
      assert PlainKeeps(turn, plain, keep, s, t, saved);
      FollowKeeps(turn, plain, call, keep, next, s', t + 1, saved, s1, t1);
      assert KeepsOn(keep, s, s', s1, saved);
    case Invoke(s2, body, s3, t3, next) =>
      var s4 := Next(turn, s3, t3);
      assert CallKeeps(turn, call, keep, s, t, s2, s3, t3, saved);
      FollowKeeps(turn, plain, call, keep, body, s2, t + 2, saved + FrameCells(s2.stk), s3, t3);
      FollowKeeps(turn, plain, call, keep, next, s4, t3 + 1, saved, s1, t1);
      assert KeepsOn(keep, s, s4, s1, saved);
  }

  // ----- the loop takes the turns of a trace -----

  /** A loop over turns, as a function of machine, turn number and fuel. */
  type Looper = (Vm, nat, nat) -> Ending

  function Loops(turn: Turn): Looper {
    (s: Vm, t: nat, fuel: nat) => Loop(turn, s, t, fuel)
  }

  ghost predicate TakesTurn(turn: Turn, loop: Looper, s: Vm, t: nat, fuel: nat) {
    fuel > 0 && s.cip != 0 && turn(s, t).Ok? ==> loop(s, t, fuel) == loop(turn(s, t).value, t + 1, fuel - 1)
  }

  ghost predicate TakesTurns(turn: Turn, loop: Looper) {
    forall s: Vm, t: nat, fuel: nat :: TakesTurn(turn, loop, s, t, fuel)
  }

  ghost predicate StopsAtZero(loop: Looper) {
    forall s: Vm, t: nat, fuel: nat :: s.cip == 0 ==> loop(s, t, fuel) == Returned(s)
  }

  /** The loop of call_raw is such a loop. */
  lemma LoopTakesTurns(turn: Turn)
    ensures TakesTurns(turn, Loops(turn)) && StopsAtZero(Loops(turn))
  {
  }

  /** The loop gets from s to s1, turn t to turn t1, with fuel rest to spare. */
  ghost predicate Reaches(loop: Looper, s: Vm, t: nat, s1: Vm, t1: nat, rest: nat) {
    t1 >= t && loop(s, t, t1 - t + rest) == loop(s1, t1, rest)
  }

  lemma ReachesOnce(turn: Turn, loop: Looper, s: Vm, t: nat, s1: Vm, t1: nat, rest: nat)
    requires TakesTurns(turn, loop)
    requires s.cip != 0 && turn(s, t).Ok? && Reaches(loop, turn(s, t).value, t + 1, s1, t1, rest)
    ensures Reaches(loop, s, t, s1, t1, rest)
  {
    assert TakesTurn(turn, loop, s, t, t1 - t + rest);
  }

  lemma ReachesThen(loop: Looper, s: Vm, t: nat, s1: Vm, t1: nat, s2: Vm, t2: nat, rest: nat)
    requires Reaches(loop, s1, t1, s2, t2, rest) && Reaches(loop, s, t, s1, t1, t2 - t1 + rest)
    ensures Reaches(loop, s, t, s2, t2, rest)
  {
  }

  lemma ReachesEnd(loop: Looper, s: Vm, s1: Vm, t1: nat, fuel: nat)
    requires StopsAtZero(loop) && s1.cip == 0 && fuel >= t1 && Reaches(loop, s, 0, s1, t1, fuel - t1)
    ensures loop(s, 0, fuel) == Returned(s1)
  {
  }

  /** The turn goes through. */
  ghost predicate Goes(turn: Turn, s: Vm, t: nat) {
    s.cip != 0 && turn(s, t).Ok?
  }

  ghost predicate PlainGoes(turn: Turn, plain: PlainRule, s: Vm, t: nat, saved: set<Cell>) {
    plain(s, t, saved) ==> Goes(turn, s, t)
  }

  ghost predicate CallGoes(turn: Turn, call: CallRule, s: Vm, t: nat, s2: Vm, s3: Vm, t3: nat, saved: set<Cell>) {
    var s1 := Next(turn, s, t);
    call(s, t, s2, s3, t3, saved) ==>
      Goes(turn, s, t) && Goes(turn, s1, t + 1) && Next(turn, s1, t + 1) == s2 && Goes(turn, s3, t3)
  }

  ghost predicate AllGo(turn: Turn, plain: PlainRule, call: CallRule) {
    && (forall s: Vm, t: nat, saved: set<Cell> :: PlainGoes(turn, plain, s, t, saved))
    && (forall s: Vm, t: nat, s2: Vm, s3: Vm, t3: nat, saved: set<Cell> ::
        CallGoes(turn, call, s, t, s2, s3, t3, saved))
  }

  /** The loop takes the turns of a followed trace. */
  lemma {:induction false} LoopFollows(turn: Turn, loop: Looper, plain: PlainRule, call: CallRule, tr: Trace,
                                       s: Vm, t: nat, saved: set<Cell>, s1: Vm, t1: nat, rest: nat)
    requires TakesTurns(turn, loop) && AllGo(turn, plain, call)
    requires Follows(turn, plain, call, tr, s, t, saved, s1, t1)
    ensures Reaches(loop, s, t, s1, t1, rest)
    decreases Depth(tr)
  {
    match tr
    case Done =>
    case Plain(next) =>
      assert PlainGoes(turn, plain, s, t, saved);
      LoopFollows(turn, loop, plain, call, next, Next(turn, s, t), t + 1, saved, s1, t1, rest);
      ReachesOnce(turn, loop, s, t, s1, t1, rest);
    case Invoke(s2, body, s3, t3, next) =>
      assert CallGoes(turn, call, s, t, s2, s3, t3, saved);
      LoopFollows(turn, loop, plain, call, next, Next(turn, s3, t3), t3 + 1, saved, s1, t1, rest);
      ReachesOnce(turn, loop, s3, t3, s1, t1, rest);
      LoopFollows(turn, loop, plain, call, body, s2, t + 2, saved + FrameCells(s2.stk), s3, t3, t1 - t3 + rest);
      ReachesThen(loop, s2, t + 2, s3, t3, s1, t1, rest);
      ReachesOnce(turn, loop, Next(turn, s, t), t + 1, s1, t1, rest);
      ReachesOnce(turn, loop, s, t, s1, t1, rest);
  }

  /** A turn into a body, the body, and a turn out of it. */
  lemma BodyReaches(turn: Turn, loop: Looper, e: Vm, s2: Vm, s3: Vm, t3: nat, rest: nat)
    requires TakesTurns(turn, loop) && Goes(turn, e, 0) && Next(turn, e, 0) == s2 && Goes(turn, s3, t3)
    requires Reaches(loop, s2, 1, s3, t3, 1 + rest)
    ensures Reaches(loop, e, 0, Next(turn, s3, t3), t3 + 1, rest)
  {
    var s4 := Next(turn, s3, t3);
    assert Reaches(loop, s4, t3 + 1, s4, t3 + 1, rest);
    ReachesOnce(turn, loop, s3, t3, s4, t3 + 1, rest);
    ReachesThen(loop, s2, 1, s3, t3, s4, t3 + 1, rest);
    ReachesOnce(turn, loop, e, 0, s4, t3 + 1, rest);
  }
}

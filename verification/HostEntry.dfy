/** How the host enters a function: the words on its stack, and when they fit. */
module HostEntry {
  import opened Cells
  import opened Machine
  import opened Simulation
  import opened CallDiscipline

  /** s1 is s with the words on top of the stack, the first one topmost; no other host
      cell and no other register is changed. */
  ghost predicate Laid(s: Vm, s1: Vm, l: Layout, words: seq<Cell>) {
    && Segment(s1, l) && |s1.mem.host| == |s.mem.host|
    && s1 == s.(stk := s1.stk, mem := s.mem.(host := s1.mem.host))
    && s1.stk == s.stk - 8 * |words|
    && (words != [] ==> InSegment(l, s1.stk) && InSegment(l, s.stk - 8))
    && (forall i :: 0 <= i < |words| ==> s1.mem.host[l.data + s1.stk / 8 + i] == words[i])
    && (forall p :: 0 <= p < |s.mem.host| && !(l.data + s1.stk / 8 <= p < l.data + s1.stk / 8 + |words|) ==>
          s1.mem.host[p] == s.mem.host[p])
  }

  lemma LaidNone(s: Vm, l: Layout)
    requires Segment(s, l)
    ensures Laid(s, s, l, [])
  {
  }

  /** A push puts a word in front of those already laid. */
  lemma LaidOne(s: Vm, s1: Vm, l: Layout, words: seq<Cell>, x: Cell)
    requires Segment(s, l) && Laid(s, s1, l, words) && Push(s1, x).Ok?
    ensures Laid(s, Push(s1, x).value, l, [x] + words)
  {
    PushIsPushed(s1, l, x);
    var s2 := Push(s1, x).value;
    assert s1.stk == s2.stk + 8 && s1.stk / 8 == s2.stk / 8 + 1;
    forall i | 0 <= i < |words| + 1
      ensures s2.mem.host[l.data + s2.stk / 8 + i] == ([x] + words)[i]
    {
      if i > 0 {
        assert s1.mem.host[l.data + s1.stk / 8 + (i - 1)] == words[i - 1];
      }
    }
  }

  lemma LastFirst(args: seq<Cell>, words: seq<Cell>)
    requires args != []
    ensures args[..|args| - 1] + ([args[|args| - 1]] + words) == args + words
  {
  }

  /** The arguments go on top of the words already there, the first one last. */
  lemma {:induction false} ArgsLaid(s: Vm, s1: Vm, l: Layout, words: seq<Cell>, args: seq<Cell>)
    requires Segment(s, l) && Laid(s, s1, l, words) && PushArgs(s1, args).Ok?
    ensures Laid(s, PushArgs(s1, args).value, l, args + words)
    decreases |args|
  {
    if args == [] {
      assert args + words == words;
    } else {
      var x, rest := args[|args| - 1], args[..|args| - 1];
      LaidOne(s, s1, l, words, x);
      ArgsLaid(s, Push(s1, x).value, l, [x] + words, rest);
      LastFirst(args, words);
    }
  }

  /** Pushing arguments in front of others is pushing those first. */
  lemma {:induction false} PushedInTurn(s: Vm, front: seq<Cell>, args: seq<Cell>)
    ensures PushArgs(s, front + args) ==
            match PushArgs(s, args)
            case Ok(s1) => PushArgs(s1, front)
            case other => other
    decreases |args|
  {
    if args == [] {
      assert front + args == front;
    } else {
      var x, rest := args[|args| - 1], args[..|args| - 1];
      assert (front + args)[..|front + args| - 1] == front + rest;
      if Push(s, x).Ok? {
        PushedInTurn(Push(s, x).value, front, rest);
      }
    }
  }

  lemma PushOne(s: Vm, y: Cell)
    ensures PushArgs(s, [y]) == Push(s, y)
  {
    assert [y][..0] == [];
    if Push(s, y).Ok? {
      assert PushArgs(Push(s, y).value, []) == Push(s, y);
    }
  }

  lemma PushTwo(s: Vm, y: Cell, x: Cell)
    ensures PushArgs(s, [y, x]) ==
            match Push(s, x)
            case Ok(s1) => Push(s1, y)
            case other => other
  {
    assert [y, x][..1] == [y];
    if Push(s, x).Ok? {
      PushOne(Push(s, x).value, y);
    }
  }

  /** A host call enters as if it pushed a zero, the size and the arguments in one go. */
  lemma EntryPushes(s: Vm, cip: Cell, args: seq<Cell>)
    ensures CallEntry(s, cip, args) ==
            match PushArgs(s, [0, Wrap(8 * |args|)] + args)
            case Ok(e) => Ok(e.(cip := cip))
            case other => other
  {
    PushedInTurn(s, [0, Wrap(8 * |args|)], args);
    if PushArgs(s, args).Ok? {
      PushTwo(PushArgs(s, args).value, 0, Wrap(8 * |args|));
    }
  }

  /** Word i lies i cells above the stack pointer. */
  lemma WordAt(s: Vm, e: Vm, l: Layout, words: seq<Cell>, i: nat)
    requires Laid(s, e, l, words) && i < |words|
    ensures InSegment(l, e.stk + 8 * i) && At(e, l, e.stk + 8 * i) == words[i]
  {
    assert (e.stk + 8 * i) / 8 == e.stk / 8 + i;
    assert e.mem.host[l.data + e.stk / 8 + i] == words[i];
  }

  lemma OtherCell(s: Vm, e: Vm, l: Layout, words: seq<Cell>, v: Cell)
    requires Segment(s, l) && Laid(s, e, l, words) && words != [] && InSegment(l, v) && !(e.stk <= v < s.stk)
    ensures At(e, l, v) == At(s, l, v)
  {
    assert v / 8 < e.stk / 8 || v / 8 >= e.stk / 8 + |words|;
  }

  /** The stack of a function that the host has just entered. */
  ghost predicate Entered(s: Vm, e: Vm, l: Layout, args: seq<Cell>)
    requires Segment(s, l)
  {
    && Segment(e, l) && e.stk == s.stk - 8 * (|args| + 2) && InSegment(l, e.stk) && InSegment(l, e.stk + 8)
    && At(e, l, e.stk) == 0 && At(e, l, e.stk + 8) == Wrap(8 * |args|)
    && (forall i :: 0 <= i < |args| ==>
          InSegment(l, e.stk + 16 + 8 * i) && At(e, l, e.stk + 16 + 8 * i) == args[i])
    && (forall v: Cell :: InSegment(l, v) && !(e.stk <= v < s.stk) ==> At(e, l, v) == At(s, l, v))
  }

  lemma LaidIsEntered(s: Vm, e: Vm, l: Layout, size: Cell, args: seq<Cell>)
    requires Segment(s, l) && Laid(s, e, l, [0, size] + args) && size == Wrap(8 * |args|)
    ensures Entered(s, e, l, args)
  {
    var words := [0, size] + args;
    WordAt(s, e, l, words, 0);
    WordAt(s, e, l, words, 1);
    forall i | 0 <= i < |args|
      ensures InSegment(l, e.stk + 16 + 8 * i) && At(e, l, e.stk + 16 + 8 * i) == args[i]
    {
      WordAt(s, e, l, words, 2 + i);
    }
    forall v: Cell | InSegment(l, v) && !(e.stk <= v < s.stk)
      ensures At(e, l, v) == At(s, l, v)
    {
      OtherCell(s, e, l, words, v);
    }
  }

  lemma EnteredAnywhere(s: Vm, e: Vm, l: Layout, args: seq<Cell>, cip: Cell)
    requires Segment(s, l) && Entered(s, e, l, args)
    ensures Entered(s, e.(cip := cip), l, args)
  {
    var e' := e.(cip := cip);
    assert forall v: Cell :: InSegment(l, v) ==> At(e', l, v) == At(e, l, v);
  }

  /** A host call enters its function with a zero return address, the size of the arguments
      and the arguments themselves, the first one on top; nothing else is changed. */
  lemma EntryLayout(s: Vm, cip: Cell, args: seq<Cell>, l: Layout, e: Vm)
    requires Segment(s, l) && CallEntry(s, cip, args) == Ok(e)
    ensures Entered(s, e, l, args)
    ensures e == s.(stk := e.stk, cip := cip, mem := s.mem.(host := e.mem.host))
    ensures |e.mem.host| == |s.mem.host|
    ensures forall p :: 0 <= p < |s.mem.host| && !(l.data <= p < l.data + l.dataLen) ==>
              e.mem.host[p] == s.mem.host[p]
  {
    var words := [0, Wrap(8 * |args|)] + args;
    EntryPushes(s, cip, args);
    var e0 := PushArgs(s, words).value;
    LaidNone(s, l);
    ArgsLaid(s, s, l, [], words);
    assert words + [] == words;
    LaidIsEntered(s, e0, l, Wrap(8 * |args|), args);
    EnteredAnywhere(s, e0, l, args, cip);
  }

  /** The call runs from there, or ends with the fault that kept it from being entered. */
  lemma CallStarts(s: Vm, cip: Cell, args: seq<Cell>, env: Env, fuel: nat)
    ensures var end := CallFunction(s, cip, args, env, fuel);
            match CallEntry(s, cip, args)
            case Ok(e) => end == Run(e, env, 0, fuel)
            case Stop(err, vm) => end.Failed? && end.err == err && end.vm.(cip := vm.cip) == vm
            case Undefined => end.NoMeaning?
  {
  }

  // ----- when the words fit -----

  /** There is room for n words below the stack pointer. */
  predicate Room(s: Vm, l: Layout, n: nat) {
    n > 0 ==> s.stk % 8 == 0 && 8 * n <= s.stk <= 8 * l.dataLen
  }

  ghost predicate OkOrFault(r: Result<Vm>, ok: bool) {
    if ok then r.Ok? else r.Stop? && r.err == AccessViolation
  }

  lemma PushRoom(s: Vm, x: Cell, l: Layout)
    requires Segment(s, l)
    ensures OkOrFault(Push(s, x), Room(s, l, 1))
    ensures Push(s, x).Ok? ==> Segment(Push(s, x).value, l) && Push(s, x).value.stk == s.stk - 8
  {
    var stk := Minus(s.stk, 8);
    DataAccess(s.(stk := stk), l, stk);
    MinusEight(s.stk);
    if Push(s, x).Ok? {
      PushIsPushed(s, l, x);
    }
  }

  lemma {:induction false} ArgsRoom(s: Vm, args: seq<Cell>, l: Layout)
    requires Segment(s, l)
    ensures OkOrFault(PushArgs(s, args), Room(s, l, |args|))
    decreases |args|
  {
    if args != [] {
      var x := args[|args| - 1];
      PushRoom(s, x, l);
      if Push(s, x).Ok? {
        ArgsRoom(Push(s, x).value, args[..|args| - 1], l);
      }
    }
  }

  /** A host call is entered exactly when its arguments, their size and the return address
      fit into the segment below the stack pointer; else it stops with a memory fault. */
  lemma EntryRoom(s: Vm, cip: Cell, args: seq<Cell>, l: Layout)
    requires Segment(s, l)
    ensures OkOrFault(CallEntry(s, cip, args), s.stk % 8 == 0 && 8 * (|args| + 2) <= s.stk <= 8 * l.dataLen)
  {
    EntryPushes(s, cip, args);
    ArgsRoom(s, [0, Wrap(8 * |args|)] + args, l);
  }
}

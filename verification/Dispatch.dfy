/** What a loaded image runs on: the machine that init sets up, and the callback
    through which OP_SYSREQ reaches the natives. */
module Dispatch {
  import opened LittleEndian
  import opened Cells
  import opened Memories
  import opened Machine
  import opened ImageLoader
  import opened LoaderObject
  import opened Simulation
  import opened RunInvariant

  /** The two segments of a loaded image in host memory. */
  function LoadedLayout(code: seq<Cell>, data: seq<Cell>): Layout {
    Layout(0, |code|, |code|, |data|)
  }

  lemma LoadedTranslation(s: Vm, code: seq<Cell>, data: seq<Cell>, heap: nat, v: Cell)
    requires |data| <= 0x8000_0000
    ensures var b := Booted(s, code, data, heap);
            && b.mem.data(Plus(b.dat, v)) == (if v % 8 == 0 && v < 8 * |data| then Some(|code| + v / 8) else None)
            && b.mem.code(v) == (if v < 8 * |code| then Some(v / 8) else None)
  {
    assert Plus(0, v) == v;
    if v < 0x800_0000_0000_0000 {
      assert PageIndex(v) == 0 && PageOffset(v) == v;
    } else {
      assert PageIndex(v) != 0;
    }
  }

  lemma LoadedApart(s: Vm, code: seq<Cell>, data: seq<Cell>, heap: nat)
    requires |data| <= 0x8000_0000
    ensures Separate(Booted(s, code, data, heap).mem)
  {
    var m := Booted(s, code, data, heap).mem;
    forall v: Cell
      ensures BelowOnly(m.code(v), |code|) && AboveOnly(m.data(v), |code|)
    {
      LoadedTranslation(s, code, data, heap, v);
      assert Plus(0, v) == v;
    }
    SplitIsSeparate(m, |code|);
  }

  predicate BelowOnly(p: Option<nat>, n: nat) {
    p.Some? ==> p.value < n
  }

  predicate AboveOnly(p: Option<nat>, n: nat) {
    p.Some? ==> p.value >= n
  }

  lemma SplitIsSeparate(m: Memory, n: nat)
    requires forall v: Cell :: BelowOnly(m.code(v), n) && AboveOnly(m.data(v), n)
    ensures Separate(m)
  {
    forall v: Cell, p: nat | m.Code(v) == Some(p)
      ensures !m.DataCell(p)
    {
      assert BelowOnly(m.code(v), n);
      forall w: Cell
        ensures m.Data(w) != Some(p)
      {
        assert AboveOnly(m.data(w), n);
      }
    }
  }

  /** The loaded machine has a strict data segment, holding exactly the image's data,
      apart from the code, and its stack starts at the last data cell. So everything
      proved about segments and Harvard runs applies to it. */
  lemma LoadedMachine(s: Vm, code: seq<Cell>, data: seq<Cell>, heap: nat)
    requires |code| <= 0x8000_0000 && |data| <= 0x8000_0000
    ensures var b, l := Booted(s, code, data, heap), LoadedLayout(code, data);
            && Segment(b, l) && Separate(b.mem)
            && b.mem.host[l.data..l.data + l.dataLen] == data
            && (forall k :: 0 <= k < |code| ==> CodeAt(b, 8 * k) == Some(code[k]))
            && b.stk == b.stp == Wrap(8 * (|data| - 1))
  {
    LoadedSegment(s, code, data, heap);
    LoadedApart(s, code, data, heap);
    forall k | 0 <= k < |code|
      ensures CodeAt(Booted(s, code, data, heap), 8 * k) == Some(code[k])
    {
      LoadedCode(s, code, data, heap, k);
    }
  }

  lemma LoadedSegment(s: Vm, code: seq<Cell>, data: seq<Cell>, heap: nat)
    requires |data| <= 0x8000_0000
    ensures Segment(Booted(s, code, data, heap), LoadedLayout(code, data))
  {
    var b := Booted(s, code, data, heap);
    forall v: Cell
      ensures b.mem.data(Plus(b.dat, v)) == (if v % 8 == 0 && v < 8 * |data| then Some(|code| + v / 8) else None)
    {
      LoadedTranslation(s, code, data, heap, v);
    }
  }

  lemma LoadedCode(s: Vm, code: seq<Cell>, data: seq<Cell>, heap: nat, k: nat)
    requires k < |code| <= 0x8000_0000 && |data| <= 0x8000_0000
    ensures CodeAt(Booted(s, code, data, heap), 8 * k) == Some(code[k])
  {
    LoadedTranslation(s, code, data, heap, 8 * k);
    assert Plus(Booted(s, code, data, heap).cod, 8 * k) == 8 * k;
  }

  lemma LoadedCodeIsLoose(s: Vm, code: seq<Cell>, data: seq<Cell>, heap: nat)
    requires |data| <= 0x8000_0000
    ensures var b := Booted(s, code, data, heap);
            Loose(b.mem.code, b.cod, 0, |code|)
  {
    var b := Booted(s, code, data, heap);
    forall v: Cell
      ensures b.mem.code(Plus(b.cod, v)) == (if v < 8 * |code| then Some(v / 8) else None)
    {
      LoadedTranslation(s, code, data, heap, v);
      assert Plus(b.cod, v) == v;
    }
  }

  /** It is one of the paged machines of the simulation: contiguous code, data on a page. */
  lemma LoadedPaged(s: Vm, code: seq<Cell>, data: seq<Cell>, heap: nat)
    requires |data| <= 0x8000_0000
    ensures PagedHarvard(Booted(s, code, data, heap), LoadedLayout(code, data))
  {
    LoadedSegment(s, code, data, heap);
    LoadedCodeIsLoose(s, code, data, heap);
  }

  /** The machine with its data through a contiguous buffer instead. */
  function OnContiguous(s: Vm, l: Layout): Vm {
    s.(dat := 0, mem := Memory(s.mem.host, s.mem.code, Contiguous(Some(l.data), 8 * l.dataLen).Translate))
  }

  lemma LoadedFlat(s: Vm, code: seq<Cell>, data: seq<Cell>, heap: nat)
    requires |data| <= 0x8000_0000
    ensures var l := LoadedLayout(code, data);
            FlatHarvard(OnContiguous(Booted(s, code, data, heap), l), l)
  {
    LoadedCodeIsLoose(s, code, data, heap);
    ContiguousIsLoose(Contiguous(Some(|code|), 8 * |data|), |code|, |data|);
  }

  /** The two are related by the simulation. */
  lemma LoadedRelated(s: Vm, code: seq<Cell>, data: seq<Cell>, heap: nat)
    requires |data| <= 0x8000_0000
    ensures var b, l := Booted(s, code, data, heap), LoadedLayout(code, data);
            Sim(l, l, b, OnContiguous(b, l))
  {
    LoadedPaged(s, code, data, heap);
    LoadedFlat(s, code, data, heap);
  }

  // ----- callbacks -----

  type Hook = (nat, Vm) -> (Error, Vm)

  /** By callback number and turn, with argument count and argument address. */
  type Native = (nat, nat, Cell, Cell, Vm) -> (Error, Vm)

  /** The host's functions: the two optional hooks and the natives by callback
      number, with argument count and argument address. */
  datatype HostFns = HostFns(onStep: Option<Hook>, onBreak: Option<Hook>, native: Native)

  /** amx_callback: hooks, then the native table with its bounds check. */
  function AmxCallback(host: HostFns, natives: seq<nat>, t: nat, index: Cell, s: Vm): (Error, Vm) {
    if index == SINGLE_STEP then
      if host.onStep.Some? then host.onStep.value(t, s) else (Success, s)
    else if index == BREAK_CALLBACK then
      if host.onBreak.Some? then host.onBreak.value(t, s) else (Success, s)
    else if index >= |natives| then (InvalidOperand, s)
    else
      var p := s.DataPtr(s.stk);
      if p.None? then (AccessViolation, s)
      else host.native(natives[index], t, s.mem.host[p.value] / 8, Plus(s.stk, 8), s)
  }

  function EnvOf(host: HostFns, natives: seq<nat>): Env {
    (t: nat, index: Cell, s: Vm) => AmxCallback(host, natives, t, index, s)
  }

  /** The highest index runs the single-step hook and the one below it the break hook, however
      many natives there are; a hook that is not set lets the machine go on as it is. */
  lemma HooksRun(host: HostFns, natives: seq<nat>, t: nat, s: Vm)
    ensures EnvOf(host, natives)(t, 0xFFFF_FFFF_FFFF_FFFF, s) ==
            match host.onStep
            case Some(hook) => hook(t, s)
            case None => (Success, s)
    ensures EnvOf(host, natives)(t, 0xFFFF_FFFF_FFFF_FFFE, s) ==
            match host.onBreak
            case Some(hook) => hook(t, s)
            case None => (Success, s)
  {
  }

  // ----- the same host on related machines -----

  /** A hook that answers related machines alike, but for memory faults. */
  ghost predicate SameHook(l: Layout, m: Layout, hook: Option<Hook>) {
    hook.Some? ==> forall k: nat, s: Vm, t: Vm {:trigger hook.value(k, s), hook.value(k, t)} ::
      Sim(l, m, s, t) ==> AnsweredAlike(l, m, s, hook.value(k, s), t, hook.value(k, t))
  }

  ghost predicate SameNatives(l: Layout, m: Layout, native: Native) {
    forall f: nat, k: nat, argc: Cell, argv: Cell, s: Vm, t: Vm
      {:trigger native(f, k, argc, argv, s), native(f, k, argc, argv, t)} ::
      Sim(l, m, s, t) ==> AnsweredAlike(l, m, s, native(f, k, argc, argv, s), t, native(f, k, argc, argv, t))
  }

  /** The dispatch treats related machines alike whenever the host's functions do, for it
      looks at the machine only to read the argument size, which may fault. */
  lemma DispatchIsSame(l: Layout, m: Layout, host: HostFns, natives: seq<nat>)
    requires SameHook(l, m, host.onStep) && SameHook(l, m, host.onBreak) && SameNatives(l, m, host.native)
    ensures SameHost(l, m, EnvOf(host, natives), EnvOf(host, natives))
  {
    forall k: nat, i: Cell, s: Vm, t: Vm | Sim(l, m, s, t)
      ensures AnsweredAlike(l, m, s, EnvOf(host, natives)(k, i, s), t, EnvOf(host, natives)(k, i, t))
    {
      CallbackIsSame(l, m, host, natives, k, i, s, t);
    }
  }

  lemma CallbackIsSame(l: Layout, m: Layout, host: HostFns, natives: seq<nat>, k: nat, i: Cell, s: Vm, t: Vm)
    requires SameHook(l, m, host.onStep) && SameHook(l, m, host.onBreak) && SameNatives(l, m, host.native)
    requires Sim(l, m, s, t)
    ensures AnsweredAlike(l, m, s, AmxCallback(host, natives, k, i, s), t, AmxCallback(host, natives, k, i, t))
  {
    if i < |natives| && i < BREAK_CALLBACK {
      SimReadData(l, m, s, t, s.stk);
      var size := ReadData(s, s.stk);
      if size.Ok? {
        var argc, argv, f := size.value / 8, Plus(s.stk, 8), natives[i];
        assert AnsweredAlike(l, m, s, host.native(f, k, argc, argv, s), t, host.native(f, k, argc, argv, t));
      }
    }
  }

  // ----- natives that take cells by value -----

  /** The first n arguments, or none when one of them cannot be read. */
  function Arguments(s: Vm, argv: Cell, n: nat): Option<seq<Cell>> {
    if n == 0 then Some([])
    else
      var before, p := Arguments(s, argv, n - 1), s.DataPtr(Plus(argv, Wrap(8 * (n - 1))));
      if before.Some? && p.Some? then Some(before.value + [s.mem.host[p.value]]) else None
  }

  /** The wrapper of natives whose parameters are all plain cells: it checks their number,
      fetches them, and answers with a function of their values in PRI. */
  function ByValue(arity: nat -> nat, answer: (nat, seq<Cell>) -> Cell): Native {
    (f: nat, k: nat, argc: Cell, argv: Cell, s: Vm) =>
      var xs := Arguments(s, argv, arity(f));
      if argc != arity(f) then (InvalidOperand, s)
      else if xs.None? then (AccessViolation, s)
      else (Success, s.(pri := answer(f, xs.value)))
  }

  lemma {:induction false} SameArguments(l: Layout, m: Layout, s: Vm, t: Vm, argv: Cell, n: nat)
    requires Sim(l, m, s, t) && Arguments(s, argv, n).Some?
    ensures Arguments(t, argv, n) == Arguments(s, argv, n)
    decreases n
  {
    if n > 0 {
      SameArguments(l, m, s, t, argv, n - 1);
      SimReadData(l, m, s, t, Plus(argv, Wrap(8 * (n - 1))));
      assert ReadData(s, Plus(argv, Wrap(8 * (n - 1)))).Ok?;
    }
  }

  /** Such natives answer related machines alike, but for arguments that cannot be read. */
  lemma ByValueIsSame(l: Layout, m: Layout, arity: nat -> nat, answer: (nat, seq<Cell>) -> Cell)
    ensures SameNatives(l, m, ByValue(arity, answer))
  {
    var native := ByValue(arity, answer);
    forall f: nat, k: nat, argc: Cell, argv: Cell, s: Vm, t: Vm | Sim(l, m, s, t)
      ensures AnsweredAlike(l, m, s, native(f, k, argc, argv, s), t, native(f, k, argc, argv, t))
    {
      if Arguments(s, argv, arity(f)).Some? {
        SameArguments(l, m, s, t, argv, arity(f));
      }
    }
  }

  /** A host without hooks that offers such natives meets all that is asked of hosts. */
  lemma ByValueIsGood(l: Layout, m: Layout, arity: nat -> nat, answer: (nat, seq<Cell>) -> Cell, natives: seq<nat>)
    ensures var env := EnvOf(HostFns(None, None, ByValue(arity, answer)), natives);
            GoodHost(env) && SameHost(l, m, env, env)
  {
    var host := HostFns(None, None, ByValue(arity, answer));
    ByValueIsSame(l, m, arity, answer);
    DispatchIsSame(l, m, host, natives);
    forall t: nat, i: Cell, s: Vm
      ensures Framed(s, EnvOf(host, natives)(t, i, s).1.(stp := s.stp))
    {
    }
  }

  /** A host call on a loaded image, with its natives dispatched as they are, is matched
      when the data is contiguous too. */
  lemma LoadedCallSimulation(s: Vm, code: seq<Cell>, data: seq<Cell>, heap: nat, host: HostFns, natives: seq<nat>,
                             cip: Cell, args: seq<Cell>, fuel: nat)
    requires |data| <= 0x8000_0000
    requires var l := LoadedLayout(code, data);
             SameHook(l, l, host.onStep) && SameHook(l, l, host.onBreak) && SameNatives(l, l, host.native)
    requires var entry := CallEntry(Booted(s, code, data, heap), cip, args);
             entry.Ok? ==> BlindRun(entry.value, EnvOf(host, natives), 0, fuel)
    ensures var b, l, env := Booted(s, code, data, heap), LoadedLayout(code, data), EnvOf(host, natives);
            MatchedEnd(l, l, CallFunction(b, cip, args, env, fuel),
                       CallFunction(OnContiguous(b, l), cip, args, env, fuel))
  {
    var b, l, env := Booted(s, code, data, heap), LoadedLayout(code, data), EnvOf(host, natives);
    LoadedRelated(s, code, data, heap);
    DispatchIsSame(l, l, host, natives);
    CallSimulation(l, l, b, OnContiguous(b, l), env, env, cip, args, fuel);
  }

  /** What a native call leaves: the native's effect with the five registers put back. */
  function AfterNative(s: Vm, r: (Error, Vm)): Result<Vm> {
    var s' := r.1.(alt := s.alt, frm := s.frm, cip := s.cip, stp := s.stp, stk := s.stk);
    if r.0 == Success then Ok(s') else Stop(r.0, s')
  }

  lemma SysreqRuns(natives: seq<nat>, host: HostFns, i: Cell, s: Vm, t: nat)
    requires i < |natives| && i < BREAK_CALLBACK && s.DataPtr(s.stk).Some?
    ensures Execute(Host(Sysreq), i, s, EnvOf(host, natives), t) ==
            AfterNative(s, host.native(natives[i], t, s.mem.host[s.DataPtr(s.stk).value] / 8, Plus(s.stk, 8), s))
  {
  }

  /** With a native table that begins with the callbacks init resolved from the native
      entries es, OP_SYSREQ i runs the callback first offered under the name of entry i, with the argument
      count and address taken from the stack. */
  lemma SysreqReachesNative(es: seq<Entry>, known: seq<NativeArg>, natives: seq<nat>,
                            host: HostFns, i: Cell, s: Vm, t: nat)
    requires ResolveAll(es, known).Natives? && ResolveAll(es, known).callbacks <= natives
    requires i < |es| && i < BREAK_CALLBACK
    requires s.DataPtr(s.stk).Some?
    ensures es[i].name.Some? && Resolve(known, es[i].name.value).Some?
    ensures var callback := Resolve(known, es[i].name.value).value;
            Execute(Host(Sysreq), i, s, EnvOf(host, natives), t) ==
            AfterNative(s, host.native(callback, t, s.mem.host[s.DataPtr(s.stk).value] / 8, Plus(s.stk, 8), s))
  {
    ResolveAllIs(es, known);
    var callback := Resolve(known, es[i].name.value).value;
    assert Offered(es[i], known) && natives[i] == callback;
    SysreqRuns(natives, host, i, s, t);
  }

  /** Past the table OP_SYSREQ is an invalid operand, and without an argument cell an access violation. */
  lemma SysreqRefuses(natives: seq<nat>, host: HostFns, i: Cell, s: Vm, t: nat)
    requires i < BREAK_CALLBACK && (i >= |natives| || s.DataPtr(s.stk).None?)
    ensures Execute(Host(Sysreq), i, s, EnvOf(host, natives), t) ==
            Stop(if i >= |natives| then InvalidOperand else AccessViolation, s)
  {
  }

  // ----- from the bytes of an image to its natives -----

  const OP_SYSREQ: Cell := 69

  lemma SysreqStep(s: Vm, k: nat, i: Cell, env: Env, t: nat)
    requires 8 * k + 16 < 0x1_0000_0000 && s.cip == 8 * k
    requires CodeAt(s, 8 * k) == Some(OP_SYSREQ) && CodeAt(s, 8 * (k + 1)) == Some(i)
    ensures Step(s, env, t) == Execute(Host(Sysreq), i, s.(cip := 8 * (k + 2)), env, t)
  {
    FetchCell(s, k, OP_SYSREQ);
    FetchCell(s.(cip := 8 * (k + 1)), k + 1, i);
  }

  lemma FetchCell(s: Vm, k: nat, x: Cell)
    requires 8 * k + 8 < 0x1_0000_0000 && s.cip == 8 * k && CodeAt(s, 8 * k) == Some(x)
    ensures Fetch(s) == Ok((s.(cip := 8 * (k + 1)), x))
  {
  }

  /** The offsets in a header are 32-bit words. */
  predicate WordOffsets(h: Header) {
    h.dat < 0x1_0000_0000 && h.hea < 0x1_0000_0000 && h.libraries < 0x1_0000_0000
  }

  lemma HeaderOffsets(buf: seq<Byte>)
    requires |buf| >= 60
    ensures WordOffsets(HeaderOf(buf))
  {
  }

  /** The little-endian value of code cell k in the image. */
  function ImageCell(buf: seq<Byte>, h: Header, k: nat): nat
    requires SectionOk(|buf|, h.cod, h.dat, 8) && k < (h.dat - h.cod) / 8
  {
    LeValue(buf[h.cod + 8 * k..h.cod + 8 * k + 8])
  }

  lemma FewEntries(buf: seq<Byte>, h: Header)
    requires h.defsize >= 8 && SectionOk(|buf|, h.natives, h.libraries, h.defsize) && WordOffsets(h)
    ensures |Section(buf, h.natives, h.libraries, h.defsize)| < 0x1_0000_0000
  {
    QuotientBelow(h.libraries - h.natives, h.defsize);
  }

  lemma QuotientBelow(n: nat, d: nat)
    requires d > 0 && n % d == 0
    ensures n / d <= n
  {
    var q := n / d;
    Whole(n, d);
    Times(d - 1, 1, q);
  }

  /** Cell k of the loaded code is that of the image. */
  lemma StartCode(buf: seq<Byte>, h: Header, k: nat)
    requires SectionOk(|buf|, h.cod, h.dat, 8) && SectionOk(|buf|, h.dat, h.hea, 8)
    requires WordOffsets(h) && k < (h.dat - h.cod) / 8
    ensures CodeAt(StartOf(buf, h), 8 * k) == Some(ImageCell(buf, h, k))
  {
    DataFits(buf, h);
    CellsAtIndex(buf, h.cod, (h.dat - h.cod) / 8, k);
    LoadedCode(StartOf(buf, h), CodeOf(buf, h), DataOf(buf, h), (h.hea - h.dat) / 8, k);
  }

  /** The host of a new loader that has loaded the image. */
  function ImageEnv(host: HostFns, buf: seq<Byte>, h: Header, known: seq<NativeArg>): Env {
    EnvOf(host, ImageTables(NO_TABLES, buf, h, known).natives)
  }

  /** No run changes the code cells of the image. */
  lemma StartKeeps(buf: seq<Byte>, h: Header, cip: Cell, env: Env, fuel: nat, k: nat)
    requires SectionOk(|buf|, h.cod, h.dat, 8) && SectionOk(|buf|, h.dat, h.hea, 8) && GoodHost(env)
    requires WordOffsets(h) && k < (h.dat - h.cod) / 8
    ensures var e := CallRaw(StartOf(buf, h), cip, env, fuel);
            !e.NoMeaning? ==> CodeAt(e.vm, 8 * k) == Some(ImageCell(buf, h, k))
  {
    DataFits(buf, h);
    StartCode(buf, h, k);
    LoadedApart(StartOf(buf, h), CodeOf(buf, h), DataOf(buf, h), (h.hea - h.dat) / 8);
    RunKeepsCode(StartOf(buf, h), cip, env, fuel, 8 * k);
  }

  /** OP_SYSREQ i on a new loader that has loaded the image, for every native entry i of it. */
  lemma ImageServes(buf: seq<Byte>, h: Header, known: seq<NativeArg>, host: HostFns, i: nat, s: Vm, t: nat)
    requires GoodImage(buf, h, known) && WordOffsets(h)
    requires i < |Section(buf, h.natives, h.libraries, h.defsize)| && s.DataPtr(s.stk).Some?
    ensures i < BREAK_CALLBACK
    ensures var e := Section(buf, h.natives, h.libraries, h.defsize)[i];
            && Offered(e, known)
            && Execute(Host(Sysreq), i, s, ImageEnv(host, buf, h, known), t)
               == AfterNative(s, host.native(Resolve(known, e.name.value).value, t,
                                             s.mem.host[s.DataPtr(s.stk).value] / 8, Plus(s.stk, 8), s))
  {
    var es, natives := Section(buf, h.natives, h.libraries, h.defsize), ImageTables(NO_TABLES, buf, h, known).natives;
    FewEntries(buf, h);
    GoodImageTables(NO_TABLES, buf, h, known);
    ResolveAllIs(es, known);
    assert Offered(es[i], known);
    SysreqReachesNative(es, known, natives, host, i, s, t);
  }

  /** The instruction at cell k leaves what the callback offered under the name of native
      entry i leaves, called with the argument count and address from the stack. */
  ghost predicate RunsCallback(buf: seq<Byte>, h: Header, known: seq<NativeArg>, host: HostFns,
                               s: Vm, k: nat, i: nat, t: nat)
    requires h.defsize >= 8 && SectionOk(|buf|, h.natives, h.libraries, h.defsize)
    requires i < |Section(buf, h.natives, h.libraries, h.defsize)| && s.DataPtr(s.stk).Some?
    requires Offered(Section(buf, h.natives, h.libraries, h.defsize)[i], known) && 8 * k + 16 < 0x1_0000_0000
  {
    var e, s1 := Section(buf, h.natives, h.libraries, h.defsize)[i], s.(cip := 8 * (k + 2));
    var callback, argc := Resolve(known, e.name.value).value, s.mem.host[s.DataPtr(s.stk).value] / 8;
    Step(s, ImageEnv(host, buf, h, known), t) == AfterNative(s1, host.native(callback, t, argc, Plus(s.stk, 8), s1))
  }

  /** At a code cell with OP_SYSREQ i the next instruction runs the callback of entry i. */
  lemma CellReachesNative(buf: seq<Byte>, h: Header, known: seq<NativeArg>, host: HostFns,
                          s: Vm, k: nat, i: nat, t: nat)
    requires GoodImage(buf, h, known) && WordOffsets(h)
    requires i < |Section(buf, h.natives, h.libraries, h.defsize)| && s.DataPtr(s.stk).Some?
    requires 8 * k + 16 < 0x1_0000_0000 && s.cip == 8 * k
    requires CodeAt(s, 8 * k) == Some(OP_SYSREQ) && CodeAt(s, 8 * (k + 1)) == Some(i)
    ensures Offered(Section(buf, h.natives, h.libraries, h.defsize)[i], known)
    ensures RunsCallback(buf, h, known, host, s, k, i, t)
  {
    SysreqStep(s, k, i, ImageEnv(host, buf, h, known), t);
    ImageServes(buf, h, known, host, i, s.(cip := 8 * (k + 2)), t);
  }

  /** In any run on a well-formed image, loaded by a new loader, when CIP is at a code cell
      whose bytes are OP_SYSREQ i and entry i exists, the next instruction runs the callback
      first offered under the name of native entry i. */
  lemma ImageReachesNative(buf: seq<Byte>, h: Header, known: seq<NativeArg>, host: HostFns, cip: Cell, fuel: nat,
                           s: Vm, k: nat, i: nat, t: nat)
    requires GoodImage(buf, h, known) && WordOffsets(h) && GoodHost(ImageEnv(host, buf, h, known))
    requires var e := CallRaw(StartOf(buf, h), cip, ImageEnv(host, buf, h, known), fuel);
             !e.NoMeaning? && s == e.vm && s.cip == 8 * k
    requires k + 1 < (h.dat - h.cod) / 8 && ImageCell(buf, h, k) == OP_SYSREQ && ImageCell(buf, h, k + 1) == i
    requires i < |Section(buf, h.natives, h.libraries, h.defsize)| && s.DataPtr(s.stk).Some?
    ensures Offered(Section(buf, h.natives, h.libraries, h.defsize)[i], known)
    ensures RunsCallback(buf, h, known, host, s, k, i, t)
  {
    StartKeeps(buf, h, cip, ImageEnv(host, buf, h, known), fuel, k);
    StartKeeps(buf, h, cip, ImageEnv(host, buf, h, known), fuel, k + 1);
    CellReachesNative(buf, h, known, host, s, k, i, t);
  }
}

/** The life of the controller lists: scans, registrations and removals, what they
    delete and what they announce. */
module HotPlug {
  import opened Reconcile
  import opened Devices

  /** The notices of one list update, in the order they are broadcast. */
  datatype Broadcast = Broadcast(connects: seq<Connect<string>>, disconnects: seq<nat>, size: nat)

  /** The manager's lists; deleted logs the controllers it deletes, broadcasts what it announces. */
  datatype Lists = Lists(rgb: seq<Controller>, hw: seq<Controller>, pending: seq<Controller>, matched: seq<Controller>,
                         prevSize: nat, deleted: seq<Controller>, broadcasts: seq<Broadcast>)

  function NameOf(c: Controller): string {
    c.device.name
  }

  function Announced(was: seq<Controller>, hw: seq<Controller>): Broadcast {
    Broadcast(MapConnects(NameOf, Connects(hw, Added(was, hw, |hw|))), Removed(was, hw), |hw|)
  }

  // ----- the operations -----

  function Updated(s: Lists): Lists {
    s.(rgb := s.hw, broadcasts := s.broadcasts + [Announced(s.rgb, s.hw)])
  }

  function CleanedUp(s: Lists): Lists {
    s.(pending := if s.pending == [] then s.hw else s.pending, matched := [], hw := [], prevSize := 0)
  }

  /** Matching, the new hardware entry, and one or two updates of the list. */
  function Registered(s: Lists, c: Controller): Lists {
    var s1 := s.(matched := MatchOne(s.pending, s.matched, c), hw := s.hw + [c]);
    var s2 := if |s1.hw| != s.prevSize then Updated(s1) else s1;
    Updated(s2.(prevSize := |s2.hw|))
  }

  function Unregistered(s: Lists, c: Controller): Lists {
    Updated(s.(hw := Without(s.hw, [c]), rgb := Without(s.rgb, [c])))
  }

  /** The end of a scan: pending controllers that are not listed are deleted. */
  function Finished(s: Lists): Lists {
    s.(deleted := s.deleted + Without(s.pending, s.rgb), pending := [], matched := [])
  }

  predicate DevicesChanged(s: Lists) {
    |s.hw| != |s.pending| || |s.matched| != |s.hw|
  }

  datatype Op = CleanUp | Update | Register(c: Controller) | Unregister(c: Controller) | Finish

  function Apply(s: Lists, op: Op): Lists {
    match op
    case CleanUp => CleanedUp(s)
    case Update => Updated(s)
    case Register(c) => Registered(s, c)
    case Unregister(c) => Unregistered(s, c)
    case Finish => Finished(s)
  }

  function Run(s: Lists, ops: seq<Op>): Lists {
    if ops == [] then s else Apply(Run(s, ops[..|ops| - 1]), ops[|ops| - 1])
  }

  const NOTHING := Lists([], [], [], [], 0, [], [])

  // ----- nothing is used or deleted after deletion -----

  /** No list holds a controller twice, hardware controllers are listed, matched ones are
      pending, and nothing deleted is in any list. */
  ghost predicate Sound(s: Lists) {
    && Distinct(s.rgb) && Distinct(s.hw) && Distinct(s.pending) && Distinct(s.matched) && Distinct(s.deleted)
    && (forall c :: c in s.hw ==> c in s.rgb)
    && (forall c :: c in s.matched ==> c in s.pending)
    && (forall c :: c in s.deleted ==> c !in s.rgb && c !in s.pending)
  }

  /** Whoever registers a controller still owns it and has not registered it already. */
  predicate Allowed(s: Lists, op: Op) {
    op.Register? ==> op.c !in s.hw && op.c !in s.deleted
  }

  lemma FinishKeepsSound(s: Lists)
    requires Sound(s)
    ensures Sound(Finished(s))
  {
    var gone := Without(s.pending, s.rgb);
    WithoutHas(s.pending, s.rgb);
    WithoutDistinct(s.pending, s.rgb);
    DistinctConcat(s.deleted, gone);
  }

  lemma RegisterKeepsSound(s: Lists, c: Controller)
    requires Sound(s) && Allowed(s, Register(c))
    ensures Sound(Registered(s, c))
  {
    assert forall x :: x in s.hw + [c] <==> x in s.hw || x == c;
  }

  lemma StepKeepsSound(s: Lists, op: Op)
    requires Sound(s) && Allowed(s, op)
    ensures Sound(Apply(s, op))
  {
    match op
    case CleanUp =>
    case Update =>
    case Register(c) => RegisterKeepsSound(s, c);
    case Unregister(c) =>
      WithoutHas(s.hw, [c]);
      WithoutDistinct(s.hw, [c]);
    case Finish => FinishKeepsSound(s);
  }

  ghost predicate AllAllowed(s: Lists, ops: seq<Op>) {
    forall i :: 0 <= i < |ops| ==> Allowed(Run(s, ops[..i]), ops[i])
  }

  /** In any run of the operations, in any order, every controller is deleted at most
      once and no deleted controller is ever in a list. */
  lemma {:induction false} RunKeepsSound(s: Lists, ops: seq<Op>)
    requires Sound(s) && AllAllowed(s, ops)
    ensures Sound(Run(s, ops))
    decreases |ops|
  {
    if ops != [] {
      var n := |ops| - 1;
      assert forall i :: 0 <= i < n ==> ops[..n][..i] == ops[..i];
      RunKeepsSound(s, ops[..n]);
      assert Allowed(Run(s, ops[..n]), ops[n]);
      StepKeepsSound(Run(s, ops[..n]), ops[n]);
    }
  }

  // ----- whole scans: nothing is lost either -----

  /** The controllers the manager answers for: registered, not deleted, not handed back. */
  function Live(s: Lists, live: set<Controller>, op: Op): set<Controller> {
    match op
    case Register(c) => live + {c}
    case Unregister(c) => live - {c}
    case Finish => live - Elements(Without(s.pending, s.rgb))
    case _ => live
  }

  ghost predicate Accounted(s: Lists, live: set<Controller>) {
    live == Elements(s.hw) + Elements(s.pending)
  }

  /** An operation keeps track of every live controller exactly when a cleanup does not
      drop new controllers of an unfinished scan, no pending controller is handed back,
      and no controller that is about to be forgotten is still listed. */
  ghost predicate Keeps(s: Lists, op: Op) {
    match op
    case CleanUp => s.pending == [] || forall c :: c in s.hw ==> c in s.pending
    case Unregister(c) => c !in s.pending
    case Finish => forall c :: c in s.pending && c in s.rgb ==> c in s.hw
    case _ => true
  }

  lemma AccountExact(s: Lists, live: set<Controller>, op: Op)
    requires Sound(s) && Accounted(s, live)
    ensures Accounted(Apply(s, op), Live(s, live, op)) <==> Keeps(s, op)
  {
    match op
    case CleanUp =>
      var s1 := CleanedUp(s);
      assert Elements(s1.hw) + Elements(s1.pending) == Elements(s1.pending);
      if !Keeps(s, op) {
        var c :| c in s.hw && c !in s.pending;
        assert c in live && c !in Elements(s1.pending);
      }
    case Update =>
    case Register(c) =>
      assert Elements(s.hw + [c]) == Elements(s.hw) + {c};
    case Unregister(c) =>
      WithoutHas(s.hw, [c]);
      assert Elements(Without(s.hw, [c])) == Elements(s.hw) - {c};
      if c in s.pending {
        assert c in Elements(s.pending);
      }
    case Finish => FinishAccounts(s, live);
  }

  function LiveAfterOps(s: Lists, live: set<Controller>, ops: seq<Op>): set<Controller> {
    if ops == [] then live
    else
      var n := |ops| - 1;
      Live(Run(s, ops[..n]), LiveAfterOps(s, live, ops[..n]), ops[n])
  }

  ghost predicate AllKeep(s: Lists, ops: seq<Op>) {
    forall i :: 0 <= i < |ops| ==> Keeps(Run(s, ops[..i]), ops[i])
  }

  /** Over any run of operations that all keep track, the lists hold exactly the live
      controllers at its end. */
  lemma {:induction false} RunKeepsAccount(s: Lists, live: set<Controller>, ops: seq<Op>)
    requires Sound(s) && Accounted(s, live) && AllAllowed(s, ops) && AllKeep(s, ops)
    ensures Sound(Run(s, ops)) && Accounted(Run(s, ops), LiveAfterOps(s, live, ops))
    decreases |ops|
  {
    if ops != [] {
      var n := |ops| - 1;
      assert forall i :: 0 <= i < n ==> ops[..n][..i] == ops[..i];
      RunKeepsAccount(s, live, ops[..n]);
      assert Allowed(Run(s, ops[..n]), ops[n]) && Keeps(Run(s, ops[..n]), ops[n]);
      RunStepAccounts(Run(s, ops[..n]), LiveAfterOps(s, live, ops[..n]), ops[n]);
    }
  }

  lemma RunStepAccounts(s: Lists, live: set<Controller>, op: Op)
    requires Sound(s) && Accounted(s, live) && Allowed(s, op) && Keeps(s, op)
    ensures Sound(Apply(s, op)) && Accounted(Apply(s, op), Live(s, live, op))
  {
    StepKeepsSound(s, op);
    AccountExact(s, live, op);
  }

  lemma FinishAccounts(s: Lists, live: set<Controller>)
    requires Sound(s) && Accounted(s, live)
    ensures Accounted(Finished(s), Live(s, live, Finish)) <==> Keeps(s, Finish)
  {
    WithoutHas(s.pending, s.rgb);
    var left, gone := Live(s, live, Finish), Without(s.pending, s.rgb);
    assert forall c :: c in Elements(gone) <==> c in s.pending && c !in s.rgb;
    assert forall c :: c in left <==> (c in s.hw || c in s.pending) && !(c in s.pending && c !in s.rgb);
    assert Elements(s.hw) + Elements([]) == Elements(s.hw);
    if Keeps(s, Finish) {
      assert left == Elements(s.hw);
    } else {
      var c :| c in s.pending && c in s.rgb && c !in s.hw;
      assert c in left;
    }
  }

  /** What happens between two quiet moments: a whole scan, or a device coming or going. */
  datatype Move = Scan(news: seq<Controller>) | Plug(c: Controller) | Unplug(c: Controller)

  function RegisteredAll(s: Lists, news: seq<Controller>): Lists {
    if news == [] then s else Registered(RegisteredAll(s, news[..|news| - 1]), news[|news| - 1])
  }

  /** A scan up to the decision whether the devices changed. */
  function Scanned(s: Lists, news: seq<Controller>): Lists {
    RegisteredAll(Updated(CleanedUp(s)), news)
  }

  function Moved(s: Lists, move: Move): Lists {
    match move
    case Scan(news) => Finished(Scanned(s, news))
    case Plug(c) => Registered(s, c)
    case Unplug(c) => Unregistered(s, c)
  }

  ghost predicate Fresh(s: Lists, news: seq<Controller>) {
    Distinct(news) && forall c :: c in news ==> c !in s.hw && c !in s.deleted
  }

  ghost predicate MoveAllowed(s: Lists, move: Move) {
    match move
    case Scan(news) => Fresh(s, news)
    case Plug(c) => c !in s.hw && c !in s.deleted
    case Unplug(_) => true
  }

  /** The state between moves. */
  ghost predicate Steady(s: Lists) {
    Sound(s) && s.pending == [] && s.matched == [] && s.rgb == s.hw
  }

  /** Lists in the middle of a scan that started from s. */
  ghost predicate MidScan(s: Lists, m: Lists, news: seq<Controller>) {
    && m.rgb == m.hw == news && m.pending == s.hw && m.matched == Greedy(s.hw, news)
    && m.prevSize == |news| && m.deleted == s.deleted
  }

  lemma {:induction false} ScannedIs(s: Lists, news: seq<Controller>)
    requires Steady(s)
    ensures MidScan(s, Scanned(s, news), news)
    decreases |news|
  {
    if news != [] {
      ScannedIs(s, news[..|news| - 1]);
      assert news[..|news| - 1] + [news[|news| - 1]] == news;
    }
  }

  /** devices_changed is the exact opposite of finding the same devices. */
  lemma ScanDecides(s: Lists, news: seq<Controller>)
    requires Steady(s)
    ensures DevicesChanged(Scanned(s, news)) <==> !SameDevices(s.hw, news)
  {
    ScannedIs(s, news);
  }

  /** A scan deletes exactly the controllers of the one before and leaves the new ones. */
  lemma ScanReplaces(s: Lists, news: seq<Controller>)
    requires Steady(s) && Fresh(s, news)
    ensures var s' := Moved(s, Scan(news));
            Steady(s') && s'.hw == news && s'.deleted == s.deleted + s.hw
  {
    ScannedIs(s, news);
    var m := Scanned(s, news);
    WithoutNone(s.hw, news);
    assert forall c :: c in s.deleted + s.hw ==> c in s.deleted || c in s.hw;
    DistinctConcat(s.deleted, s.hw);
  }

  function LiveAfter(s: Lists, live: set<Controller>, move: Move): set<Controller> {
    match move
    case Scan(news) => (live + Elements(news)) - (Elements(Moved(s, move).deleted) - Elements(s.deleted))
    case Plug(c) => live + {c}
    case Unplug(c) => live - {c}
  }

  /** After every move the live controllers are exactly those in the hardware list. */
  lemma MoveKeeps(s: Lists, live: set<Controller>, move: Move)
    requires Steady(s) && live == Elements(s.hw) && MoveAllowed(s, move)
    ensures Steady(Moved(s, move)) && LiveAfter(s, live, move) == Elements(Moved(s, move).hw)
  {
    match move
    case Scan(news) =>
      ScanReplaces(s, news);
      assert Elements(s.deleted + s.hw) == Elements(s.deleted) + Elements(s.hw);
      assert Elements(s.hw) !! Elements(news) && Elements(s.hw) !! Elements(s.deleted);
    case Plug(c) =>
      RegisterKeepsSound(s, c);
      assert Elements(s.hw + [c]) == Elements(s.hw) + {c};
    case Unplug(c) =>
      WithoutHas(s.hw, [c]);
      WithoutDistinct(s.hw, [c]);
      assert Elements(Without(s.hw, [c])) == Elements(s.hw) - {c};
  }

  function MovedAll(s: Lists, moves: seq<Move>): Lists {
    if moves == [] then s else Moved(MovedAll(s, moves[..|moves| - 1]), moves[|moves| - 1])
  }

  ghost function LiveAfterAll(s: Lists, live: set<Controller>, moves: seq<Move>): set<Controller> {
    if moves == [] then live
    else
      var n := |moves| - 1;
      LiveAfter(MovedAll(s, moves[..n]), LiveAfterAll(s, live, moves[..n]), moves[n])
  }

  ghost predicate MovesAllowed(s: Lists, moves: seq<Move>) {
    forall i :: 0 <= i < |moves| ==> MoveAllowed(MovedAll(s, moves[..i]), moves[i])
  }

  lemma FirstMoves(s: Lists, moves: seq<Move>, n: nat)
    requires MovesAllowed(s, moves) && n < |moves|
    ensures MovesAllowed(s, moves[..n]) && MoveAllowed(MovedAll(s, moves[..n]), moves[n])
  {
    assert forall i :: 0 <= i < n ==> moves[..n][..i] == moves[..i];
  }

  /** The last move, from the state before it. */
  lemma LastMoveKeeps(s: Lists, live: set<Controller>, moves: seq<Move>, before: Lists, alive: set<Controller>)
    requires moves != [] && before == MovedAll(s, moves[..|moves| - 1])
    requires alive == LiveAfterAll(s, live, moves[..|moves| - 1])
    requires Steady(before) && alive == Elements(before.hw) && MoveAllowed(before, moves[|moves| - 1])
    ensures Steady(MovedAll(s, moves)) && LiveAfterAll(s, live, moves) == Elements(MovedAll(s, moves).hw)
  {
    MoveKeeps(before, alive, moves[|moves| - 1]);
  }

  /** Over any number of scans, plugs and unplugs: each controller is deleted at most
      once, none in a list, and what is alive is what the hardware list holds. */
  lemma {:induction false} Lifetime(s: Lists, live: set<Controller>, moves: seq<Move>)
    requires Steady(s) && live == Elements(s.hw) && MovesAllowed(s, moves)
    ensures Steady(MovedAll(s, moves)) && LiveAfterAll(s, live, moves) == Elements(MovedAll(s, moves).hw)
    decreases |moves|
  {
    if moves != [] {
      var n := |moves| - 1;
      FirstMoves(s, moves, n);
      Lifetime(s, live, moves[..n]);
      LastMoveKeeps(s, live, moves, MovedAll(s, moves[..n]), LiveAfterAll(s, live, moves[..n]));
    }
  }

  // ----- what a client that follows the notices holds -----

  /** A client's list of names after the broadcasts. */
  function Client(broadcasts: seq<Broadcast>): seq<string> {
    if broadcasts == [] then []
    else
      var b := broadcasts[|broadcasts| - 1];
      Replay(Client(broadcasts[..|broadcasts| - 1]), b.connects, b.disconnects)
  }

  ghost predicate InSync(s: Lists) {
    Client(s.broadcasts) == Map(NameOf, s.rgb)
  }

  /** An update keeps the client in step when the survivors are a prefix. */
  lemma UpdateSync(s: Lists)
    requires InSync(s) && Distinct(s.rgb) && Distinct(s.hw) && Only(s.hw, s.rgb) <= s.rgb
    ensures InSync(Updated(s))
  {
    ReplayExact(s.rgb, s.hw);
    ReplayNames(NameOf, s.rgb, Connects(s.hw, Added(s.rgb, s.hw, |s.hw|)), Removed(s.rgb, s.hw));
    var bs := Updated(s).broadcasts;
    assert bs[..|bs| - 1] == s.broadcasts;
  }

  lemma UpdateAgain(s: Lists)
    requires InSync(s) && Distinct(s.rgb) && s.rgb == s.hw
    ensures InSync(Updated(s))
  {
    OnlySelf(s.hw, s.rgb);
    UpdateSync(s);
  }

  lemma RegisterSync(s: Lists, c: Controller)
    requires InSync(s) && Distinct(s.rgb) && s.rgb == s.hw && c !in s.hw
    ensures InSync(Registered(s, c))
  {
    var s1 := s.(matched := MatchOne(s.pending, s.matched, c), hw := s.hw + [c]);
    DistinctConcat(s.hw, [c]);
    OnlyConcat(s.hw, [c], s.rgb);
    OnlySelf(s.hw, s.rgb);
    UpdateSync(s1);
    if |s1.hw| != s.prevSize {
      UpdateAgain(Updated(s1).(prevSize := |s1.hw|));
    } else {
      assert Updated(s1.(prevSize := |s1.hw|)).broadcasts == Updated(s1).broadcasts;
    }
  }

  lemma {:induction false} ScanSync(s: Lists, news: seq<Controller>)
    requires Steady(s) && InSync(s) && Distinct(news)
    ensures InSync(Scanned(s, news))
    decreases |news|
  {
    if news == [] {
      UpdateSync(CleanedUp(s));
    } else {
      var init, c := news[..|news| - 1], news[|news| - 1];
      ScanSync(s, init);
      ScannedIs(s, init);
      RegisterSync(Scanned(s, init), c);
    }
  }

  /** An unregistered controller is taken off the list before the lists are compared, so
      no disconnect is announced: the client stays in step only if it was not listed. */
  lemma UnplugSync(s: Lists, c: Controller)
    requires Steady(s) && InSync(s)
    ensures InSync(Unregistered(s, c)) <==> c !in s.hw
  {
    WithoutHas(s.hw, [c]);
    WithoutDistinct(s.hw, [c]);
    var rest := Without(s.hw, [c]);
    NoDeltas(rest);
    var bs := Unregistered(s, c).broadcasts;
    assert bs[..|bs| - 1] == s.broadcasts;
    assert bs[|bs| - 1].connects == [] && bs[|bs| - 1].disconnects == [];
    DropNothing(Client(s.broadcasts), 0);
    if c in s.hw {
      var k :| 0 <= k < |s.hw| && s.hw[k] == c;
      WithoutAt(s.hw, k);
    } else {
      WithoutNone(s.hw, [c]);
    }
  }

  lemma {:induction false} DropNothing<T(!new)>(s: seq<T>, from: nat)
    ensures Dropped(s, from, []) == s
    decreases |s|
  {
    if s != [] {
      DropNothing(s[1..], from + 1);
    }
  }

  ghost predicate Announces(s: Lists, move: Move) {
    move.Unplug? ==> move.c !in s.hw
  }

  /** A client that has applied every notice holds the server's list of names, over any
      number of scans and plugs; the first unplug of a listed controller breaks this. */
  lemma {:induction false} ClientHoldsList(moves: seq<Move>)
    requires MovesAllowed(NOTHING, moves)
    requires forall i :: 0 <= i < |moves| ==> Announces(MovedAll(NOTHING, moves[..i]), moves[i])
    ensures InSync(MovedAll(NOTHING, moves))
    decreases |moves|
  {
    if moves != [] {
      var n := |moves| - 1;
      assert forall i :: 0 <= i < n ==> moves[..n][..i] == moves[..i];
      ClientHoldsList(moves[..n]);
      Lifetime(NOTHING, {}, moves[..n]);
      var s := MovedAll(NOTHING, moves[..n]);
      assert MoveAllowed(s, moves[n]) && Announces(s, moves[n]);
      match moves[n]
      case Scan(news) => ScanSync(s, news);
      case Plug(c) => RegisterSync(s, c);
      case Unplug(c) => UnplugSync(s, c);
    }
  }}

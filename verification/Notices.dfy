/** What the notices of list updates say, and what a client learns from them. */
module Notices {
  import opened Reconcile
  import opened Devices
  import opened HotPlug

  /** The notice of an update from the listed controllers was to the hardware controllers hw:
      a connect for each new controller by its new index, in ascending order, and its name; a
      disconnect for each that is gone, numbered on behind the new list; the length of that list. */
  ghost predicate Notice(b: Broadcast, was: seq<Controller>, hw: seq<Controller>) {
    && (forall k :: 0 <= k < |b.connects| ==> ConnectIs(b.connects[k], was, hw))
    && (forall j, k :: 0 <= j < k < |b.connects| ==> b.connects[j].index < b.connects[k].index)
    && (forall i :: 0 <= i < |hw| && hw[i] !in was ==> Connect(i, hw[i].device.name) in b.connects)
    && (forall k :: 0 <= k < |b.disconnects| ==> b.disconnects[k] == |hw| + k)
    && |b.disconnects| == |Elements(was) - Elements(hw)|
    && b.size == |hw|
  }

  ghost predicate ConnectIs(c: Connect<string>, was: seq<Controller>, hw: seq<Controller>) {
    c.index < |hw| && hw[c.index] !in was && c.item == hw[c.index].device.name
  }

  lemma {:induction false} AddedAscend(was: seq<Controller>, hw: seq<Controller>, n: nat)
    requires n <= |hw|
    ensures var r := Added(was, hw, n);
            && (forall j, k :: 0 <= j < k < |r| ==> r[j] < r[k])
            && (forall i :: 0 <= i < n && hw[i] !in was ==> i in r)
    decreases n
  {
    if n > 0 {
      AddedAscend(was, hw, n - 1);
    }
  }

  /** Controllers that are gone, counted. */
  lemma {:induction false} GoneCount(was: seq<Controller>, hw: seq<Controller>)
    requires Distinct(was)
    ensures |Without(was, hw)| == |Elements(was) - Elements(hw)|
  {
    WithoutHas(was, hw);
    WithoutDistinct(was, hw);
    assert Elements(Without(was, hw)) == Elements(was) - Elements(hw);
    DistinctCount(Without(was, hw));
  }

  lemma {:induction false} DistinctCount(s: seq<Controller>)
    requires Distinct(s)
    ensures |Elements(s)| == |s|
    decreases |s|
  {
    if s != [] {
      var init, c := s[..|s| - 1], s[|s| - 1];
      DistinctCount(init);
      assert s == init + [c];
      assert Elements(s) == Elements(init) + {c} && c !in Elements(init);
    }
  }

  lemma ConnectsIs(hw: seq<Controller>, added: seq<nat>, k: nat)
    requires k < |added| && forall j :: 0 <= j < |added| ==> added[j] < |hw|
    ensures MapConnects(NameOf, Connects(hw, added))[k] == Connect(added[k], hw[added[k]].device.name)
  {
    var cs := Connects(hw, added);
    assert cs[k] == Connect(added[k], hw[added[k]]);
    assert MapConnects(NameOf, cs)[k] == Connect(cs[k].index, NameOf(cs[k].item));
  }

  lemma AnnouncedIs(was: seq<Controller>, hw: seq<Controller>)
    requires Distinct(was)
    ensures Notice(Announced(was, hw), was, hw)
  {
    var b, added := Announced(was, hw), Added(was, hw, |hw|);
    AddedAscend(was, hw, |hw|);
    GoneCount(was, hw);
    forall k | 0 <= k < |added|
      ensures b.connects[k] == Connect(added[k], hw[added[k]].device.name)
    {
      ConnectsIs(hw, added, k);
    }
    forall i | 0 <= i < |hw| && hw[i] !in was
      ensures Connect(i, hw[i].device.name) in b.connects
    {
      var k :| 0 <= k < |added| && added[k] == i;
      assert b.connects[k] == Connect(i, hw[i].device.name);
    }
  }

  /** Every update makes the hardware list the list and broadcasts that notice, once. */
  lemma UpdateNotice(s: Lists)
    requires Distinct(s.rgb)
    ensures var s' := Updated(s);
            && s' == s.(rgb := s.hw, broadcasts := s'.broadcasts)
            && |s'.broadcasts| == |s.broadcasts| + 1 && s'.broadcasts[..|s.broadcasts|] == s.broadcasts
            && Notice(s'.broadcasts[|s.broadcasts|], s.rgb, s.hw)
  {
    AnnouncedIs(s.rgb, s.hw);
  }

  lemma NothingNew(hw: seq<Controller>)
    requires Distinct(hw)
    ensures Announced(hw, hw) == Broadcast([], [], |hw|)
  {
    NoDeltas(hw);
    assert MapConnects(NameOf, Connects(hw, [])) == [];
  }

  /** A registration adds the controller at the end of both lists and gives that notice; a second
      one, of no changes, follows when the count is not what the last registration left. */
  lemma RegisterNotices(s: Lists, c: Controller)
    requires Distinct(s.rgb) && Distinct(s.hw) && c !in s.hw
    ensures var s', hw, n := Registered(s, c), s.hw + [c], |s.broadcasts|;
            && s'.hw == hw && s'.rgb == hw && s'.prevSize == |hw|
            && s'.pending == s.pending && s'.deleted == s.deleted && s.matched <= s'.matched
            && |s'.broadcasts| == n + (if |hw| == s.prevSize then 1 else 2) && s'.broadcasts[..n] == s.broadcasts
            && Notice(s'.broadcasts[n], s.rgb, hw)
            && (|hw| != s.prevSize ==> s'.broadcasts[n + 1] == Broadcast([], [], |hw|))
  {
    AnnouncedIs(s.rgb, s.hw + [c]);
    DistinctConcat(s.hw, [c]);
    NothingNew(s.hw + [c]);
  }

  /** The last notice gives the length of the list. */
  predicate SizeShown(s: Lists) {
    s.broadcasts != [] ==> s.broadcasts[|s.broadcasts| - 1].size == |s.rgb|
  }

  lemma UpdateShowsSize(s: Lists)
    ensures SizeShown(Updated(s))
  {
  }

  lemma StepShowsSize(s: Lists, op: Op)
    requires SizeShown(s)
    ensures SizeShown(Apply(s, op))
  {
    match op
    case CleanUp =>
    case Update => UpdateShowsSize(s);
    case Register(c) =>
      var s1 := s.(matched := MatchOne(s.pending, s.matched, c), hw := s.hw + [c]);
      var s2 := if |s1.hw| != s.prevSize then Updated(s1) else s1;
      UpdateShowsSize(s2.(prevSize := |s2.hw|));
    case Unregister(c) => UpdateShowsSize(s.(hw := Without(s.hw, [c]), rgb := Without(s.rgb, [c])));
    case Finish =>
  }

  /** After any operations in any order the last notice gives the length of the list. */
  lemma {:induction false} RunShowsSize(s: Lists, ops: seq<Op>)
    requires SizeShown(s)
    ensures SizeShown(Run(s, ops))
    decreases |ops|
  {
    if ops != [] {
      RunShowsSize(s, ops[..|ops| - 1]);
      StepShowsSize(Run(s, ops[..|ops| - 1]), ops[|ops| - 1]);
    }
  }

  /** Every notice gives the length of the list that a client holds once it has followed it. */
  ghost predicate SizesHold(bs: seq<Broadcast>) {
    forall n :: 0 <= n < |bs| ==> bs[n].size == |Client(bs[..n + 1])|
  }

  lemma UpdateHolds(s: Lists)
    requires SizesHold(s.broadcasts) && InSync(Updated(s))
    ensures SizesHold(Updated(s).broadcasts)
  {
    var bs, n := Updated(s).broadcasts, |s.broadcasts|;
    assert bs[..n + 1] == bs;
    forall k | 0 <= k < n
      ensures bs[k].size == |Client(bs[..k + 1])|
    {
      assert bs[..k + 1] == s.broadcasts[..k + 1];
    }
  }

  lemma RegisterHolds(s: Lists, c: Controller)
    requires SizesHold(s.broadcasts) && InSync(s) && Distinct(s.rgb) && s.rgb == s.hw && c !in s.hw
    ensures SizesHold(Registered(s, c).broadcasts)
  {
    var s1 := s.(matched := MatchOne(s.pending, s.matched, c), hw := s.hw + [c]);
    var s2 := if |s1.hw| != s.prevSize then Updated(s1) else s1;
    RegisterSync(s, c);
    if |s1.hw| != s.prevSize {
      DistinctConcat(s.hw, [c]);
      OnlyConcat(s.hw, [c], s.rgb);
      OnlySelf(s.hw, s.rgb);
      UpdateSync(s1);
      UpdateHolds(s1);
    }
    UpdateHolds(s2.(prevSize := |s2.hw|));
  }

  lemma {:induction false} ScanHolds(s: Lists, news: seq<Controller>)
    requires Steady(s) && InSync(s) && SizesHold(s.broadcasts) && Distinct(news)
    ensures SizesHold(Scanned(s, news).broadcasts)
    decreases |news|
  {
    if news == [] {
      UpdateSync(CleanedUp(s));
      UpdateHolds(CleanedUp(s));
    } else {
      var init, c := news[..|news| - 1], news[|news| - 1];
      ScanHolds(s, init);
      ScanSync(s, init);
      ScannedIs(s, init);
      RegisterHolds(Scanned(s, init), c);
    }
  }

  lemma MoveHolds(s: Lists, move: Move)
    requires Steady(s) && InSync(s) && SizesHold(s.broadcasts) && MoveAllowed(s, move) && Announces(s, move)
    ensures SizesHold(Moved(s, move).broadcasts)
  {
    match move
    case Scan(news) => ScanHolds(s, news);
    case Plug(c) => RegisterHolds(s, c);
    case Unplug(c) =>
      UnplugSync(s, c);
      UpdateHolds(s.(hw := Without(s.hw, [c]), rgb := Without(s.rgb, [c])));
  }

  /** Over any number of scans and plugs, a client that follows every notice holds after each
      one a list of the length that the notice gives. */
  lemma {:induction false} NoticesGiveSizes(moves: seq<Move>)
    requires MovesAllowed(NOTHING, moves)
    requires forall i :: 0 <= i < |moves| ==> Announces(MovedAll(NOTHING, moves[..i]), moves[i])
    ensures SizesHold(MovedAll(NOTHING, moves).broadcasts)
    decreases |moves|
  {
    if moves != [] {
      var n := |moves| - 1;
      assert forall i :: 0 <= i < n ==> moves[..n][..i] == moves[..i];
      NoticesGiveSizes(moves[..n]);
      ClientHoldsList(moves[..n]);
      Lifetime(NOTHING, {}, moves[..n]);
      assert MoveAllowed(MovedAll(NOTHING, moves[..n]), moves[n]);
      assert Announces(MovedAll(NOTHING, moves[..n]), moves[n]);
      MoveHolds(MovedAll(NOTHING, moves[..n]), moves[n]);
    }
  }

  /** And at the end it holds the names of the listed controllers, as many as the last notice says. */
  lemma ClientNames(moves: seq<Move>)
    requires MovesAllowed(NOTHING, moves)
    requires forall i :: 0 <= i < |moves| ==> Announces(MovedAll(NOTHING, moves[..i]), moves[i])
    ensures var s := MovedAll(NOTHING, moves);
            && |Client(s.broadcasts)| == |s.rgb|
            && (forall k :: 0 <= k < |s.rgb| ==> Client(s.broadcasts)[k] == s.rgb[k].device.name)
            && (s.broadcasts != [] ==> s.broadcasts[|s.broadcasts| - 1].size == |s.rgb|)
  {
    ClientHoldsList(moves);
    NoticesGiveSizes(moves);
    var bs := MovedAll(NOTHING, moves).broadcasts;
    if bs != [] {
      assert bs[..|bs| - 1 + 1] == bs;
    }
  }

  /** After the unplug of a listed controller the client still lists one more than the notice says. */
  lemma UnplugSize(s: Lists, c: Controller)
    requires Steady(s) && InSync(s) && c in s.hw
    ensures var bs := Unregistered(s, c).broadcasts; |Client(bs)| == bs[|bs| - 1].size + 1
  {
    WithoutHas(s.hw, [c]);
    WithoutDistinct(s.hw, [c]);
    NoDeltas(Without(s.hw, [c]));
    var bs := Unregistered(s, c).broadcasts;
    assert bs[..|bs| - 1] == s.broadcasts;
    assert bs[|bs| - 1].connects == [] && bs[|bs| - 1].disconnects == [];
    DropNothing(Client(s.broadcasts), 0);
    Shrinks(s.hw, c);
  }
}

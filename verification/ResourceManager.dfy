/** The manager object: its controller lists, reconciled and cleaned up in place. */
module ResourceManager {
  import opened Memories
  import opened Reconcile
  import opened Devices
  import opened HotPlug

  /** std::find: the first index of x, or the length. */
  method Find<T(==)>(s: seq<T>, x: T) returns (i: nat)
    ensures i <= |s| && (i < |s| ==> s[i] == x)
    ensures forall k :: 0 <= k < i ==> s[k] != x
    ensures x in s <==> i < |s|
  {
    i := 0;
    while i < |s| && s[i] != x
      invariant i <= |s| && forall k :: 0 <= k < i ==> s[k] != x
    {
      i := i + 1;
    }
  }

  /** Cutting out the found element removes it; nothing is there to cut otherwise. */
  lemma CutIsWithout<T(!new)>(s: seq<T>, i: nat, x: T)
    requires Distinct(s) && i <= |s| && (i < |s| ==> s[i] == x) && (x in s <==> i < |s|)
    ensures i < |s| ==> s[..i] + s[i + 1..] == Without(s, [x])
    ensures i == |s| ==> s == Without(s, [x])
  {
    if i < |s| {
      WithoutAt(s, i);
    } else {
      WithoutNone(s, [x]);
    }
  }

  /** The first x after a front without it. */
  lemma FoundAfter<T(!new)>(s: seq<T>, front: seq<T>, x: T, back: seq<T>, i: nat)
    requires s == front + [x] + back && x !in front
    requires i <= |s| && (i < |s| ==> s[i] == x) && forall k :: 0 <= k < i ==> s[k] != x
    ensures i == |front| && s[..i] + s[i + 1..] == front + back
  {
    assert s[|front|] == x;
    assert forall k :: 0 <= k < |front| ==> s[k] == front[k];
  }

  /** Taking c out of the rest and putting it behind the front. */
  lemma Moved<T(!new)>(front: seq<T>, rest: seq<T>, p: nat)
    requires p < |rest|
    ensures var s, j, i := front + rest, |front| + p, |front|;
            var cut := s[..j] + s[j + 1..];
            cut[..i] + [rest[p]] + cut[i..] == front + [rest[p]] + (rest[..p] + rest[p + 1..])
  {
    var s, j := front + rest, |front| + p;
    assert s[..j] == front + rest[..p] && s[j + 1..] == rest[p + 1..];
    assert s[..j] + s[j + 1..] == front + (rest[..p] + rest[p + 1..]);
  }

  lemma PlaceFound<T(!new)>(front: seq<T>, rest: seq<T>, c: T, j: nat)
    requires Distinct(rest) && j < |front + rest| && (front + rest)[j] == c && c !in front
    ensures c in rest && j >= |front|
    ensures var s, i := front + rest, |front|;
            var cut := s[..j] + s[j + 1..];
            cut[..i] + [c] + cut[i..] == front + [c] + Without(rest, [c])
  {
    var p := j - |front|;
    assert rest[p] == c;
    Moved(front, rest, p);
    WithoutAt(rest, p);
  }

  lemma PlaceUnseen<T(!new)>(front: seq<T>, rest: seq<T>, c: T)
    requires c !in front + rest
    ensures c !in rest
    ensures var s, i := front + rest, |front|;
            s[..i] + [c] + s[i..] == front + [c] + Without(rest, [c])
  {
    var s := front + rest;
    forall k | 0 <= k < |rest|
      ensures rest[k] != c
    {
      assert s[|front| + k] == rest[k];
    }
    WithoutNone(rest, [c]);
  }

  class Manager {
    var rgb: seq<Controller>
    var hw: seq<Controller>
    var pending: seq<Controller>
    var matched: seq<Controller>
    var prevSize: nat
    ghost var deleted: seq<Controller>
    ghost var broadcasts: seq<Broadcast>

    constructor ()
      ensures View() == NOTHING
    {
      rgb, hw, pending, matched, prevSize, deleted, broadcasts := [], [], [], [], 0, [], [];
    }

    ghost function View(): Lists
      reads this
    {
      Lists(rgb, hw, pending, matched, prevSize, deleted, broadcasts)
    }

    /** The first pass at hardware index i: c goes from anywhere in the rest, or from
        nowhere, to place i. */
    method PlaceAt(i: nat, c: Controller, ghost front: seq<Controller>, ghost rest: seq<Controller>)
      returns (added: bool)
      requires Distinct(rest) && c !in front && rgb == front + rest && i == |front|
      modifies this`rgb
      ensures rgb == front + [c] + Without(rest, [c])
      ensures added <==> c !in rest
    {
      if i < |rgb| && rgb[i] == c {
        assert rest[0] == c;
        WithoutAt(rest, 0);
        return false;
      }
      var j := Find(rgb, c);
      if j < |rgb| {
        PlaceFound(front, rest, c, j);
        rgb := rgb[..j] + rgb[j + 1..];
        rgb := rgb[..i] + [c] + rgb[i..];
        return false;
      }
      PlaceUnseen(front, rest, c);
      rgb := rgb[..i] + [c] + rgb[i..];
      return true;
    }

    /** What one placement means for the first i + 1 hardware controllers. */
    static lemma PlacedNext(was: seq<Controller>, hw: seq<Controller>, i: nat)
      requires i < |hw| && Distinct(hw) && Distinct(was)
      ensures Distinct(Without(was, hw[..i])) && hw[i] !in hw[..i]
      ensures hw[i] in Without(was, hw[..i]) <==> hw[i] in was
      ensures hw[..i] + [hw[i]] + Without(Without(was, hw[..i]), [hw[i]]) == hw[..i + 1] + Without(was, hw[..i + 1])
    {
      WithoutDistinct(was, hw[..i]);
      WithoutHas(was, hw[..i]);
      PlaceNext(was, hw, i);
      assert hw[..i + 1] == hw[..i] + [hw[i]];
    }

    /** First pass: hardware controllers to their places, new ones noted. */
    method PlaceAll() returns (added: seq<nat>)
      requires Distinct(hw) && Distinct(rgb)
      modifies this`rgb
      ensures rgb == hw + Without(old(rgb), hw)
      ensures added == Added(old(rgb), hw, |hw|)
    {
      ghost var was := rgb;
      added := [];
      var i := 0;
      WithoutNone(was, hw[..0]);
      while i < |hw|
        invariant i <= |hw| && rgb == hw[..i] + Without(was, hw[..i])
        invariant added == Added(was, hw, i)
      {
        PlacedNext(was, hw, i);
        var isNew := PlaceAt(i, hw[i], hw[..i], Without(was, hw[..i]));
        if isNew {
          added := added + [i];
        }
        i := i + 1;
      }
      assert hw[..i] == hw;
    }

    /** Second pass: what is listed but no longer in the hardware list, with its index. */
    method FindGone(ghost gone: seq<Controller>) returns (toRemove: seq<Controller>, removed: seq<nat>)
      requires rgb == hw + gone && forall c :: c in gone ==> c !in hw
      ensures toRemove == gone && removed == Range(|hw|, |gone|)
    {
      toRemove, removed := [], [];
      var i := 0;
      while i < |rgb|
        invariant i <= |rgb|
        invariant i <= |hw| ==> toRemove == [] && removed == []
        invariant i > |hw| ==> toRemove == gone[..i - |hw|] && removed == Range(|hw|, i - |hw|)
      {
        var k := Find(hw, rgb[i]);
        if k == |hw| {
          assert rgb[i] == gone[i - |hw|];
          toRemove := toRemove + [rgb[i]];
          removed := removed + [i];
        }
        i := i + 1;
      }
    }

    /** Third pass: they are erased one by one. */
    method EraseAll(toRemove: seq<Controller>)
      requires rgb == hw + toRemove && forall c :: c in toRemove ==> c !in hw
      modifies this`rgb
      ensures rgb == hw
    {
      var k := 0;
      while k < |toRemove|
        invariant k <= |toRemove| && rgb == hw + toRemove[k..]
      {
        var i := Find(rgb, toRemove[k]);
        assert toRemove[k..] == [toRemove[k]] + toRemove[k + 1..];
        FoundAfter(rgb, hw, toRemove[k], toRemove[k + 1..], i);
        if i < |rgb| {
          rgb := rgb[..i] + rgb[i + 1..];
        }
        k := k + 1;
      }
    }

    /** The listed controllers become the hardware controllers, in their order, and the
        differences are announced. */
    method UpdateDeviceList()
      requires Distinct(hw) && Distinct(rgb)
      modifies this`rgb, this`broadcasts
      ensures View() == Updated(old(View()))
      ensures broadcasts != [] && broadcasts[|broadcasts| - 1].size == |rgb|
    {
      ghost var was := rgb;
      var added := PlaceAll();
      ghost var gone := Without(was, hw);
      WithoutHas(was, hw);
      var toRemove, removed := FindGone(gone);
      EraseAll(toRemove);
      broadcasts := broadcasts + [Broadcast(MapConnects(NameOf, Connects(hw, added)), removed, |rgb|)];
    }

    /** The search for an unmatched old controller like c. */
    method FindMatch(c: Controller) returns (m: Option<Controller>)
      ensures m == FirstMatch(pending, matched, c)
    {
      var i := 0;
      assert pending[0..] == pending;
      while i < |pending|
        invariant i <= |pending| && FirstMatch(pending, matched, c) == FirstMatch(pending[i..], matched, c)
      {
        var k := Find(matched, pending[i]);
        if k == |matched| && Matches(pending[i].device, c.device) {
          return Some(pending[i]);
        }
        assert pending[i..][1..] == pending[i + 1..];
        i := i + 1;
      }
      return None;
    }

    method RegisterRGBController(c: Controller)
      requires Distinct(hw) && Distinct(rgb) && c !in hw
      modifies this
      ensures View() == Registered(old(View()), c)
    {
      if |pending| > 0 {
        var m := FindMatch(c);
        if m.Some? {
          matched := matched + [m.value];
        }
      }
      DistinctConcat(hw, [c]);
      hw := hw + [c];
      if |hw| != prevSize {
        UpdateDeviceList();
      }
      prevSize := |hw|;
      UpdateDeviceList();
    }

    method UnregisterRGBController(c: Controller)
      requires Distinct(hw) && Distinct(rgb)
      modifies this`hw, this`rgb, this`broadcasts
      ensures View() == Unregistered(old(View()), c)
    {
      var i := Find(hw, c);
      CutIsWithout(hw, i, c);
      WithoutDistinct(hw, [c]);
      if i < |hw| {
        hw := hw[..i] + hw[i + 1..];
      }
      var j := Find(rgb, c);
      CutIsWithout(rgb, j, c);
      WithoutDistinct(rgb, [c]);
      if j < |rgb| {
        rgb := rgb[..j] + rgb[j + 1..];
      }
      UpdateDeviceList();
    }

    method Cleanup()
      modifies this`pending, this`matched, this`hw, this`prevSize
      ensures View() == CleanedUp(old(View()))
    {
      if |pending| == 0 {
        pending := hw;
      }
      matched, hw, prevSize := [], [], 0;
    }

    /** The part of ProcessPreDetection that touches the lists. */
    method PreDetection()
      requires Distinct(rgb)
      modifies this
      ensures View() == Updated(CleanedUp(old(View())))
    {
      Cleanup();
      UpdateDeviceList();
    }

    /** The decision at the end of a scan. When the scan began in the quiet state s and
        registered news, no change means that as many devices were found as before, each
        matched; and when matching is equality of a key, it means the same identities. */
    method DevicesChanged(ghost s: Lists, ghost news: seq<Controller>, ghost key: Key) returns (changed: bool)
      ensures changed <==> HotPlug.DevicesChanged(View())
      ensures MidScan(s, View(), news) ==> (changed <==> !SameDevices(s.hw, news))
      ensures MidScan(s, View(), news) && Distinct(s.hw) && KeyedBy(key, s.hw, news) ==>
                (changed <==> multiset(Keys(key, s.hw)) != multiset(Keys(key, news)))
    {
      changed := |hw| != |pending| || |matched| != |hw|;
      if MidScan(s, View(), news) && Distinct(s.hw) && KeyedBy(key, s.hw, news) {
        SameExact(key, s.hw, news);
      }
    }

    /** The part of ProcessPostDetection that touches the lists. */
    method PostDetection()
      modifies this`pending, this`matched, this`deleted
      ensures View() == Finished(old(View()))
    {
      var k := 0;
      assert pending[0..] == pending;
      ghost var all := deleted + Without(pending, rgb);
      while k < |pending|
        invariant k <= |pending| && all == deleted + Without(pending[k..], rgb)
      {
        var i := Find(rgb, pending[k]);
        assert pending[k..][1..] == pending[k + 1..];
        if i == |rgb| {
          deleted := deleted + [pending[k]];
        }
        k := k + 1;
      }
      assert Without(pending[k..], rgb) == [] && deleted == all;
      pending, matched := [], [];
    }
  }
}

/** Reconciling one list with another: what has to go, what has to come, and what a
    client makes of the two kinds of notice. */
module Reconcile {
  predicate Distinct<T(==,!new)>(s: seq<T>) {
    forall i, j :: 0 <= i < j < |s| ==> s[i] != s[j]
  }

  function Elements<T>(s: seq<T>): set<T> {
    set x | x in s
  }

  /** The elements of s that are not in gone, in their order. */
  function Without<T(==,!new)>(s: seq<T>, gone: seq<T>): seq<T> {
    if s == [] then []
    else (if s[0] in gone then [] else [s[0]]) + Without(s[1..], gone)
  }

  /** The elements of s that are in keep, in their order. */
  function Only<T(==,!new)>(s: seq<T>, keep: seq<T>): seq<T> {
    if s == [] then []
    else (if s[0] in keep then [s[0]] else []) + Only(s[1..], keep)
  }

  lemma {:induction false} WithoutHas<T(!new)>(s: seq<T>, gone: seq<T>)
    ensures forall x :: x in Without(s, gone) <==> x in s && x !in gone
  {
    if s != [] {
      WithoutHas(s[1..], gone);
    }
  }

  lemma DistinctConcat<T(!new)>(a: seq<T>, b: seq<T>)
    requires Distinct(a) && Distinct(b) && forall x :: x in a ==> x !in b
    ensures Distinct(a + b)
  {
    forall i, j | 0 <= i < j < |a + b|
      ensures (a + b)[i] != (a + b)[j]
    {
      if i < |a| <= j {
        assert (a + b)[i] in a && (a + b)[j] in b;
      }
    }
  }

  lemma {:induction false} WithoutDistinct<T(!new)>(s: seq<T>, gone: seq<T>)
    requires Distinct(s)
    ensures Distinct(Without(s, gone))
  {
    if s != [] {
      WithoutDistinct(s[1..], gone);
      WithoutHas(s[1..], gone);
      assert s[0] !in s[1..];
    }
  }

  /** Removing nothing, or nothing that is there, changes nothing. */
  lemma {:induction false} WithoutNone<T(!new)>(s: seq<T>, gone: seq<T>)
    requires forall x :: x in s ==> x !in gone
    ensures Without(s, gone) == s
  {
    if s != [] {
      WithoutNone(s[1..], gone);
    }
  }

  lemma {:induction false} WithoutAll<T(!new)>(s: seq<T>, gone: seq<T>)
    requires forall x :: x in s ==> x in gone
    ensures Without(s, gone) == []
  {
    if s != [] {
      WithoutAll(s[1..], gone);
    }
  }

  lemma {:induction false} WithoutTwice<T(!new)>(s: seq<T>, a: seq<T>, b: seq<T>)
    ensures Without(Without(s, a), b) == Without(s, a + b)
  {
    if s != [] {
      WithoutTwice(s[1..], a, b);
      assert s[0] in a + b <==> s[0] in a || s[0] in b;
      var rest := Without(s[1..], a);
      if s[0] !in a {
        assert Without(s, a) == [s[0]] + rest && ([s[0]] + rest)[1..] == rest;
      } else {
        assert Without(s, a) == rest;
      }
    }
  }

  /** Removing the element at k of a duplicate-free list cuts it out. */
  lemma {:induction false} WithoutAt<T(!new)>(s: seq<T>, k: nat)
    requires Distinct(s) && k < |s|
    ensures Without(s, [s[k]]) == s[..k] + s[k + 1..]
  {
    if k == 0 {
      WithoutNone(s[1..], [s[0]]);
    } else {
      WithoutAt(s[1..], k - 1);
      assert s[..k] == [s[0]] + s[1..][..k - 1];
      assert s[1..][k..] == s[k + 1..];
    }
  }

  /** One step of the reconciliation: the rest of the old list once hw[i] is placed. */
  lemma PlaceNext<T(!new)>(was: seq<T>, hw: seq<T>, i: nat)
    requires i < |hw|
    ensures Without(was, hw[..i + 1]) == Without(Without(was, hw[..i]), [hw[i]])
  {
    WithoutTwice(was, hw[..i], [hw[i]]);
    assert hw[..i + 1] == hw[..i] + [hw[i]];
  }

  /** The first n hardware indices whose controllers are new to the old list. */
  function Added<T(==,!new)>(was: seq<T>, hw: seq<T>, n: nat): (r: seq<nat>)
    requires n <= |hw|
    ensures forall k :: 0 <= k < |r| ==> r[k] < n && hw[r[k]] !in was
  {
    if n == 0 then []
    else Added(was, hw, n - 1) + (if hw[n - 1] in was then [] else [n - 1])
  }

  function Range(from: nat, count: nat): (r: seq<nat>)
    ensures |r| == count && forall k :: 0 <= k < count ==> r[k] == from + k
  {
    seq(count, k requires 0 <= k => from + k)
  }

  /** The disconnect notices: the leftover controllers come right after the hardware ones. */
  function Removed<T(==,!new)>(was: seq<T>, hw: seq<T>): seq<nat> {
    Range(|hw|, |Without(was, hw)|)
  }

  lemma Shrinks<T(!new)>(s: seq<T>, x: T)
    requires Distinct(s)
    ensures |Without(s, [x])| == |s| - (if x in s then 1 else 0)
  {
    if x in s {
      var k :| 0 <= k < |s| && s[k] == x;
      WithoutAt(s, k);
    } else {
      WithoutNone(s, [x]);
    }
  }

  /** What one placement adds to and takes from the old list. */
  lemma {:induction false} BalanceUpTo<T(!new)>(was: seq<T>, hw: seq<T>, n: nat)
    requires Distinct(was) && Distinct(hw) && n <= |hw|
    ensures |was| + |Added(was, hw, n)| == n + |Without(was, hw[..n])|
    decreases n
  {
    if n == 0 {
      WithoutNone(was, hw[..0]);
    } else {
      BalanceUpTo(was, hw, n - 1);
      PlaceNext(was, hw, n - 1);
      WithoutDistinct(was, hw[..n - 1]);
      WithoutHas(was, hw[..n - 1]);
      Shrinks(Without(was, hw[..n - 1]), hw[n - 1]);
    }
  }

  /** Every controller is accounted for: old plus added is new plus removed. */
  lemma Balance<T(!new)>(was: seq<T>, hw: seq<T>)
    requires Distinct(was) && Distinct(hw)
    ensures |was| + |Added(was, hw, |hw|)| == |hw| + |Removed(was, hw)|
  {
    BalanceUpTo(was, hw, |hw|);
    assert hw[..|hw|] == hw;
  }

  /** A list reconciled with itself gives no notices. */
  lemma NoDeltas<T(!new)>(hw: seq<T>)
    requires Distinct(hw)
    ensures Added(hw, hw, |hw|) == [] && Removed(hw, hw) == []
  {
    WithoutAll(hw, hw);
    Balance(hw, hw);
  }

  // ----- what a client makes of the notices -----

  /** A connect notice: the new item and the index it has on the server. */
  datatype Connect<T> = Connect(index: nat, item: T)

  function Connects<T>(hw: seq<T>, added: seq<nat>): seq<Connect<T>>
    requires forall k :: 0 <= k < |added| ==> added[k] < |hw|
  {
    seq(|added|, k requires 0 <= k < |added| => Connect(added[k], hw[added[k]]))
  }

  function Insert<T>(s: seq<T>, i: nat, x: T): (r: seq<T>)
    ensures |r| == |s| + 1
  {
    if i <= |s| then s[..i] + [x] + s[i..] else s + [x]
  }

  /** The connect notices applied in order. */
  function Connected<T>(s: seq<T>, connects: seq<Connect<T>>): (r: seq<T>)
    ensures |r| == |s| + |connects|
  {
    if connects == [] then s
    else
      var last := connects[|connects| - 1];
      Insert(Connected(s, connects[..|connects| - 1]), last.index, last.item)
  }

  /** The items of s whose index, counted from `from`, is not listed. */
  function Dropped<T>(s: seq<T>, from: nat, indices: seq<nat>): seq<T> {
    if s == [] then []
    else (if from in indices then [] else [s[0]]) + Dropped(s[1..], from + 1, indices)
  }

  function Replay<T>(s: seq<T>, connects: seq<Connect<T>>, disconnects: seq<nat>): seq<T> {
    Dropped(Connected(s, connects), 0, disconnects)
  }

  /** Dropping a tail of consecutive indices leaves the front. */
  lemma {:induction false} DropTail<T(!new)>(s: seq<T>, from: nat, n: nat)
    requires n <= |s|
    ensures Dropped(s, from, Range(from + n, |s| - n)) == s[..n]
    decreases |s|
  {
    if s != [] {
      var r := Range(from + n, |s| - n);
      if n > 0 {
        DropTail(s[1..], from + 1, n - 1);
        assert Range(from + 1 + (n - 1), |s[1..]| - (n - 1)) == r;
        assert s[..n] == [s[0]] + s[1..][..n - 1];
      } else {
        forall k | from <= k < from + |s|
          ensures k in r
        {
          assert r[k - from] == k;
        }
        DropAll(s, from, r);
      }
    }
  }

  lemma {:induction false} DropAll<T(!new)>(s: seq<T>, from: nat, indices: seq<nat>)
    requires forall k :: from <= k < from + |s| ==> k in indices
    ensures Dropped(s, from, indices) == []
  {
    if s != [] {
      DropAll(s[1..], from + 1, indices);
    }
  }

  /** The client's list after the connects up to hardware index n. */
  function ConnectedUpTo<T(==,!new)>(was: seq<T>, hw: seq<T>, n: nat): (r: seq<T>)
    requires n <= |hw|
  {
    if n == 0 then was
    else
      var r := ConnectedUpTo(was, hw, n - 1);
      if hw[n - 1] in was then r else Insert(r, n - 1, hw[n - 1])
  }

  lemma {:induction false} ConnectsUpTo<T(!new)>(was: seq<T>, hw: seq<T>, n: nat)
    requires n <= |hw|
    ensures Connected(was, Connects(hw, Added(was, hw, n))) == ConnectedUpTo(was, hw, n)
    decreases n
  {
    if n == 0 {
    } else {
      ConnectsUpTo(was, hw, n - 1);
      var before := Connects(hw, Added(was, hw, n - 1));
      var cs := Connects(hw, Added(was, hw, n));
      if hw[n - 1] !in was {
        assert cs == before + [Connect(n - 1, hw[n - 1])];
        assert cs[..|cs| - 1] == before;
      } else {
        assert Added(was, hw, n) == Added(was, hw, n - 1);
      }
    }
  }

  lemma Associate<T(!new)>(a: seq<T>, b: seq<T>, c: seq<T>)
    ensures a + (b + c) == (a + b) + c
  {
  }

  lemma {:induction false} OnlyConcat<T(!new)>(a: seq<T>, b: seq<T>, keep: seq<T>)
    ensures Only(a + b, keep) == Only(a, keep) + Only(b, keep)
  {
    if a == [] {
      assert a + b == b;
    } else {
      OnlyConcat(a[1..], b, keep);
      assert (a + b)[1..] == a[1..] + b;
      Associate(if a[0] in keep then [a[0]] else [], Only(a[1..], keep), Only(b, keep));
    }
  }

  lemma {:induction false} OnlySelf<T(!new)>(s: seq<T>, keep: seq<T>)
    requires forall x :: x in s ==> x in keep
    ensures Only(s, keep) == s
  {
    if s != [] {
      OnlySelf(s[1..], keep);
    }
  }

  /** How many of the first n elements are in keep. */
  function Hits<T(==)>(s: seq<T>, n: nat, keep: seq<T>): (k: nat)
    requires n <= |s|
  {
    if n == 0 then 0 else Hits(s, n - 1, keep) + (if s[n - 1] in keep then 1 else 0)
  }

  /** A kept element at n is the next one in the filtered list. */
  lemma {:induction false} HitIsNext<T(!new)>(s: seq<T>, n: nat, keep: seq<T>)
    requires n < |s| && s[n] in keep
    ensures Hits(s, n, keep) < |Only(s, keep)| && Only(s, keep)[Hits(s, n, keep)] == s[n]
  {
    OnlyConcat(s[..n], s[n..], keep);
    assert s == s[..n] + s[n..];
    HitsCount(s, n, keep);
  }

  lemma {:induction false} HitsCount<T(!new)>(s: seq<T>, n: nat, keep: seq<T>)
    requires n <= |s|
    ensures |Only(s[..n], keep)| == Hits(s, n, keep)
    decreases n
  {
    if n > 0 {
      HitsCount(s, n - 1, keep);
      assert s[..n] == s[..n - 1] + [s[n - 1]];
      OnlyConcat(s[..n - 1], [s[n - 1]], keep);
    }
  }

  /** The client's list is the first n hardware items and the old list from item m on. */
  predicate InStep<T(==)>(r: seq<T>, was: seq<T>, hw: seq<T>, n: nat, m: nat) {
    n <= |hw| && m <= |was| && r == hw[..n] + was[m..]
  }

  lemma StepOver<T(!new)>(r: seq<T>, was: seq<T>, hw: seq<T>, n: nat, m: nat)
    requires InStep(r, was, hw, n, m) && n < |hw| && m < |was| && was[m] == hw[n]
    ensures InStep(r, was, hw, n + 1, m + 1)
  {
  }

  lemma StepInsert<T(!new)>(r: seq<T>, was: seq<T>, hw: seq<T>, n: nat, m: nat)
    requires InStep(r, was, hw, n, m) && n < |hw|
    ensures InStep(Insert(r, n, hw[n]), was, hw, n + 1, m)
  {
  }

  /** Survivors that form a prefix of the old list stay in step with the hardware list. */
  lemma {:induction false} ConnectInStep<T(!new)>(was: seq<T>, hw: seq<T>, n: nat)
    requires n <= |hw| && Only(hw, was) <= was
    ensures InStep(ConnectedUpTo(was, hw, n), was, hw, n, Hits(hw, n, was))
    decreases n
  {
    if n == 0 {
    } else {
      ConnectInStep(was, hw, n - 1);
      var r, m := ConnectedUpTo(was, hw, n - 1), Hits(hw, n - 1, was);
      if hw[n - 1] in was {
        HitIsNext(hw, n - 1, was);
        StepOver(r, was, hw, n - 1, m);
      } else {
        StepInsert(r, was, hw, n - 1, m);
      }
    }
  }

  lemma InsertUnseen<T(!new)>(s: seq<T>, at: nat, x: T, keep: seq<T>)
    requires x !in keep
    ensures Only(Insert(s, at, x), keep) == Only(s, keep)
  {
    var i := if at <= |s| then at else |s|;
    var front, back := s[..i], s[i..];
    assert s == front + back && Insert(s, at, x) == front + ([x] + back);
    OnlyConcat(front, back, keep);
    OnlyConcat(front, [x] + back, keep);
    OnlyCons(x, back, keep);
  }

  lemma OnlyCons<T(!new)>(x: T, s: seq<T>, keep: seq<T>)
    requires x !in keep
    ensures Only([x] + s, keep) == Only(s, keep)
  {
    assert ([x] + s)[1..] == s;
  }

  /** New items do not disturb the old ones. */
  lemma {:induction false} ConnectKeepsOld<T(!new)>(was: seq<T>, hw: seq<T>, n: nat)
    requires n <= |hw|
    ensures Only(ConnectedUpTo(was, hw, n), was) == was
    decreases n
  {
    if n == 0 {
      OnlySelf(was, was);
    } else {
      ConnectKeepsOld(was, hw, n - 1);
      if hw[n - 1] !in was {
        InsertUnseen(ConnectedUpTo(was, hw, n - 1), n - 1, hw[n - 1], was);
      }
    }
  }

  /** The notices of one reconciliation, as a client applies them. */
  function Replayed<T(==,!new)>(was: seq<T>, hw: seq<T>): seq<T> {
    Replay(was, Connects(hw, Added(was, hw, |hw|)), Removed(was, hw))
  }

  lemma ReplayedIs<T(!new)>(was: seq<T>, hw: seq<T>)
    requires Distinct(was) && Distinct(hw)
    ensures var r := ConnectedUpTo(was, hw, |hw|); |hw| <= |r| && Replayed(was, hw) == r[..|hw|]
  {
    Balance(was, hw);
    ConnectsUpTo(was, hw, |hw|);
    DropTail(ConnectedUpTo(was, hw, |hw|), 0, |hw|);
  }

  /** Replaying the notices of one reconciliation on the old list gives the new list
      exactly when the survivors, in hardware order, are a prefix of the old list. */
  lemma ReplayExact<T(!new)>(was: seq<T>, hw: seq<T>)
    requires Distinct(was) && Distinct(hw)
    ensures Replayed(was, hw) == hw <==> Only(hw, was) <= was
  {
    ReplayedIs(was, hw);
    var r := ConnectedUpTo(was, hw, |hw|);
    if Only(hw, was) <= was {
      ConnectInStep(was, hw, |hw|);
    }
    if r[..|hw|] == hw {
      ConnectKeepsOld(was, hw, |hw|);
      OnlyConcat(r[..|hw|], r[|hw|..], was);
      assert r == r[..|hw|] + r[|hw|..];
    }
  }

  // ----- clients see names, not controllers -----

  function Map<T, U>(f: T -> U, s: seq<T>): (r: seq<U>)
    ensures |r| == |s| && forall k :: 0 <= k < |s| ==> r[k] == f(s[k])
  {
    seq(|s|, k requires 0 <= k < |s| => f(s[k]))
  }

  function MapConnects<T, U>(f: T -> U, cs: seq<Connect<T>>): (r: seq<Connect<U>>)
    ensures |r| == |cs|
  {
    seq(|cs|, k requires 0 <= k < |cs| => Connect(cs[k].index, f(cs[k].item)))
  }

  lemma {:induction false} ConnectedNames<T(!new), U(!new)>(f: T -> U, s: seq<T>, cs: seq<Connect<T>>)
    ensures Connected(Map(f, s), MapConnects(f, cs)) == Map(f, Connected(s, cs))
    decreases |cs|
  {
    if cs == [] {
    } else {
      var init, last := cs[..|cs| - 1], cs[|cs| - 1];
      ConnectedNames(f, s, init);
      assert MapConnects(f, cs)[..|cs| - 1] == MapConnects(f, init);
      var r := Connected(s, init);
      assert Insert(Map(f, r), last.index, f(last.item)) == Map(f, Insert(r, last.index, last.item));
    }
  }

  lemma {:induction false} DroppedNames<T(!new), U(!new)>(f: T -> U, s: seq<T>, from: nat, indices: seq<nat>)
    ensures Dropped(Map(f, s), from, indices) == Map(f, Dropped(s, from, indices))
    decreases |s|
  {
    if s != [] {
      DroppedNames(f, s[1..], from + 1, indices);
      assert Map(f, s)[1..] == Map(f, s[1..]);
    }
  }

  lemma ReplayNames<T(!new), U(!new)>(f: T -> U, s: seq<T>, cs: seq<Connect<T>>, removed: seq<nat>)
    ensures Replay(Map(f, s), MapConnects(f, cs), removed) == Map(f, Replay(s, cs, removed))
  {
    ConnectedNames(f, s, cs);
    DroppedNames(f, Connected(s, cs), 0, removed);
  }
}

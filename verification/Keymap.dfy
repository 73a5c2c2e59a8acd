/** The sorted key list of a keyboard layout and its edits: insert, remove and swap a
    key, insert and remove a row. */
module Keymap {
  import opened LittleEndian
  import opened Memories

  /** What a key stands for, wherever it is. */
  datatype Led = Led(zone: Byte, value: nat, name: string, altName: string)

  datatype Key = Key(row: Byte, col: Byte, led: Led)

  type Keys = seq<Key>

  const UNUSED := ""

  /** uint8_t arithmetic. */
  function Up(b: Byte): Byte {
    (b + 1) % 256
  }

  function Down(b: Byte): Byte {
    (b - 1) % 256
  }

  /** Past the last number they come round. */
  lemma ByteSteps(b: Byte)
    ensures Up(b) == if b == 255 then 0 else b + 1
    ensures Down(b) == if b == 0 then 255 else b - 1
  {
  }

  // ----- order and lookup -----

  /** Row first, then column. */
  predicate Before(a: Key, b: Key) {
    a.row < b.row || (a.row == b.row && a.col < b.col)
  }

  ghost predicate Sorted(m: Keys) {
    forall i, j :: 0 <= i < j < |m| ==> Before(m[i], m[j])
  }

  ghost predicate AllAfter(m: Keys, k: Key) {
    forall x :: x in m ==> Before(k, x)
  }

  lemma SortedCons(k: Key, m: Keys)
    ensures Sorted([k] + m) <==> Sorted(m) && AllAfter(m, k)
  {
    var s := [k] + m;
    if Sorted(s) {
      forall x | x in m
        ensures Before(k, x)
      {
        var i :| 0 <= i < |m| && m[i] == x;
        assert s[0] == k && s[i + 1] == x;
      }
      forall i, j | 0 <= i < j < |m|
        ensures Before(m[i], m[j])
      {
        assert m[i] == s[i + 1] && m[j] == s[j + 1];
      }
    }
  }

  /** The first key at a position. */
  function Lookup(m: Keys, row: nat, col: nat): Option<Led> {
    if m == [] then None
    else if m[0].row == row && m[0].col == col then Some(m[0].led)
    else Lookup(m[1..], row, col)
  }

  function NameAt(m: Keys, row: nat, col: nat): string {
    var l := Lookup(m, row, col);
    if l.Some? then l.value.name else UNUSED
  }

  /** There is no key at a position that all keys come after. */
  lemma {:induction false} NothingBefore(m: Keys, row: nat, col: nat)
    requires forall x :: x in m ==> row < x.row || (row == x.row && col < x.col)
    ensures Lookup(m, row, col) == None
  {
    if m != [] {
      NothingBefore(m[1..], row, col);
    }
  }

  lemma {:induction false} NoSuchRow(m: Keys, row: nat, col: nat)
    requires forall x :: x in m ==> row < x.row
    ensures Lookup(m, row, col) == None
  {
    NothingBefore(m, row, col);
  }

  // ----- inserting a key -----

  /** The key is at or after a position. */
  predicate From(k: Key, row: Byte, col: Byte) {
    row < k.row || (row == k.row && col <= k.col)
  }

  /** The loop that moves the rest of a row right; it stops at the first later row. */
  function ShiftRight(m: Keys, row: Byte, col: Byte): (r: Keys)
    ensures |r| == |m|
  {
    if m == [] || m[0].row > row then m
    else
      var k := m[0];
      [if k.row == row && k.col >= col then k.(col := Up(k.col)) else k] + ShiftRight(m[1..], row, col)
  }

  function Inserted(m: Keys, k: Key): Keys {
    if m == [] then [k]
    else if From(m[0], k.row, k.col) then (if k.led.name == UNUSED then [] else [k]) + ShiftRight(m, k.row, k.col)
    else [m[0]] + Inserted(m[1..], k)
  }

  /** The keys that have to move can move: none is in the last column. */
  ghost predicate Room(m: Keys, row: Byte, col: Byte) {
    forall x :: x in m && x.row == row && x.col >= col ==> x.col < 255
  }

  ghost predicate AllFrom(m: Keys, row: Byte, col: Byte) {
    forall x :: x in m ==> From(x, row, col)
  }

  /** All keys come strictly after a position. */
  ghost predicate Beyond(m: Keys, row: Byte, col: Byte) {
    forall x :: x in m ==> row < x.row || (row == x.row && col < x.col)
  }

  /** What comes after a key at or after a position is so too. */
  lemma RestFrom(m: Keys, row: Byte, col: Byte)
    requires Sorted(m) && m != [] && From(m[0], row, col)
    ensures AllFrom(m, row, col) && Sorted(m[1..]) && AllAfter(m[1..], m[0])
  {
    SortedCons(m[0], m[1..]);
    assert m == [m[0]] + m[1..];
  }

  /** Each key on the row moves one to the right. */
  lemma {:induction false} ShiftRightAt(m: Keys, row: Byte, col: Byte, i: nat)
    requires Sorted(m) && AllFrom(m, row, col) && Room(m, row, col) && i < |m|
    ensures ShiftRight(m, row, col)[i] == if m[i].row == row then m[i].(col := m[i].col + 1) else m[i]
    decreases |m|
  {
    RestFrom(m, row, col);
    assert m[0] in m && m[i] in m;
    if m[0].row > row {
      assert i > 0 ==> Before(m[0], m[i]);
    } else if i > 0 {
      ShiftRightAt(m[1..], row, col, i - 1);
    }
  }

  lemma ShiftRightSorted(m: Keys, row: Byte, col: Byte)
    requires Sorted(m) && AllFrom(m, row, col) && Room(m, row, col)
    ensures Sorted(ShiftRight(m, row, col)) && Beyond(ShiftRight(m, row, col), row, col)
    ensures forall a: Key :: AllAfter(m, a) ==> AllAfter(ShiftRight(m, row, col), a)
  {
    var s := ShiftRight(m, row, col);
    forall i | 0 <= i < |m|
      ensures s[i] == if m[i].row == row then m[i].(col := m[i].col + 1) else m[i]
      ensures From(m[i], row, col)
    {
      ShiftRightAt(m, row, col, i);
      assert m[i] in m;
    }
    forall a: Key, x | AllAfter(m, a) && x in s
      ensures Before(a, x)
    {
      var i :| 0 <= i < |s| && s[i] == x;
      assert m[i] in m;
    }
  }

  lemma {:induction false} ShiftRightLooks(m: Keys, row: Byte, col: Byte, r: nat, c: nat)
    requires Sorted(m) && AllFrom(m, row, col) && Room(m, row, col)
    ensures Lookup(ShiftRight(m, row, col), r, c) ==
            if r != row then Lookup(m, r, c) else if c > col then Lookup(m, r, c - 1) else None
  {
    if m == [] {
    } else if m[0].row > row {
      RestFrom(m, row, col);
      if r == row {
        assert forall x :: x in m ==> x == m[0] || x in m[1..];
        NoSuchRow(m, r, c);
        if c > 0 {
          NoSuchRow(m, r, c - 1);
        }
      }
    } else {
      RestFrom(m, row, col);
      assert m[0] in m;
      ShiftRightLooks(m[1..], row, col, r, c);
    }
  }

  /** InsertKey keeps the strict order when the row has room. */
  lemma {:induction false} InsertSorted(m: Keys, k: Key)
    requires Sorted(m) && Room(m, k.row, k.col)
    ensures Sorted(Inserted(m, k))
    ensures forall a: Key :: AllAfter(m, a) && Before(a, k) ==> AllAfter(Inserted(m, k), a)
  {
    if m == [] {
    } else if From(m[0], k.row, k.col) {
      RestFrom(m, k.row, k.col);
      var s := ShiftRight(m, k.row, k.col);
      ShiftRightSorted(m, k.row, k.col);
      SortedCons(k, s);
      assert [] + s == s;
    } else {
      SortedCons(m[0], m[1..]);
      assert m == [m[0]] + m[1..];
      InsertSorted(m[1..], k);
      SortedCons(m[0], Inserted(m[1..], k));
    }
  }

  lemma InsertHere(m: Keys, k: Key, r: nat, c: nat)
    requires Sorted(m) && Room(m, k.row, k.col) && m != [] && From(m[0], k.row, k.col)
    ensures r != k.row || c < k.col ==> Lookup(Inserted(m, k), r, c) == Lookup(m, r, c)
    ensures r == k.row && c > k.col ==> Lookup(Inserted(m, k), r, c) == Lookup(m, r, c - 1)
    ensures NameAt(Inserted(m, k), k.row, k.col) == k.led.name
  {
    RestFrom(m, k.row, k.col);
    var s := ShiftRight(m, k.row, k.col);
    ShiftRightLooks(m, k.row, k.col, r, c);
    ShiftRightLooks(m, k.row, k.col, k.row, k.col);
    assert ([k] + s)[1..] == s && [] + s == s;
    if r == k.row && c < k.col {
      NothingBefore(m, r, c);
    }
  }

  /** InsertKey shifts its row right from the new key on and leaves everything else. */
  lemma {:induction false} InsertLooks(m: Keys, k: Key, r: nat, c: nat)
    requires Sorted(m) && Room(m, k.row, k.col)
    ensures r != k.row || c < k.col ==> Lookup(Inserted(m, k), r, c) == Lookup(m, r, c)
    ensures r == k.row && c > k.col ==> Lookup(Inserted(m, k), r, c) == Lookup(m, r, c - 1)
    ensures NameAt(Inserted(m, k), k.row, k.col) == k.led.name
  {
    if m == [] {
      assert Inserted(m, k)[1..] == [];
    } else if From(m[0], k.row, k.col) {
      InsertHere(m, k, r, c);
    } else {
      InsertLooks(m[1..], k, r, c);
      assert ([m[0]] + Inserted(m[1..], k))[1..] == Inserted(m[1..], k);
    }
  }

  // ----- removing a key -----

  /** The loop that moves the rest of a row left; it stops at the first key of another row. */
  function ShiftLeft(m: Keys, row: Byte): (r: Keys)
    ensures |r| == |m|
  {
    if m == [] || m[0].row != row then m
    else [m[0].(col := Down(m[0].col))] + ShiftLeft(m[1..], row)
  }

  function Removed(m: Keys, row: Byte, col: Byte): Keys {
    if m == [] then []
    else if m[0].row == row && m[0].col == col then ShiftLeft(m[1..], row)
    else if m[0].row == row && m[0].col > col then ShiftLeft(m, row)
    else [m[0]] + Removed(m[1..], row, col)
  }

  /** Each key on the row moves one to the left. */
  lemma {:induction false} ShiftLeftAt(m: Keys, row: Byte, col: Byte, i: nat)
    requires Sorted(m) && Beyond(m, row, col) && i < |m|
    ensures ShiftLeft(m, row)[i] == if m[i].row == row then m[i].(col := m[i].col - 1) else m[i]
    decreases |m|
  {
    SortedCons(m[0], m[1..]);
    assert m == [m[0]] + m[1..] && m[0] in m && m[i] in m;
    if m[0].row != row {
      assert i > 0 ==> Before(m[0], m[i]);
    } else if i > 0 {
      ShiftLeftAt(m[1..], row, col, i - 1);
    }
  }

  lemma ShiftLeftSorted(m: Keys, row: Byte, col: Byte)
    requires Sorted(m) && Beyond(m, row, col)
    ensures Sorted(ShiftLeft(m, row)) && AllFrom(ShiftLeft(m, row), row, col)
  {
    var s := ShiftLeft(m, row);
    forall i | 0 <= i < |m|
      ensures s[i] == if m[i].row == row then m[i].(col := m[i].col - 1) else m[i]
      ensures row < m[i].row || (row == m[i].row && col < m[i].col)
    {
      ShiftLeftAt(m, row, col, i);
      assert m[i] in m;
    }
  }

  /** Keys that come before the removed position come before everything after the removal. */
  lemma ShiftLeftAfter(m: Keys, row: Byte, col: Byte, a: Key)
    requires Sorted(m) && Beyond(m, row, col) && AllAfter(m, a)
    requires a.row != row || a.col < col
    ensures AllAfter(ShiftLeft(m, row), a)
  {
    ShiftLeftSorted(m, row, col);
    var s := ShiftLeft(m, row);
    forall x | x in s
      ensures Before(a, x)
    {
      var i :| 0 <= i < |s| && s[i] == x;
      ShiftLeftAt(m, row, col, i);
      assert m[i] in m && Before(a, m[i]);
    }
  }

  lemma {:induction false} ShiftLeftLooks(m: Keys, row: Byte, col: Byte, r: nat, c: nat)
    requires Sorted(m) && Beyond(m, row, col)
    ensures Lookup(ShiftLeft(m, row), r, c) == Lookup(m, r, if r == row then c + 1 else c)
  {
    if m == [] {
    } else {
      SortedCons(m[0], m[1..]);
      assert m == [m[0]] + m[1..] && m[0] in m;
      if m[0].row == row {
        ShiftLeftLooks(m[1..], row, col, r, c);
      } else if r == row {
        NoSuchRow(m, r, c);
        NoSuchRow(m, r, c + 1);
      }
    }
  }

  lemma {:induction false} RemoveAfter(m: Keys, row: Byte, col: Byte, a: Key)
    requires Sorted(m) && AllAfter(m, a) && (a.row != row || a.col < col)
    ensures AllAfter(Removed(m, row, col), a)
  {
    if m != [] {
      SortedCons(m[0], m[1..]);
      assert m == [m[0]] + m[1..] && m[0] in m;
      if m[0].row == row && m[0].col == col {
        ShiftLeftAfter(m[1..], row, col, a);
      } else if m[0].row == row && m[0].col > col {
        ShiftLeftAfter(m, row, col, a);
      } else {
        RemoveAfter(m[1..], row, col, a);
      }
    }
  }

  /** RemoveKey keeps the strict order. */
  lemma {:induction false} RemoveSorted(m: Keys, row: Byte, col: Byte)
    requires Sorted(m)
    ensures Sorted(Removed(m, row, col))
  {
    if m != [] {
      SortedCons(m[0], m[1..]);
      assert m == [m[0]] + m[1..];
      if m[0].row == row && m[0].col == col {
        ShiftLeftSorted(m[1..], row, col);
      } else if m[0].row == row && m[0].col > col {
        ShiftLeftSorted(m, row, col);
      } else {
        RemoveSorted(m[1..], row, col);
        RemoveAfter(m[1..], row, col, m[0]);
        SortedCons(m[0], Removed(m[1..], row, col));
      }
    }
  }

  /** RemoveKey shifts its row left from the removed position on, used or not, and leaves
      everything else. */
  lemma {:induction false} RemoveLooks(m: Keys, row: Byte, col: Byte, r: nat, c: nat)
    requires Sorted(m)
    ensures Lookup(Removed(m, row, col), r, c) == Lookup(m, r, if r == row && c >= col then c + 1 else c)
  {
    if m != [] {
      SortedCons(m[0], m[1..]);
      assert m == [m[0]] + m[1..] && m[0] in m;
      if m[0].row == row && m[0].col == col {
        ShiftLeftLooks(m[1..], row, col, r, c);
        if r == row && c < col {
          NothingBefore(m[1..], r, c + 1);
          NothingBefore(m[1..], r, c);
        }
      } else if m[0].row == row && m[0].col > col {
        ShiftLeftLooks(m, row, col, r, c);
        if r == row && c < col {
          NothingBefore(m, r, c + 1);
          NothingBefore(m, r, c);
        }
      } else {
        RemoveLooks(m[1..], row, col, r, c);
        assert ([m[0]] + Removed(m[1..], row, col))[1..] == Removed(m[1..], row, col);
      }
    }
  }

  // ----- removing what was inserted -----

  lemma {:induction false} ShiftBack(m: Keys, row: Byte, col: Byte)
    requires Sorted(m) && AllFrom(m, row, col) && Room(m, row, col)
    ensures ShiftLeft(ShiftRight(m, row, col), row) == m
  {
    if m == [] {
    } else if m[0].row != row {
      assert m[0] in m;
    } else {
      RestFrom(m, row, col);
      assert m[0] in m;
      ShiftBack(m[1..], row, col);
      var s := ShiftRight(m, row, col);
      assert s[0] == m[0].(col := m[0].col + 1) && s[1..] == ShiftRight(m[1..], row, col);
    }
  }

  lemma RemoveShifted(m: Keys, row: Byte, col: Byte)
    requires Sorted(m) && m != [] && AllFrom(m, row, col) && Room(m, row, col)
    ensures Removed(ShiftRight(m, row, col), row, col) == m
  {
    assert m[0] in m;
    RestFrom(m, row, col);
    if m[0].row == row {
      ShiftBack(m, row, col);
    } else {
      LeaveOthers(m, row, col);
    }
  }

  lemma {:induction false} LeaveOthers(m: Keys, row: Byte, col: Byte)
    requires forall x :: x in m ==> x.row > row
    ensures Removed(m, row, col) == m
  {
    if m != [] {
      assert m[0] in m;
      LeaveOthers(m[1..], row, col);
    }
  }

  /** RemoveKey at the place of an InsertKey restores the exact list, whether the key was
      used or not, and wherever it went. */
  lemma {:induction false} InsertThenRemove(m: Keys, k: Key)
    requires Sorted(m) && Room(m, k.row, k.col)
    ensures Removed(Inserted(m, k), k.row, k.col) == m
  {
    if m == [] {
      assert Inserted(m, k)[1..] == [];
    } else if From(m[0], k.row, k.col) {
      RestFrom(m, k.row, k.col);
      var s := ShiftRight(m, k.row, k.col);
      if k.led.name == UNUSED {
        assert [] + s == s;
        RemoveShifted(m, k.row, k.col);
      } else {
        assert ([k] + s)[1..] == s;
        ShiftBack(m, k.row, k.col);
      }
    } else {
      InsertThenRemove(m[1..], k);
      var s := Inserted(m[1..], k);
      assert ([m[0]] + s)[1..] == s;
    }
  }

  // ----- swapping a key in -----

  /** The key is after a position. */
  predicate Past(k: Key, row: Byte, col: Byte) {
    k.row > row || (k.row == row && k.col > col)
  }

  /** Where SwapKey stops: at the first key at or past the position. */
  function SwapPoint(m: Keys, row: Byte, col: Byte): (i: nat)
    ensures i <= |m|
    ensures i < |m| ==> From(m[i], row, col)
    ensures forall j :: 0 <= j < i ==> !From(m[j], row, col)
  {
    if m == [] || From(m[0], row, col) then 0 else 1 + SwapPoint(m[1..], row, col)
  }

  predicate At(k: Key, row: Byte, col: Byte) {
    k.row == row && k.col == col
  }

  /** Replace, erase, insert - one place too early - or nothing. */
  function Swapped(m: Keys, k: Key): Keys {
    var i := SwapPoint(m, k.row, k.col);
    if m == [] then [k]
    else if i == |m| then m
    else if At(m[i], k.row, k.col) then
      if k.led.name == UNUSED then m[..i] + m[i + 1..]
      else m[i := m[i].(led := m[i].led.(name := k.led.name, value := k.led.value))]
    else if k.led.name == UNUSED then m
    else
      var p := if i == 0 then 0 else i - 1;
      m[..p] + [k] + m[p..]
  }

  /** A used key goes into an empty place that is neither in front of all keys nor behind them. */
  predicate Misplaced(m: Keys, k: Key) {
    var i := SwapPoint(m, k.row, k.col);
    0 < i < |m| && !At(m[i], k.row, k.col) && k.led.name != UNUSED
  }

  /** SwapKey keeps the order exactly when it does not insert between two keys. */
  lemma SwapSortedExact(m: Keys, k: Key)
    requires Sorted(m)
    ensures Sorted(Swapped(m, k)) <==> !Misplaced(m, k)
  {
    var i := SwapPoint(m, k.row, k.col);
    var s := Swapped(m, k);
    if Misplaced(m, k) {
      assert s[i - 1] == k && s[i] == m[i - 1];
    } else if i < |m| && i == 0 && !At(m[0], k.row, k.col) && k.led.name != UNUSED {
      assert s == [k] + m;
      RestFrom(m, k.row, k.col);
      SortedCons(k, m);
    } else if i < |m| && At(m[i], k.row, k.col) && k.led.name == UNUSED {
      assert forall j :: 0 <= j < |s| ==> s[j] == m[if j < i then j else j + 1];
    }
  }

  // ----- what a swap does to lookups -----

  /** No two keys share a position. */
  ghost predicate OnePerPlace(m: Keys) {
    forall i, j :: 0 <= i < j < |m| ==> m[i].row != m[j].row || m[i].col != m[j].col
  }

  /** A lookup finds the one key that is there, wherever it is in the list. */
  lemma {:induction false} LookupIs(m: Keys, i: nat)
    requires OnePerPlace(m) && i < |m|
    ensures Lookup(m, m[i].row, m[i].col) == Some(m[i].led)
  {
    if i > 0 {
      LookupIs(m[1..], i - 1);
    }
  }

  lemma {:induction false} LookupNone(m: Keys, row: nat, col: nat)
    requires forall x :: x in m ==> x.row != row || x.col != col
    ensures Lookup(m, row, col) == None
  {
    if m != [] {
      LookupNone(m[1..], row, col);
    }
  }

  /** Adding a key in an empty place, anywhere in the list, changes the lookup there only. */
  lemma {:induction false} LookupAdded(m: Keys, k: Key, p: nat, r: nat, c: nat)
    requires p <= |m| && forall x :: x in m ==> !At(x, k.row, k.col)
    ensures Lookup(m[..p] + [k] + m[p..], r, c) == if r == k.row && c == k.col then Some(k.led) else Lookup(m, r, c)
  {
    var s := m[..p] + [k] + m[p..];
    if p == 0 {
      assert s == [k] + m && s[1..] == m;
    } else {
      LookupAdded(m[1..], k, p - 1, r, c);
      assert s[1..] == m[1..][..p - 1] + [k] + m[1..][p - 1..];
      assert m[0] in m;
    }
  }

  lemma {:induction false} LookupErased(m: Keys, p: nat, r: nat, c: nat)
    requires OnePerPlace(m) && p < |m|
    ensures Lookup(m[..p] + m[p + 1..], r, c) == if r == m[p].row && c == m[p].col then None else Lookup(m, r, c)
  {
    var s := m[..p] + m[p + 1..];
    if p == 0 {
      assert s == m[1..];
      forall x | x in m[1..]
        ensures x.row != m[0].row || x.col != m[0].col
      {
        var j :| 0 <= j < |m[1..]| && m[1..][j] == x;
        assert m[j + 1] == x;
      }
      LookupNone(m[1..], m[0].row, m[0].col);
    } else {
      LookupErased(m[1..], p - 1, r, c);
      assert s[1..] == m[1..][..p - 1] + m[1..][p..];
      assert m[1..][p..] == m[p + 1..];
    }
  }

  lemma {:induction false} LookupReplaced(m: Keys, p: nat, led: Led, r: nat, c: nat)
    requires OnePerPlace(m) && p < |m|
    ensures Lookup(m[p := m[p].(led := led)], r, c) ==
            if r == m[p].row && c == m[p].col then Some(led) else Lookup(m, r, c)
  {
    var s := m[p := m[p].(led := led)];
    if p == 0 {
      assert s[1..] == m[1..];
    } else {
      LookupReplaced(m[1..], p - 1, led, r, c);
      assert s[1..] == m[1..][p - 1 := m[p].(led := led)];
    }
  }

  /** A key past the last one: the swap does nothing. */
  predicate PastAll(m: Keys, k: Key) {
    m != [] && SwapPoint(m, k.row, k.col) == |m|
  }

  /** Whatever it does to the order, on a sorted map SwapKey changes the lookup at its
      own position only, and there to the new name unless the position is past all keys. */
  lemma SwapLooks(m: Keys, k: Key, r: nat, c: nat)
    requires Sorted(m)
    ensures !(r == k.row && c == k.col) ==> Lookup(Swapped(m, k), r, c) == Lookup(m, r, c)
    ensures NameAt(Swapped(m, k), k.row, k.col) == if PastAll(m, k) then UNUSED else k.led.name
  {
    var i := SwapPoint(m, k.row, k.col);
    if m == [] {
      assert [k][1..] == [];
    } else if i < |m| && At(m[i], k.row, k.col) {
      if k.led.name == UNUSED {
        LookupErased(m, i, r, c);
        LookupErased(m, i, k.row, k.col);
      } else {
        var led := m[i].led.(name := k.led.name, value := k.led.value);
        LookupReplaced(m, i, led, r, c);
        LookupReplaced(m, i, led, k.row, k.col);
      }
    } else {
      EmptyPlace(m, k.row, k.col);
      LookupNone(m, k.row, k.col);
      if i < |m| && k.led.name != UNUSED {
        var p := if i == 0 then 0 else i - 1;
        LookupAdded(m, k, p, r, c);
        LookupAdded(m, k, p, k.row, k.col);
      }
    }
  }

  lemma EmptyPlace(m: Keys, row: Byte, col: Byte)
    requires Sorted(m)
    requires var i := SwapPoint(m, row, col); i < |m| ==> !At(m[i], row, col)
    ensures forall x :: x in m ==> !At(x, row, col)
  {
    var i := SwapPoint(m, row, col);
    forall x | x in m
      ensures !At(x, row, col)
    {
      var j :| 0 <= j < |m| && m[j] == x;
      if j > i {
        assert Before(m[i], m[j]);
      }
    }
  }

  // ----- rows -----

  function AllUp(m: Keys): (r: Keys)
    ensures |r| == |m| && forall i :: 0 <= i < |m| ==> r[i] == m[i].(row := Up(m[i].row))
  {
    seq(|m|, i requires 0 <= i < |m| => m[i].(row := Up(m[i].row)))
  }

  function AllDown(m: Keys): (r: Keys)
    ensures |r| == |m| && forall i :: 0 <= i < |m| ==> r[i] == m[i].(row := Down(m[i].row))
  {
    seq(|m|, i requires 0 <= i < |m| => m[i].(row := Down(m[i].row)))
  }

  /** From the first key on or after the row, every key moves a row down the keyboard. */
  function RowInserted(m: Keys, row: Byte): Keys {
    if m == [] then []
    else if row <= m[0].row then AllUp(m)
    else [m[0]] + RowInserted(m[1..], row)
  }

  /** The keys of the row go, up to the first key of a later row; from there every key moves up. */
  function RowRemoved(m: Keys, row: Byte): Keys {
    if m == [] then []
    else if row < m[0].row then AllDown(m)
    else (if m[0].row == row then [] else [m[0]]) + RowRemoved(m[1..], row)
  }

  /** There is a later row for the removal to read and move. */
  predicate HasLater(m: Keys, row: Byte) {
    exists x :: x in m && x.row > row
  }

  ghost predicate RowRoom(m: Keys, row: Byte) {
    forall x :: x in m && x.row >= row ==> x.row < 255
  }

  lemma UpThenDown(m: Keys, row: Byte)
    requires Sorted(m) && RowRoom(m, row) && m != [] && row <= m[0].row
    ensures AllUp(m)[0].row > row && AllDown(AllUp(m)) == m
  {
    RowsFrom(m, row);
    UpDown(m);
  }

  lemma UpDown(m: Keys)
    requires forall x :: x in m ==> x.row < 255
    ensures AllDown(AllUp(m)) == m
  {
    forall i | 0 <= i < |m|
      ensures AllDown(AllUp(m))[i] == m[i]
    {
      assert m[i] in m;
    }
  }

  /** RemoveRow after InsertRow restores the exact list. */
  lemma {:induction false} InsertThenRemoveRow(m: Keys, row: Byte)
    requires Sorted(m) && RowRoom(m, row)
    ensures RowRemoved(RowInserted(m, row), row) == m
  {
    if m != [] {
      SortedCons(m[0], m[1..]);
      assert m == [m[0]] + m[1..] && m[0] in m;
      if row <= m[0].row {
        UpThenDown(m, row);
      } else {
        InsertThenRemoveRow(m[1..], row);
        var s := RowInserted(m[1..], row);
        assert ([m[0]] + s)[1..] == s;
      }
    }
  }

  /** InsertRow leaves an empty row and moves the later ones by one. */
  lemma {:induction false} RowInsertLooks(m: Keys, row: Byte, r: nat, c: nat)
    requires Sorted(m) && RowRoom(m, row)
    ensures Lookup(RowInserted(m, row), r, c) ==
            if r < row then Lookup(m, r, c) else if r == row then None else Lookup(m, r - 1, c)
  {
    if m != [] {
      SortedCons(m[0], m[1..]);
      assert m == [m[0]] + m[1..] && m[0] in m;
      if row <= m[0].row {
        RowsFrom(m, row);
        AllUpLooks(m, row, r, c);
        if r < row {
          LookupNone(m, r, c);
        }
      } else {
        RowInsertLooks(m[1..], row, r, c);
        assert ([m[0]] + RowInserted(m[1..], row))[1..] == RowInserted(m[1..], row);
      }
    }
  }

  lemma {:induction false} AllUpLooks(m: Keys, row: Byte, r: nat, c: nat)
    requires forall x :: x in m ==> row <= x.row < 255
    ensures Lookup(AllUp(m), r, c) == if r <= row then None else Lookup(m, r - 1, c)
  {
    if m != [] {
      assert m[0] in m;
      AllUpLooks(m[1..], row, r, c);
      assert AllUp(m)[1..] == AllUp(m[1..]);
    }
  }

  /** In a sorted list all keys are on the first key's row or later. */
  lemma RowsFrom(m: Keys, row: Byte)
    requires Sorted(m) && m != [] && row <= m[0].row
    ensures forall x :: x in m ==> row <= x.row
  {
    forall x | x in m
      ensures row <= x.row
    {
      var i :| 0 <= i < |m| && m[i] == x;
      assert i > 0 ==> Before(m[0], m[i]);
    }
  }

  /** RemoveRow removes the row and moves the later ones back by one. */
  lemma {:induction false} RowRemoveLooks(m: Keys, row: Byte, r: nat, c: nat)
    requires Sorted(m)
    ensures Lookup(RowRemoved(m, row), r, c) == Lookup(m, if r < row then r else r + 1, c)
  {
    if m != [] {
      SortedCons(m[0], m[1..]);
      assert m == [m[0]] + m[1..] && m[0] in m;
      if row < m[0].row {
        RowsFrom(m, row + 1);
        AllDownLooks(m, row, r, c);
      } else {
        RowRemoveLooks(m[1..], row, r, c);
        assert ([m[0]] + RowRemoved(m[1..], row))[1..] == RowRemoved(m[1..], row);
        assert [] + RowRemoved(m[1..], row) == RowRemoved(m[1..], row);
      }
    }
  }

  lemma {:induction false} AllDownLooks(m: Keys, row: Byte, r: nat, c: nat)
    requires forall x :: x in m ==> row < x.row
    ensures Lookup(AllDown(m), r, c) == Lookup(m, if r < row then r else r + 1, c)
  {
    if m != [] {
      assert m[0] in m;
      AllDownLooks(m[1..], row, r, c);
      assert AllDown(m)[1..] == AllDown(m[1..]);
      if r < row {
        LookupNone(m[1..], r, c);
      }
    }
  }

  lemma {:induction false} RowInsertSorted(m: Keys, row: Byte)
    requires Sorted(m) && RowRoom(m, row)
    ensures Sorted(RowInserted(m, row))
    ensures forall a: Key :: AllAfter(m, a) ==> AllAfter(RowInserted(m, row), a)
  {
    if m != [] {
      SortedCons(m[0], m[1..]);
      assert m == [m[0]] + m[1..] && m[0] in m;
      if row <= m[0].row {
        AllUpSorted(m, row);
      } else {
        RowInsertSorted(m[1..], row);
        SortedCons(m[0], RowInserted(m[1..], row));
      }
    }
  }

  lemma AllUpSorted(m: Keys, row: Byte)
    requires Sorted(m) && RowRoom(m, row) && m != [] && row <= m[0].row
    ensures Sorted(AllUp(m))
    ensures forall a: Key :: AllAfter(m, a) ==> AllAfter(AllUp(m), a)
  {
    var s := AllUp(m);
    forall i | 0 <= i < |m|
      ensures s[i] == m[i].(row := m[i].row + 1)
    {
      assert m[i] in m && (i > 0 ==> Before(m[0], m[i]));
    }
    forall a: Key, x | AllAfter(m, a) && x in s
      ensures Before(a, x)
    {
      var i :| 0 <= i < |s| && s[i] == x;
      assert m[i] in m && Before(a, m[i]);
    }
  }

  lemma {:induction false} RowRemoveSorted(m: Keys, row: Byte)
    requires Sorted(m)
    ensures Sorted(RowRemoved(m, row))
    ensures forall a: Key :: AllAfter(m, a) && a.row < row ==> AllAfter(RowRemoved(m, row), a)
  {
    if m != [] {
      SortedCons(m[0], m[1..]);
      assert m == [m[0]] + m[1..] && m[0] in m;
      if row < m[0].row {
        AllDownSorted(m, row);
      } else {
        RowRemoveSorted(m[1..], row);
        var s := RowRemoved(m[1..], row);
        SortedCons(m[0], s);
        assert [] + s == s;
      }
    }
  }

  lemma AllDownSorted(m: Keys, row: Byte)
    requires Sorted(m) && m != [] && row < m[0].row
    ensures Sorted(AllDown(m))
    ensures forall a: Key :: AllAfter(m, a) && a.row < row ==> AllAfter(AllDown(m), a)
  {
    var s := AllDown(m);
    forall i | 0 <= i < |m|
      ensures s[i] == m[i].(row := m[i].row - 1) && m[i].row > row
    {
      assert i > 0 ==> Before(m[0], m[i]);
    }
  }
}

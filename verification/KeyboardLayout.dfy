/** The keyboard layout object: its key list, edited in place by loops, and scripts of edits. */
module KeyboardLayout {
  import opened LittleEndian
  import opened Keymap
  import opened MatrixMap

  datatype Opcode = InsertShiftRight | SwapOnly | RemoveShiftLeft | InsertShiftAdjacent
    | InsertRow | RemoveRow | AddAltName | Missing

  datatype Edit = Edit(opcode: Opcode, key: Key)

  /** The first key at the position gets the other name. */
  function AltNamed(m: Keys, k: Key): Keys {
    if m == [] then []
    else if At(m[0], k.row, k.col) then [m[0].(led := m[0].led.(altName := k.led.altName))] + m[1..]
    else [m[0]] + AltNamed(m[1..], k)
  }

  /** One edit; rows is the row count that was current when the script began. */
  function Apply(m: Keys, rows: nat, e: Edit): Keys {
    match e.opcode
    case InsertShiftRight => Inserted(m, e.key)
    case SwapOnly => Swapped(m, e.key)
    case RemoveShiftLeft => Removed(m, e.key.row, e.key.col)
    case InsertRow => if e.key.row < rows then Swapped(RowInserted(m, e.key.row), e.key) else m
    case RemoveRow => if e.key.row < rows then RowRemoved(m, e.key.row) else m
    case AddAltName => AltNamed(m, e.key)
    case _ => m
  }

  function Script(m: Keys, rows: nat, edits: seq<Edit>): Keys {
    if edits == [] then m else Apply(Script(m, rows, edits[..|edits| - 1]), rows, edits[|edits| - 1])
  }

  /** The row edits look at a key on the row or after it, and read past the list when there is none. */
  predicate ReadsInside(m: Keys, rows: nat, e: Edit) {
    match e.opcode
    case InsertRow => e.key.row < rows ==> exists x :: x in m && x.row >= e.key.row
    case RemoveRow => e.key.row < rows ==> HasLater(m, e.key.row)
    case _ => true
  }

  // ----- which scripts keep the order -----

  /** Keys that the edit moves can move. */
  ghost predicate HasRoom(m: Keys, rows: nat, e: Edit) {
    match e.opcode
    case InsertShiftRight => Room(m, e.key.row, e.key.col)
    case InsertRow => e.key.row < rows ==> RowRoom(m, e.key.row)
    case _ => true
  }

  /** The edit does not put a key between two others by a swap. */
  predicate Orderly(m: Keys, rows: nat, e: Edit) {
    match e.opcode
    case SwapOnly => !Misplaced(m, e.key)
    case InsertRow => e.key.row < rows ==> !Misplaced(RowInserted(m, e.key.row), e.key)
    case _ => true
  }

  lemma {:induction false} AltNamedSorted(m: Keys, k: Key)
    requires Sorted(m)
    ensures Sorted(AltNamed(m, k))
    ensures forall a: Key :: AllAfter(m, a) ==> AllAfter(AltNamed(m, k), a)
  {
    if m != [] {
      SortedCons(m[0], m[1..]);
      assert m == [m[0]] + m[1..] && m[0] in m;
      if At(m[0], k.row, k.col) {
        SortedCons(m[0].(led := m[0].led.(altName := k.led.altName)), m[1..]);
      } else {
        AltNamedSorted(m[1..], k);
        SortedCons(m[0], AltNamed(m[1..], k));
      }
    }
  }

  /** An edit keeps the strict order exactly when it is orderly. */
  lemma ApplySortedExact(m: Keys, rows: nat, e: Edit)
    requires Sorted(m) && HasRoom(m, rows, e)
    ensures Sorted(Apply(m, rows, e)) <==> Orderly(m, rows, e)
  {
    var k := e.key;
    match e.opcode
    case InsertShiftRight => InsertSorted(m, k);
    case SwapOnly => SwapSortedExact(m, k);
    case RemoveShiftLeft => RemoveSorted(m, k.row, k.col);
    case InsertRow =>
      if k.row < rows {
        RowInsertSorted(m, k.row);
        SwapSortedExact(RowInserted(m, k.row), k);
      }
    case RemoveRow => RowRemoveSorted(m, k.row);
    case AddAltName => AltNamedSorted(m, k);
    case _ =>
  }

  ghost predicate OrderlyScript(m: Keys, rows: nat, edits: seq<Edit>) {
    forall i :: 0 <= i < |edits| ==>
      var m' := Script(m, rows, edits[..i]); HasRoom(m', rows, edits[i]) && Orderly(m', rows, edits[i])
  }

  /** A script of orderly edits keeps the strict order. */
  lemma {:induction false} ScriptSorted(m: Keys, rows: nat, edits: seq<Edit>)
    requires Sorted(m) && OrderlyScript(m, rows, edits)
    ensures Sorted(Script(m, rows, edits))
    decreases |edits|
  {
    if edits != [] {
      var n := |edits| - 1;
      assert forall i :: 0 <= i < n ==> edits[..n][..i] == edits[..i];
      ScriptSorted(m, rows, edits[..n]);
      ApplySortedExact(Script(m, rows, edits[..n]), rows, edits[n]);
    }
  }

  /** Inserting a row together with a used key misplaces the key whenever there are rows
      before and after it. */
  lemma InsertRowOrderly(m: Keys, rows: nat, k: Key)
    requires Sorted(m) && RowRoom(m, k.row) && k.row < rows
    ensures Orderly(m, rows, Edit(InsertRow, k)) <==>
              k.led.name == UNUSED || (forall x :: x in m ==> x.row >= k.row) || (forall x :: x in m ==> x.row < k.row)
  {
    RowInsertedAt(m, k.row);
    if exists x :: x in m && x.row >= k.row {
      RowsBehind(m, rows, k);
    } else {
      var s := RowInserted(m, k.row);
      assert forall i :: 0 <= i < |s| ==> s[i] == m[i] && m[i] in m;
    }
  }

  lemma NoRowBefore(m: Keys, row: Byte)
    requires Sorted(m) && m != [] && m[0].row >= row
    ensures forall y :: y in m ==> y.row >= row
  {
    forall y | y in m
      ensures y.row >= row
    {
      var h :| 0 <= h < |m| && m[h] == y;
      assert h > 0 ==> Before(m[0], m[h]);
    }
  }

  lemma KeyInserted(m: Keys, k: Key, i: nat)
    requires Sorted(m) && RowRoom(m, k.row) && i < |m|
    ensures |RowInserted(m, k.row)| == |m|
    ensures From(RowInserted(m, k.row)[i], k.row, k.col) <==> m[i].row >= k.row
    ensures At(RowInserted(m, k.row)[i], k.row, k.col) ==> m[i].row < k.row
  {
    RowInsertedAt(m, k.row);
  }

  lemma RowsBehind(m: Keys, rows: nat, k: Key)
    requires Sorted(m) && RowRoom(m, k.row) && k.row < rows && exists x :: x in m && x.row >= k.row
    ensures Orderly(m, rows, Edit(InsertRow, k)) <==> k.led.name == UNUSED || forall x :: x in m ==> x.row >= k.row
  {
    var s := RowInserted(m, k.row);
    var i := SwapPoint(s, k.row, k.col);
    var x :| x in m && x.row >= k.row;
    var j :| 0 <= j < |m| && m[j] == x;
    KeyInserted(m, k, j);
    assert i <= j;
    KeyInserted(m, k, i);
    KeyInserted(m, k, 0);
    if i > 0 {
      assert !From(s[0], k.row, k.col) && m[0] in m;
    } else {
      NoRowBefore(m, k.row);
    }
  }

  /** Keys before the row stay, the others move by one row. */
  lemma {:induction false} RowInsertedAt(m: Keys, row: Byte)
    requires Sorted(m) && RowRoom(m, row)
    ensures |RowInserted(m, row)| == |m|
    ensures forall i :: 0 <= i < |m| ==>
              RowInserted(m, row)[i] == if m[i].row < row then m[i] else m[i].(row := m[i].row + 1)
  {
    if m != [] {
      SortedCons(m[0], m[1..]);
      assert m == [m[0]] + m[1..] && m[0] in m;
      if row <= m[0].row {
        forall i | 0 <= i < |m|
          ensures row <= m[i].row < 255
        {
          assert m[i] in m && (i > 0 ==> Before(m[0], m[i]));
        }
      } else {
        RowInsertedAt(m[1..], row);
      }
    }
  }

  // ----- dimensions -----

  function MaxRow(m: Keys): (r: Byte)
    ensures forall x :: x in m ==> x.row <= r
    ensures m != [] ==> exists x :: x in m && x.row == r
    ensures m == [] ==> r == 0
  {
    if m == [] then 0
    else
      var r := MaxRow(m[..|m| - 1]);
      var k := m[|m| - 1];
      assert m == m[..|m| - 1] + [k] && k in m;
      if k.row > r then k.row else r
  }

  function MaxCol(m: Keys): (c: Byte)
    ensures forall x :: x in m ==> x.col <= c
    ensures m != [] ==> exists x :: x in m && x.col == c
    ensures m == [] ==> c == 0
  {
    if m == [] then 0
    else
      var c := MaxCol(m[..|m| - 1]);
      var k := m[|m| - 1];
      assert m == m[..|m| - 1] + [k] && k in m;
      if k.col > c then k.col else c
  }

  /** With an up-to-date row count, inserting a row below it always finds a key to read;
      removing a row does so exactly when it is not the last one. */
  lemma RowEditsReadInside(m: Keys, k: Key)
    requires m != [] && MaxRow(m) < 255
    ensures ReadsInside(m, Up(MaxRow(m)), Edit(InsertRow, k))
    ensures ReadsInside(m, Up(MaxRow(m)), Edit(RemoveRow, k)) <==> k.row != MaxRow(m)
  {
    var x :| x in m && x.row == MaxRow(m);
  }

  /** RemoveRow(r) after InsertRow(r) finds a later row and restores the exact list, for
      every r that InsertRow can insert, as it can below an up-to-date row count. */
  lemma RowRoundTrip(m: Keys, r: Byte)
    requires Sorted(m) && RowRoom(m, r) && exists x :: x in m && x.row >= r
    ensures HasLater(RowInserted(m, r), r)
    ensures RowRemoved(RowInserted(m, r), r) == m
  {
    InsertThenRemoveRow(m, r);
    var x :| x in m && x.row >= r;
    LaterAfterInsert(m, r, x);
  }

  lemma LaterAfterInsert(m: Keys, r: Byte, x: Key)
    requires Sorted(m) && RowRoom(m, r) && x in m && x.row >= r
    ensures HasLater(RowInserted(m, r), r)
  {
    RowInsertedAt(m, r);
    var s := RowInserted(m, r);
    var i :| 0 <= i < |m| && m[i] == x;
    assert s[i] in s && s[i].row == x.row + 1;
  }

  // ----- one step of a loop over the list -----

  lemma Tail(m: Keys, i: nat)
    requires i < |m|
    ensures m[i..] != [] && m[i..][0] == m[i] && m[i..][1..] == m[i + 1..]
  {
  }

  /** A key that stays goes from the part to be edited to the part that is done. */
  lemma Advance(m: Keys, i: nat, a: Keys, b: Keys)
    requires i < |m| && a == [m[i]] + b
    ensures m[..i] + a == m[..i + 1] + b
  {
  }

  /** Rewriting or erasing key i leaves what is before and after it. */
  lemma Rewritten(m: Keys, i: nat, k: Key)
    requires i < |m|
    ensures m[i := k][..i] == m[..i] && m[i := k][i + 1..] == m[i + 1..] && m[i := k] == m[..i] + ([k] + m[i + 1..])
    ensures (m[..i] + m[i + 1..])[..i] == m[..i] && (m[..i] + m[i + 1..])[i..] == m[i + 1..]
  {
  }

  lemma Split(m: Keys, i: nat, k: Key)
    requires i <= |m|
    ensures var s := m[..i] + [k] + m[i..];
            s[..i + 1] == m[..i] + [k] && s[i + 1..] == m[i..]
  {
  }

  lemma InsertFirst(m: Keys, k: Key)
    requires m != [] && From(m[0], k.row, k.col)
    ensures Inserted(m, k)
         == if k.led.name == UNUSED then ShiftRight(m, k.row, k.col) else [k] + ShiftRight(m, k.row, k.col)
  {
    var s := ShiftRight(m, k.row, k.col);
    assert [] + s == s;
  }

  lemma Regroup(a: Keys, k: Key, s: Keys)
    ensures a + [k] + s == a + ([k] + s)
  {
  }

  /** What insertion comes to at its point. */
  lemma InsertAtPoint(m: Keys, i: nat, k: Key)
    requires i <= |m| && (i < |m| ==> From(m[i], k.row, k.col))
    requires Inserted(m, k) == m[..i] + Inserted(m[i..], k)
    ensures i == |m| ==> Inserted(m, k) == m + [k]
    ensures var front := if k.led.name == UNUSED then m[..i] else m[..i] + [k];
            i < |m| ==> Inserted(m, k) == front + ShiftRight(m[i..], k.row, k.col)
  {
    if i < |m| {
      Tail(m, i);
      InsertFirst(m[i..], k);
      Regroup(m[..i], k, ShiftRight(m[i..], k.row, k.col));
    } else {
      assert m[..i] == m;
    }
  }

  class Layout {
    var keymap: Keys
    var rows: Byte
    var cols: Byte

    constructor (keymap: Keys)
      ensures this.keymap == keymap && rows == 0 && cols == 0
    {
      this.keymap, rows, cols := keymap, 0, 0;
    }

    /** The loop that moves the rest of the row right, from index i on. */
    method MoveRight(i: nat, row: Byte, col: Byte)
      requires i <= |keymap|
      modifies this`keymap
      ensures keymap == old(keymap)[..i] + ShiftRight(old(keymap)[i..], row, col)
    {
      var j := i;
      ghost var all := keymap[..i] + ShiftRight(keymap[i..], row, col);
      while j < |keymap|
        invariant i <= j <= |keymap|
        invariant all == keymap[..j] + ShiftRight(keymap[j..], row, col)
      {
        var k := keymap[j];
        ghost var a := ShiftRight(keymap[j..], row, col);
        Tail(keymap, j);
        if k.row > row {
          assert keymap[..j] + keymap[j..] == keymap;
          return;
        }
        if k.row == row && k.col >= col {
          Rewritten(keymap, j, k.(col := Up(k.col)));
          keymap := keymap[j := k.(col := Up(k.col))];
        }
        Advance(keymap, j, a, ShiftRight(keymap[j + 1..], row, col));
        j := j + 1;
      }
    }

    /** The search for the insertion point. */
    method InsertPoint(ins: Key) returns (i: nat)
      ensures i <= |keymap| && (i < |keymap| ==> From(keymap[i], ins.row, ins.col))
      ensures Inserted(keymap, ins) == keymap[..i] + Inserted(keymap[i..], ins)
    {
      i := 0;
      assert keymap[0..] == keymap;
      while i < |keymap| && !From(keymap[i], ins.row, ins.col)
        invariant i <= |keymap|
        invariant Inserted(keymap, ins) == keymap[..i] + Inserted(keymap[i..], ins)
      {
        Tail(keymap, i);
        Advance(keymap, i, Inserted(keymap[i..], ins), Inserted(keymap[i + 1..], ins));
        i := i + 1;
      }
    }

    method InsertKey(ins: Key)
      modifies this`keymap
      ensures keymap == Inserted(old(keymap), ins)
    {
      var i := InsertPoint(ins);
      InsertAtPoint(keymap, i, ins);
      if i == |keymap| {
        keymap := keymap + [ins];
        return;
      }
      if ins.led.name != UNUSED {
        Split(keymap, i, ins);
        keymap := keymap[..i] + [ins] + keymap[i..];
        i := i + 1;
      }
      MoveRight(i, ins.row, ins.col);
    }

    /** The loop that moves the rest of the row left, from index i on. */
    method MoveLeft(i: nat, row: Byte)
      requires i <= |keymap|
      modifies this`keymap
      ensures keymap == old(keymap)[..i] + ShiftLeft(old(keymap)[i..], row)
    {
      var j := i;
      ghost var all := keymap[..i] + ShiftLeft(keymap[i..], row);
      while j < |keymap| && keymap[j].row == row
        invariant i <= j <= |keymap|
        invariant all == keymap[..j] + ShiftLeft(keymap[j..], row)
      {
        ghost var a := ShiftLeft(keymap[j..], row);
        Tail(keymap, j);
        Rewritten(keymap, j, keymap[j].(col := Down(keymap[j].col)));
        keymap := keymap[j := keymap[j].(col := Down(keymap[j].col))];
        Advance(keymap, j, a, ShiftLeft(keymap[j + 1..], row));
        j := j + 1;
      }
      assert keymap[..j] + keymap[j..] == keymap;
    }

    method RemoveKey(rmv: Key)
      modifies this`keymap
      ensures keymap == Removed(old(keymap), rmv.row, rmv.col)
    {
      var i := 0;
      ghost var m := keymap;
      assert m[0..] == m;
      while i < |keymap|
        invariant i <= |keymap| && keymap == m
        invariant Removed(m, rmv.row, rmv.col) == m[..i] + Removed(m[i..], rmv.row, rmv.col)
      {
        Tail(m, i);
        if At(keymap[i], rmv.row, rmv.col) {
          Rewritten(m, i, rmv);
          keymap := keymap[..i] + keymap[i + 1..];
          MoveLeft(i, rmv.row);
          return;
        }
        if rmv.row == keymap[i].row && rmv.col < keymap[i].col {
          MoveLeft(i, rmv.row);
          return;
        }
        Advance(m, i, Removed(m[i..], rmv.row, rmv.col), Removed(m[i + 1..], rmv.row, rmv.col));
        i := i + 1;
      }
      assert m[..i] == m;
    }

    method SwapKey(swp: Key)
      modifies this`keymap
      ensures keymap == Swapped(old(keymap), swp)
    {
      if |keymap| == 0 {
        keymap := [swp];
        return;
      }
      var i := 0;
      ghost var m := keymap;
      assert m[0..] == m;
      while i < |keymap|
        invariant i <= |keymap| && keymap == m
        invariant SwapPoint(m, swp.row, swp.col) == i + SwapPoint(m[i..], swp.row, swp.col)
      {
        assert m[i..][1..] == m[i + 1..];
        if At(keymap[i], swp.row, swp.col) {
          if swp.led.name == UNUSED {
            keymap := keymap[..i] + keymap[i + 1..];
          } else {
            keymap := keymap[i := keymap[i].(led := keymap[i].led.(name := swp.led.name, value := swp.led.value))];
          }
          return;
        }
        if Past(keymap[i], swp.row, swp.col) {
          if swp.led.name != UNUSED {
            if i == 0 {
              keymap := [swp] + keymap;
              assert keymap == m[..0] + [swp] + m[0..];
            } else {
              keymap := keymap[..i - 1] + [swp] + keymap[i - 1..];
            }
          }
          return;
        }
        i := i + 1;
      }
    }

    /** The loop that numbers all rows up from index i on. */
    method RowsUp(i: nat)
      requires i <= |keymap|
      modifies this`keymap
      ensures keymap == old(keymap)[..i] + AllUp(old(keymap)[i..])
    {
      var j := i;
      while j < |keymap|
        invariant i <= j <= |keymap| == |old(keymap)|
        invariant forall k :: 0 <= k < |keymap| ==>
                    keymap[k] == if i <= k < j then old(keymap)[k].(row := Up(old(keymap)[k].row)) else old(keymap)[k]
      {
        keymap := keymap[j := keymap[j].(row := Up(keymap[j].row))];
        j := j + 1;
      }
    }

    /** The loop that numbers all rows down from index i on. */
    method RowsDown(i: nat)
      requires i <= |keymap|
      modifies this`keymap
      ensures keymap == old(keymap)[..i] + AllDown(old(keymap)[i..])
    {
      var j := i;
      while j < |keymap|
        invariant i <= j <= |keymap| == |old(keymap)|
        invariant forall k :: 0 <= k < |keymap| ==>
                    keymap[k] == if i <= k < j then old(keymap)[k].(row := Down(old(keymap)[k].row)) else old(keymap)[k]
      {
        keymap := keymap[j := keymap[j].(row := Down(keymap[j].row))];
        j := j + 1;
      }
    }

    /** The row of key i. Past the list the source reads all the same, and what it finds
        there is unknown. */
    method RowAt(i: nat) returns (row: Byte)
      requires i <= |keymap|
      ensures i < |keymap| ==> row == keymap[i].row
    {
      if i < |keymap| {
        row := keymap[i].row;
      } else {
        row := *;
      }
    }

    /** Whatever is read past the list, when no key is on the row or after it, the list stays. */
    method InsertRow(ins: Byte) returns (ok: bool)
      modifies this`keymap
      ensures ok <==> ins < rows
      ensures keymap == if ok then RowInserted(old(keymap), ins) else old(keymap)
    {
      if ins >= rows { return false; }
      var i := 0;
      ghost var m := keymap;
      assert m[0..] == m;
      while i < |keymap| && !(ins <= keymap[i].row)
        invariant i <= |keymap| && keymap == m
        invariant RowInserted(m, ins) == m[..i] + RowInserted(m[i..], ins)
        invariant forall j :: 0 <= j < i ==> keymap[j].row < ins
      {
        Tail(m, i);
        Advance(m, i, RowInserted(m[i..], ins), RowInserted(m[i + 1..], ins));
        i := i + 1;
      }
      var row := RowAt(i);
      if ins <= row {
        RowsUp(i);
      }
      return true;
    }

    /** Erasing the keys of a row, up to the first key of a later row. */
    method EraseRow(rmv: Byte) returns (i: nat)
      modifies this`keymap
      ensures i <= |keymap| && (i < |keymap| ==> rmv < keymap[i].row)
      ensures RowRemoved(old(keymap), rmv) == keymap[..i] + AllDown(keymap[i..])
    {
      i := 0;
      ghost var m := keymap;
      assert keymap[0..] == m;
      while i < |keymap| && rmv >= keymap[i].row
        invariant i <= |keymap|
        invariant RowRemoved(m, rmv) == keymap[..i] + RowRemoved(keymap[i..], rmv)
        decreases |keymap| - i
      {
        Tail(keymap, i);
        if rmv == keymap[i].row {
          assert [] + RowRemoved(keymap[i + 1..], rmv) == RowRemoved(keymap[i + 1..], rmv);
          Rewritten(keymap, i, keymap[i]);
          keymap := keymap[..i] + keymap[i + 1..];
        } else {
          Advance(keymap, i, RowRemoved(keymap[i..], rmv), RowRemoved(keymap[i + 1..], rmv));
          i := i + 1;
        }
      }
    }

    /** When there is no later row, whatever is read past the list, only the row's keys go. */
    method RemoveRow(rmv: Byte)
      modifies this`keymap
      ensures keymap == if rmv < rows then RowRemoved(old(keymap), rmv) else old(keymap)
    {
      if rmv >= rows { return; }
      var i := EraseRow(rmv);
      var row := RowAt(i);
      if rmv < row {
        RowsDown(i);
      }
    }

    method AddAltName(key: Key)
      modifies this`keymap
      ensures keymap == AltNamed(old(keymap), key)
    {
      var i := 0;
      ghost var m := keymap;
      assert m[0..] == m;
      while i < |keymap|
        invariant i <= |keymap| && keymap == m
        invariant AltNamed(m, key) == m[..i] + AltNamed(m[i..], key)
      {
        Tail(m, i);
        if At(keymap[i], key.row, key.col) {
          keymap := keymap[i := keymap[i].(led := keymap[i].led.(altName := key.led.altName))];
          Rewritten(m, i, keymap[i]);
          return;
        }
        Advance(m, i, AltNamed(m[i..], key), AltNamed(m[i + 1..], key));
        i := i + 1;
      }
      assert m[..i] == m;
    }

    method UpdateDimensions()
      modifies this`rows, this`cols
      ensures rows == Up(MaxRow(keymap)) && cols == Up(MaxCol(keymap))
    {
      var maxRow: Byte, maxCol: Byte := 0, 0;
      var i := 0;
      while i < |keymap|
        invariant i <= |keymap| && maxRow == MaxRow(keymap[..i]) && maxCol == MaxCol(keymap[..i])
      {
        assert keymap[..i + 1][..i] == keymap[..i];
        if keymap[i].row > maxRow {
          maxRow := keymap[i].row;
        }
        if keymap[i].col > maxCol {
          maxCol := keymap[i].col;
        }
        i := i + 1;
      }
      assert keymap[..i] == keymap;
      rows, cols := Up(maxRow), Up(maxCol);
    }

    method ApplyEdit(e: Edit)
      modifies this`keymap
      ensures keymap == Apply(old(keymap), rows, e)
    {
      match e.opcode {
        case InsertShiftRight => InsertKey(e.key);
        case SwapOnly => SwapKey(e.key);
        case RemoveShiftLeft => RemoveKey(e.key);
        case InsertShiftAdjacent =>
        case InsertRow =>
          var ok := InsertRow(e.key.row);
          if ok { SwapKey(e.key); }
        case RemoveRow => RemoveRow(e.key.row);
        case AddAltName => AddAltName(e.key);
        case Missing =>
      }
    }

    method OpCodeSwitch(edits: seq<Edit>)
      modifies this
      ensures keymap == Script(old(keymap), old(rows), edits)
      ensures rows == Up(MaxRow(keymap)) && cols == Up(MaxCol(keymap))
    {
      var i := 0;
      while i < |edits|
        invariant i <= |edits| && keymap == Script(old(keymap), rows, edits[..i]) && rows == old(rows)
      {
        ApplyEdit(edits[i]);
        assert edits[..i + 1][..i] == edits[..i];
        i := i + 1;
      }
      assert edits[..i] == edits;
      UpdateDimensions();
    }

    method GetKeyNameAt(row: nat, col: nat) returns (name: string)
      ensures name == NameAt(keymap, row, col)
    {
      var i := 0;
      assert keymap[0..] == keymap;
      while i < |keymap|
        invariant i <= |keymap| && Lookup(keymap, row, col) == Lookup(keymap[i..], row, col)
      {
        if keymap[i].row == row && keymap[i].col == col { return keymap[i].led.name; }
        assert keymap[i..][1..] == keymap[i + 1..];
        i := i + 1;
      }
      return UNUSED;
    }

    /** Flattening into the caller's array, which must have room for the matrix and all keys. */
    method GetKeyMap(cells: array<nat>, fill: Fill, height: Byte, width: Byte)
      requires Larger(height, rows) * Larger(width, cols) <= cells.Length
      requires InBounds(keymap, Larger(width, cols), cells.Length)
      modifies cells
      ensures cells[..] == Painted(keymap, |keymap|, fill, Larger(width, cols),
                                  Blank(old(cells[..]), Larger(height, rows) * Larger(width, cols)))
    {
      var w, h := Larger(width, cols), Larger(height, rows);
      ghost var before := cells[..];
      ClearMap(cells, h, w);
      assert cells[..] == Blank(before, h * w);
      ghost var blank := cells[..];
      var i := 0;
      while i < |keymap|
        invariant i <= |keymap| && cells[..] == Painted(keymap, i, fill, w, blank)
      {
        assert keymap[i] in keymap;
        var offset := (keymap[i].row * w) + keymap[i].col;
        match fill {
          case ByCount => cells[offset] := i;
          case ByValue => cells[offset] := keymap[i].led.value;
          case ByIndex => cells[offset] := offset;
        }
        i := i + 1;
      }
    }
  }

  function Larger(a: nat, b: nat): nat {
    if a < b then b else a
  }

  /** The loops that empty the matrix. */
  method ClearMap(cells: array<nat>, h: nat, w: nat)
    requires h * w <= cells.Length
    modifies cells
    ensures forall p :: 0 <= p < cells.Length ==> cells[p] == if p < h * w then NO_KEY else old(cells[p])
  {
    var r := 0;
    while r < h
      invariant r <= h && r * w <= h * w
      invariant forall p :: 0 <= p < cells.Length ==> cells[p] == if p < r * w then NO_KEY else old(cells[p])
    {
      RowEnds(r, h, w);
      var offset := r * w;
      var c := 0;
      while c < w
        invariant c <= w
        invariant forall p :: 0 <= p < cells.Length ==> cells[p] == if p < offset + c then NO_KEY else old(cells[p])
      {
        cells[offset + c] := NO_KEY;
        c := c + 1;
      }
      r := r + 1;
    }
  }

  /** Dimensions just updated hold every key exactly when neither count wraps around. */
  lemma DimensionsFit(m: Keys)
    ensures Fits(m, Up(MaxRow(m)), Up(MaxCol(m))) <==> m == [] || (MaxRow(m) < 255 && MaxCol(m) < 255)
  {
  }

  /** With up-to-date dimensions that did not wrap, or larger ones, a sorted list meets
      what CountMatrix asks for: every key inside, one per place. */
  lemma SortedFits(m: Keys, h: nat, w: nat)
    requires Sorted(m) && MaxRow(m) < 255 && MaxCol(m) < 255
    requires h >= Up(MaxRow(m)) && w >= Up(MaxCol(m))
    ensures Fits(m, h, w) && OnePerPlace(m)
  {
    DimensionsFit(m);
  }
}

/** What the last edit of a script does to the lookups, opcode by opcode. */
module Scripts {
  import opened Keymap
  import opened KeyboardLayout
  import opened Memories

  /** The list before the last edit of a script. */
  lemma LastEdit(m: Keys, rows: nat, edits: seq<Edit>, e: Edit)
    ensures Script(m, rows, edits + [e]) == Apply(Script(m, rows, edits), rows, e)
  {
    assert (edits + [e])[..|edits|] == edits;
  }

  /** Some key is at or after the place. */
  ghost predicate SomeFrom(s: Keys, row: nat, col: nat) {
    exists x :: x in s && (x.row > row || (x.row == row && x.col >= col))
  }

  // ----- the edited place itself -----

  /** An inserted key is found at its place; an unused one only when nothing was there to move. */
  lemma {:induction false} InsertOwn(m: Keys, k: Key)
    requires Sorted(m) && Room(m, k.row, k.col)
    ensures Lookup(Inserted(m, k), k.row, k.col)
         == if k.led.name == "" && SomeFrom(m, k.row, k.col) then None else Some(k.led)
  {
    if m == [] {
    } else if From(m[0], k.row, k.col) {
      assert m[0] in m;
      RestFrom(m, k.row, k.col);
      var s := ShiftRight(m, k.row, k.col);
      ShiftRightLooks(m, k.row, k.col, k.row, k.col);
      assert [] + s == s;
    } else {
      SortedCons(m[0], m[1..]);
      assert m == [m[0]] + m[1..];
      InsertOwn(m[1..], k);
      assert ([m[0]] + Inserted(m[1..], k))[1..] == Inserted(m[1..], k);
    }
  }

  /** A swap renames the key at its place, takes it away, or puts one there. */
  ghost predicate Exchanged(was: Option<Led>, now: Option<Led>, k: Key, empty: bool, later: bool) {
    match was
    case Some(led) =>
      now == if k.led.name == "" then None else Some(led.(name := k.led.name, value := k.led.value))
    case None => now == if empty || (k.led.name != "" && later) then Some(k.led) else None
  }

  lemma SwapOwn(m: Keys, k: Key)
    requires Sorted(m)
    ensures Exchanged(Lookup(m, k.row, k.col), Lookup(Swapped(m, k), k.row, k.col), k, m == [],
                      SomeFrom(m, k.row, k.col))
  {
    var i := SwapPoint(m, k.row, k.col);
    if m == [] {
    } else if i < |m| && At(m[i], k.row, k.col) {
      LookupIs(m, i);
      if k.led.name == UNUSED {
        LookupErased(m, i, k.row, k.col);
      } else {
        LookupReplaced(m, i, m[i].led.(name := k.led.name, value := k.led.value), k.row, k.col);
      }
    } else {
      EmptyPlace(m, k.row, k.col);
      LookupNone(m, k.row, k.col);
      if i < |m| {
        assert m[i] in m;
        if k.led.name != UNUSED {
          LookupAdded(m, k, if i == 0 then 0 else i - 1, k.row, k.col);
        }
      } else {
        NoneFrom(m, k);
      }
    }
  }

  lemma NoneFrom(m: Keys, k: Key)
    requires SwapPoint(m, k.row, k.col) == |m|
    ensures !SomeFrom(m, k.row, k.col)
  {
    forall x | x in m
      ensures !(x.row > k.row || (x.row == k.row && x.col >= k.col))
    {
      var j :| 0 <= j < |m| && m[j] == x;
      assert !From(m[j], k.row, k.col);
    }
  }

  lemma {:induction false} AltNameLooks(m: Keys, k: Key, r: nat, c: nat)
    ensures Lookup(AltNamed(m, k), r, c) ==
            if r == k.row && c == k.col && Lookup(m, r, c).Some?
            then Some(Lookup(m, r, c).value.(altName := k.led.altName)) else Lookup(m, r, c)
  {
    if m != [] && !At(m[0], k.row, k.col) {
      AltNameLooks(m[1..], k, r, c);
    }
  }

  // ----- the last edit, by its opcode -----

  /** INSERT_SHIFT_RIGHT: the row moves right from the place on, and the key is found there. */
  lemma InsertLast(m: Keys, rows: nat, edits: seq<Edit>, k: Key, r: nat, c: nat)
    requires var s := Script(m, rows, edits);
             Sorted(s) && forall x :: x in s && x.row == k.row && x.col >= k.col ==> x.col < 255
    ensures var s, s' := Script(m, rows, edits), Script(m, rows, edits + [Edit(InsertShiftRight, k)]);
            Lookup(s', r, c) ==
              if r != k.row || c < k.col then Lookup(s, r, c)
              else if c > k.col then Lookup(s, r, c - 1)
              else if k.led.name == "" && SomeFrom(s, k.row, k.col) then None else Some(k.led)
  {
    LastEdit(m, rows, edits, Edit(InsertShiftRight, k));
    var s := Script(m, rows, edits);
    InsertLooks(s, k, r, c);
    InsertOwn(s, k);
  }

  /** SWAP_ONLY changes its own place alone. */
  lemma SwapLast(m: Keys, rows: nat, edits: seq<Edit>, k: Key, r: nat, c: nat)
    requires Sorted(Script(m, rows, edits))
    ensures var s, s' := Script(m, rows, edits), Script(m, rows, edits + [Edit(SwapOnly, k)]);
            if r == k.row && c == k.col
            then Exchanged(Lookup(s, r, c), Lookup(s', r, c), k, s == [], SomeFrom(s, k.row, k.col))
            else Lookup(s', r, c) == Lookup(s, r, c)
  {
    LastEdit(m, rows, edits, Edit(SwapOnly, k));
    SwapLooks(Script(m, rows, edits), k, r, c);
    SwapOwn(Script(m, rows, edits), k);
  }

  /** REMOVE_SHIFT_LEFT: the place goes and its row moves left from there on. */
  lemma RemoveLast(m: Keys, rows: nat, edits: seq<Edit>, k: Key, r: nat, c: nat)
    requires Sorted(Script(m, rows, edits))
    ensures Lookup(Script(m, rows, edits + [Edit(RemoveShiftLeft, k)]), r, c)
         == Lookup(Script(m, rows, edits), r, if r == k.row && c >= k.col then c + 1 else c)
  {
    LastEdit(m, rows, edits, Edit(RemoveShiftLeft, k));
    RemoveLooks(Script(m, rows, edits), k.row, k.col, r, c);
  }

  /** INSERT_ROW below the row count: the rows from there on move down, and the new row is
      empty but for the key, when it is used and there are rows to move, or there was no key
      at all. Past the row count nothing changes. */
  lemma InsertRowLast(m: Keys, rows: nat, edits: seq<Edit>, k: Key, r: nat, c: nat)
    requires var s := Script(m, rows, edits); Sorted(s) && forall x :: x in s && x.row >= k.row ==> x.row < 255
    ensures var s, s' := Script(m, rows, edits), Script(m, rows, edits + [Edit(InsertRow, k)]);
            if k.row >= rows then s' == s
            else
              Lookup(s', r, c) ==
                if r < k.row then Lookup(s, r, c)
                else if r > k.row then Lookup(s, r - 1, c)
                else if c == k.col && (s == [] || (k.led.name != "" && SomeFrom(s, k.row, 0))) then Some(k.led)
                else None
  {
    LastEdit(m, rows, edits, Edit(InsertRow, k));
    if k.row < rows {
      RowThenSwap(Script(m, rows, edits), k, r, c);
    }
  }

  lemma RowThenSwap(s: Keys, k: Key, r: nat, c: nat)
    requires Sorted(s) && RowRoom(s, k.row)
    ensures Lookup(Swapped(RowInserted(s, k.row), k), r, c) ==
            if r < k.row then Lookup(s, r, c)
            else if r > k.row then Lookup(s, r - 1, c)
            else if c == k.col && (s == [] || (k.led.name != "" && SomeFrom(s, k.row, 0))) then Some(k.led)
            else None
  {
    var t := RowInserted(s, k.row);
    RowInsertSorted(s, k.row);
    RowInsertLooks(s, k.row, r, c);
    RowsToMove(s, k);
    if r == k.row && c == k.col {
      SwapOwn(t, k);
    } else {
      SwapLooks(t, k, r, c);
    }
  }

  lemma RowsToMove(s: Keys, k: Key)
    requires Sorted(s) && RowRoom(s, k.row)
    ensures RowInserted(s, k.row) == [] <==> s == []
    ensures SomeFrom(RowInserted(s, k.row), k.row, k.col) <==> SomeFrom(s, k.row, 0)
  {
    var t := RowInserted(s, k.row);
    RowInsertedAt(s, k.row);
    if SomeFrom(s, k.row, 0) {
      var x :| x in s && (x.row > k.row || (x.row == k.row && x.col >= 0));
      var i :| 0 <= i < |s| && s[i] == x;
      assert t[i] in t && t[i].row == x.row + 1;
    }
    if SomeFrom(t, k.row, k.col) {
      var y :| y in t && (y.row > k.row || (y.row == k.row && y.col >= k.col));
      var i :| 0 <= i < |t| && t[i] == y;
      assert s[i] in s && s[i].row >= k.row;
    }
  }

  /** REMOVE_ROW below the row count: the row goes and the later ones move up. */
  lemma RemoveRowLast(m: Keys, rows: nat, edits: seq<Edit>, k: Key, r: nat, c: nat)
    requires Sorted(Script(m, rows, edits))
    ensures var s, s' := Script(m, rows, edits), Script(m, rows, edits + [Edit(RemoveRow, k)]);
            if k.row >= rows then s' == s
            else Lookup(s', r, c) == Lookup(s, if r < k.row then r else r + 1, c)
  {
    LastEdit(m, rows, edits, Edit(RemoveRow, k));
    RowRemoveLooks(Script(m, rows, edits), k.row, r, c);
  }

  /** ADD_ALT_NAME gives the key at the place, if there is one, its other name; in any list. */
  lemma AltNameLast(m: Keys, rows: nat, edits: seq<Edit>, k: Key, r: nat, c: nat)
    ensures var s, s' := Script(m, rows, edits), Script(m, rows, edits + [Edit(AddAltName, k)]);
            Lookup(s', r, c) ==
              if r == k.row && c == k.col && Lookup(s, r, c).Some?
              then Some(Lookup(s, r, c).value.(altName := k.led.altName)) else Lookup(s, r, c)
  {
    LastEdit(m, rows, edits, Edit(AddAltName, k));
    AltNameLooks(Script(m, rows, edits), k, r, c);
  }

  /** INS_SHFT_ADJACENT and unknown opcodes change nothing; the empty script changes nothing. */
  lemma NothingLast(m: Keys, rows: nat, edits: seq<Edit>, opcode: Opcode, k: Key)
    requires opcode == InsertShiftAdjacent || opcode == Missing
    ensures Script(m, rows, edits + [Edit(opcode, k)]) == Script(m, rows, edits)
    ensures Script(m, rows, []) == m
  {
    LastEdit(m, rows, edits, Edit(opcode, k));
  }
}

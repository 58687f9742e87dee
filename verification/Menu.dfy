/** The front page menu table: in-place removal, the cells filled from it and the form lookup. */
module Menu {
  import opened Bytes
  import opened Wrappers

  const UNUSED_INDEX: uint16 := 0xFFFF

  /** A row of the table; the form stands for form set and form id. */
  datatype Row = Row(full: uint16, limited: uint16, text: nat, form: nat) {
    /** The index in the menu that is shown. */
    function Index(showFull: bool): uint16 {
      if showFull then full else limited
    }
  }

  predicate Used(row: Row, showFull: bool) {
    row.Index(showFull) != UNUSED_INDEX
  }

  /** UINT16 subtraction of one. */
  function Decrement(x: uint16): uint16 {
    if x == 0 then 0xFFFF else x - 1
  }

  /** The subtraction wraps around as 16-bit arithmetic does. */
  lemma {:induction false} DecrementWraps(x: uint16)
    ensures Decrement(x) == (x + 0xFFFF) % 0x1_0000
  {
  }

  /** Some row up to k that the removal takes out of this column. */
  predicate RemovedUpTo(rows: seq<Row>, text: nat, k: nat, showFull: bool)
    requires k <= |rows|
  {
    exists j :: 0 <= j < k && rows[j].text == text && Used(rows[j], showFull)
  }

  /** What one removal leaves in column and row k. */
  function IndexAfter(rows: seq<Row>, text: nat, k: nat, showFull: bool): uint16
    requires k < |rows|
  {
    if rows[k].text == text || !Used(rows[k], showFull) then UNUSED_INDEX
    else if RemovedUpTo(rows, text, k, showFull) then Decrement(rows[k].Index(showFull))
    else rows[k].Index(showFull)
  }

  /** The table after one removal. */
  function Removed(rows: seq<Row>, text: nat): (after: seq<Row>)
    ensures |after| == |rows|
  {
    seq(|rows|, k requires 0 <= k < |rows| =>
      rows[k].(full := IndexAfter(rows, text, k, true), limited := IndexAfter(rows, text, k, false)))
  }

  method RemoveMenuFromList(formMap: array<Row>, menuId: nat)
    modifies formMap
    ensures formMap[..] == Removed(old(formMap[..]), menuId)
  {
    var fullMenuRemoved, limitedMenuRemoved := false, false;
    ghost var before := formMap[..];
    ghost var after := Removed(before, menuId);
    for count := 0 to formMap.Length
      invariant formMap[..count] == after[..count]
      invariant forall k :: count <= k < formMap.Length ==> formMap[k] == before[k]
      invariant fullMenuRemoved <==> RemovedUpTo(before, menuId, count, true)
      invariant limitedMenuRemoved <==> RemovedUpTo(before, menuId, count, false)
    {
      ghost var row := before[count];
      assert formMap[count] == row;
      if formMap[count].text == menuId {
        if formMap[count].full != UNUSED_INDEX {
          fullMenuRemoved := true;
          formMap[count] := formMap[count].(full := UNUSED_INDEX);
        }
        if formMap[count].limited != UNUSED_INDEX {
          limitedMenuRemoved := true;
          formMap[count] := formMap[count].(limited := UNUSED_INDEX);
        }
      }
      if fullMenuRemoved && formMap[count].full != UNUSED_INDEX {
        formMap[count] := formMap[count].(full := Decrement(formMap[count].full));
      }
      if limitedMenuRemoved && formMap[count].limited != UNUSED_INDEX {
        formMap[count] := formMap[count].(limited := Decrement(formMap[count].limited));
      }
      assert formMap[count] == after[count];
    }
  }

  /**
   * On any table one removal keeps texts and forms, leaves unused rows unused and clears the rows
   * with the text. The other rows keep their index up to the first used row with the text, and
   * behind it lose one, however many such rows there are.
   */
  lemma {:induction false} RemovedExactly(rows: seq<Row>, text: nat, k: nat, showFull: bool)
    requires k < |rows|
    ensures var before, after := rows[k], Removed(rows, text)[k];
            && after.text == before.text && after.form == before.form
            && (before.text == text || before.Index(showFull) == 0xFFFF ==>
                  after.Index(showFull) == 0xFFFF)
            && (before.text != text && before.Index(showFull) != 0xFFFF ==>
                  after.Index(showFull) ==
                    if exists j :: 0 <= j < k && rows[j].text == text && rows[j].Index(showFull) != 0xFFFF
                    then (before.Index(showFull) + 0xFFFF) % 0x1_0000 else before.Index(showFull))
  {
    DecrementWraps(rows[k].Index(showFull));
  }

  /** How many of the first k rows are used and not among the texts gone. */
  function Rank(rows: seq<Row>, gone: set<nat>, k: nat, showFull: bool): (r: nat)
    requires k <= |rows|
    ensures r <= k
  {
    if k == 0 then 0
    else
      var before := Rank(rows, gone, k - 1, showFull);
      if Used(rows[k - 1], showFull) && rows[k - 1].text !in gone then before + 1 else before
  }

  /** The index a row should have once the texts are gone: its rank among the survivors. */
  function IndexAmong(rows: seq<Row>, gone: set<nat>, k: nat, showFull: bool): uint16
    requires k < |rows| < 0xFFFF
  {
    if Used(rows[k], showFull) && rows[k].text !in gone then Rank(rows, gone, k, showFull) else UNUSED_INDEX
  }

  /** The table in which exactly the survivors are used, numbered in row order in both columns. */
  function Compact(rows: seq<Row>, gone: set<nat>): (after: seq<Row>)
    requires |rows| < 0xFFFF
    ensures |after| == |rows|
  {
    seq(|rows|, k requires 0 <= k < |rows| =>
      rows[k].(full := IndexAmong(rows, gone, k, true), limited := IndexAmong(rows, gone, k, false)))
  }

  predicate DistinctLabels(rows: seq<Row>) {
    forall i, j :: 0 <= i < j < |rows| ==> rows[i].text != rows[j].text
  }

  /** Used indices are 0, 1, 2, ... in row order, and no text occurs twice. */
  predicate WellFormed(rows: seq<Row>) {
    |rows| < 0xFFFF && DistinctLabels(rows) && rows == Compact(rows, {})
  }

  /** The table as shipped, with texts and forms numbered by row, is well formed. */
  lemma {:induction false} ShippedTable()
    ensures WellFormed([Row(0, 0, 0, 0), Row(1, UNUSED_INDEX, 1, 1), Row(2, UNUSED_INDEX, 2, 2),
                        Row(3, 1, 3, 3), Row(4, UNUSED_INDEX, 4, 4), Row(5, 2, 5, 5)])
  {
    var rows := [Row(0, 0, 0, 0), Row(1, UNUSED_INDEX, 1, 1), Row(2, UNUSED_INDEX, 2, 2),
                 Row(3, 1, 3, 3), Row(4, UNUSED_INDEX, 4, 4), Row(5, 2, 5, 5)];
    assert Rank(rows, {}, 1, true) == 1 && Rank(rows, {}, 1, false) == 1;
    assert Rank(rows, {}, 2, true) == 2 && Rank(rows, {}, 2, false) == 1;
    assert Rank(rows, {}, 3, true) == 3 && Rank(rows, {}, 3, false) == 1;
    assert Rank(rows, {}, 4, true) == 4 && Rank(rows, {}, 4, false) == 2;
    assert Rank(rows, {}, 5, true) == 5 && Rank(rows, {}, 5, false) == 2;
  }

  /** Removing a text moves the rank of later rows down by one, and of no others. */
  lemma {:induction false} RankAfterRemoval(rows: seq<Row>, text: nat, k: nat, showFull: bool)
    requires DistinctLabels(rows) && k <= |rows|
    ensures Rank(rows, {text}, k, showFull)
         == Rank(rows, {}, k, showFull) - (if RemovedUpTo(rows, text, k, showFull) then 1 else 0)
    ensures RemovedUpTo(rows, text, k, showFull) ==> Rank(rows, {}, k, showFull) > 0
  {
    if k > 0 {
      RankAfterRemoval(rows, text, k - 1, showFull);
      if rows[k - 1].text == text {
        assert !RemovedUpTo(rows, text, k - 1, showFull);
        if Used(rows[k - 1], showFull) {
          assert RemovedUpTo(rows, text, k, showFull);
        }
      }
    }
  }

  /** On a well-formed table the flags and decrements renumber the survivors exactly. */
  lemma {:induction false} RemovalCompacts(rows: seq<Row>, text: nat)
    requires WellFormed(rows)
    ensures Removed(rows, text) == Compact(rows, {text})
  {
    var compact := Compact(rows, {});
    forall k, showFull | 0 <= k < |rows|
      ensures IndexAfter(rows, text, k, showFull) == IndexAmong(rows, {text}, k, showFull)
    {
      RankAfterRemoval(rows, text, k, showFull);
      assert rows[k] == compact[k];
    }
  }

  lemma {:induction false} CompactIndex(rows: seq<Row>, gone: set<nat>, k: nat, showFull: bool)
    requires k < |rows| < 0xFFFF
    ensures Used(Compact(rows, gone)[k], showFull) <==> Used(rows[k], showFull) && rows[k].text !in gone
    ensures Compact(rows, gone)[k].text == rows[k].text && Compact(rows, gone)[k].form == rows[k].form
    ensures Compact(rows, gone)[k].Index(showFull) == IndexAmong(rows, gone, k, showFull)
  {
  }

  lemma {:induction false} RankTwice(rows: seq<Row>, gone: set<nat>, more: set<nat>, k: nat, showFull: bool)
    requires k <= |rows| < 0xFFFF
    ensures Rank(Compact(rows, gone), more, k, showFull) == Rank(rows, gone + more, k, showFull)
  {
    if k > 0 {
      RankTwice(rows, gone, more, k - 1, showFull);
      CompactIndex(rows, gone, k - 1, showFull);
    }
  }

  /** Compacting twice is compacting once for all texts. */
  lemma {:induction false} CompactTwice(rows: seq<Row>, gone: set<nat>, more: set<nat>)
    requires |rows| < 0xFFFF
    ensures Compact(Compact(rows, gone), more) == Compact(rows, gone + more)
  {
    forall k, showFull | 0 <= k < |rows|
      ensures IndexAmong(Compact(rows, gone), more, k, showFull) == IndexAmong(rows, gone + more, k, showFull)
    {
      RankTwice(rows, gone, more, k, showFull);
      CompactIndex(rows, gone, k, showFull);
    }
  }

  lemma {:induction false} CompactKeepsForm(rows: seq<Row>, gone: set<nat>)
    requires |rows| < 0xFFFF && DistinctLabels(rows)
    ensures WellFormed(Compact(rows, gone))
  {
    CompactTwice(rows, gone, {});
    assert gone + {} == gone;
  }

  function TextSet(texts: seq<nat>): set<nat> {
    set x | x in texts
  }

  function RemoveAll(rows: seq<Row>, texts: seq<nat>): seq<Row> {
    if texts == [] then rows else Removed(RemoveAll(rows, texts[..|texts| - 1]), texts[|texts| - 1])
  }

  /**
   * After any sequence of removals every survivor's index is its rank among the survivors, in
   * both columns; only the set of texts matters, so removals commute and are idempotent.
   */
  lemma {:induction false} RemovalsCompact(rows: seq<Row>, texts: seq<nat>)
    requires WellFormed(rows)
    ensures RemoveAll(rows, texts) == Compact(rows, TextSet(texts))
    ensures WellFormed(RemoveAll(rows, texts))
  {
    var gone := TextSet(texts);
    if texts == [] {
      assert gone == {};
    } else {
      var front, last := texts[..|texts| - 1], texts[|texts| - 1];
      RemovalsCompact(rows, front);
      RemovalCompacts(RemoveAll(rows, front), last);
      CompactTwice(rows, TextSet(front), {last});
      assert texts == front + [last];
      assert TextSet(front) + {last} == gone;
    }
    CompactKeepsForm(rows, gone);
  }

  /** Two orders of the same removals, with or without repeats, leave the same table. */
  lemma {:induction false} RemovalOrderIrrelevant(rows: seq<Row>, xs: seq<nat>, ys: seq<nat>)
    requires WellFormed(rows) && TextSet(xs) == TextSet(ys)
    ensures RemoveAll(rows, xs) == RemoveAll(rows, ys)
  {
    RemovalsCompact(rows, xs);
    RemovalsCompact(rows, ys);
  }

  /** The text each cell gets: from the last row with that index, as later rows overwrite. */
  function CellAt(rows: seq<Row>, k: nat, i: nat, showFull: bool): Option<nat>
    requires k <= |rows|
  {
    if k == 0 then None
    else if Used(rows[k - 1], showFull) && rows[k - 1].Index(showFull) == i then Some(rows[k - 1].text)
    else CellAt(rows, k - 1, i, showFull)
  }

  /** The zero-initialised cells, one more than there are rows, after the fill loop. */
  method FillCells(formMap: array<Row>, showFull: bool) returns (cells: array<Option<nat>>)
    requires formMap.Length < 0xFFFF
    ensures fresh(cells) && cells.Length == formMap.Length + 1
    ensures forall i :: 0 <= i < formMap.Length ==> cells[i] == CellAt(formMap[..], formMap.Length, i, showFull)
    ensures cells[formMap.Length] == None
    ensures forall i :: 0 <= i < formMap.Length ==>
      (cells[i] == None <==> forall j :: 0 <= j < formMap.Length ==>
        !Used(formMap[j], showFull) || formMap[j].Index(showFull) != i)
    ensures WellFormed(formMap[..]) ==>
      forall i :: 0 <= i < cells.Length ==>
        (cells[i] == None <==> i >= Rank(formMap[..], {}, formMap.Length, showFull))
  {
    cells := new Option<nat>[formMap.Length + 1](_ => None);
    for count := 0 to formMap.Length
      invariant forall i :: 0 <= i < formMap.Length ==> cells[i] == CellAt(formMap[..], count, i, showFull)
      invariant cells[formMap.Length] == None
    {
      var index := formMap[count].Index(showFull);
      if UNUSED_INDEX != index && index < formMap.Length {
        cells[index] := Some(formMap[count].text);
      }
    }
    CellsEnd(formMap[..], showFull);
  }

  /** A cell stays empty exactly when no used row has its index. */
  lemma {:induction false} CellEmptyExactly(rows: seq<Row>, k: nat, i: nat, showFull: bool)
    requires k <= |rows|
    ensures CellAt(rows, k, i, showFull) == None <==>
      forall j :: 0 <= j < k ==> !Used(rows[j], showFull) || rows[j].Index(showFull) != i
  {
    if k > 0 {
      CellEmptyExactly(rows, k - 1, i, showFull);
    }
  }

  /** On a well-formed table the filled cells are exactly those before the number of used rows. */
  lemma {:induction false} CellsEnd(rows: seq<Row>, showFull: bool)
    ensures forall i :: 0 <= i < |rows| ==>
      (CellAt(rows, |rows|, i, showFull) == None <==> forall j :: 0 <= j < |rows| ==>
        !Used(rows[j], showFull) || rows[j].Index(showFull) != i)
    ensures WellFormed(rows) ==>
      forall i :: 0 <= i < |rows| ==>
        (CellAt(rows, |rows|, i, showFull) == None <==> i >= Rank(rows, {}, |rows|, showFull))
  {
    forall i | 0 <= i < |rows|
      ensures CellAt(rows, |rows|, i, showFull) == None <==> forall j :: 0 <= j < |rows| ==>
        !Used(rows[j], showFull) || rows[j].Index(showFull) != i
      ensures WellFormed(rows) ==>
        (CellAt(rows, |rows|, i, showFull) == None <==> i >= Rank(rows, {}, |rows|, showFull))
    {
      CellEmptyExactly(rows, |rows|, i, showFull);
      if WellFormed(rows) {
        if i < Rank(rows, {}, |rows|, showFull) {
          var row := CellMatchesForm(rows, i, showFull);
        } else {
          IndicesBelow(rows, showFull);
        }
      }
    }
  }

  lemma {:induction false} IndicesBelow(rows: seq<Row>, showFull: bool)
    requires WellFormed(rows)
    ensures forall j :: 0 <= j < |rows| && Used(rows[j], showFull) ==>
      rows[j].Index(showFull) < Rank(rows, {}, |rows|, showFull)
  {
    var compact := Compact(rows, {});
    forall j | 0 <= j < |rows| && Used(rows[j], showFull)
      ensures rows[j].Index(showFull) < Rank(rows, {}, |rows|, showFull)
    {
      assert rows[j] == compact[j];
      RankGrows(rows, j, |rows|, showFull);
    }
  }

  /** The row whose form CallFrontPage opens; None for EFI_NOT_FOUND. */
  method FindForm(formMap: array<Row>, formIndex: nat, showFull: bool) returns (row: Option<nat>)
    ensures row.Some? ==> row.value < formMap.Length && formMap[row.value].Index(showFull) == formIndex
    ensures row.Some? ==> forall j :: 0 <= j < row.value ==> formMap[j].Index(showFull) != formIndex
    ensures row.None? <==> forall j :: 0 <= j < formMap.Length ==> formMap[j].Index(showFull) != formIndex
  {
    for count := 0 to formMap.Length
      invariant forall j :: 0 <= j < count ==> formMap[j].Index(showFull) != formIndex
    {
      if formMap[count].Index(showFull) == formIndex {
        return Some(count);
      }
    }
    return None;
  }

  lemma {:induction false} RankGrows(rows: seq<Row>, j: nat, k: nat, showFull: bool)
    requires j < k <= |rows| && Used(rows[j], showFull)
    ensures Rank(rows, {}, j, showFull) < Rank(rows, {}, k, showFull)
    decreases k
  {
    if j + 1 < k {
      RankGrows(rows, j, k - 1, showFull);
    }
  }

  lemma {:induction false} RankReached(rows: seq<Row>, i: nat, k: nat, showFull: bool) returns (row: nat)
    requires k <= |rows| && i < Rank(rows, {}, k, showFull)
    ensures row < k && Used(rows[row], showFull) && Rank(rows, {}, row, showFull) == i
  {
    if Rank(rows, {}, k - 1, showFull) == i {
      row := k - 1;
    } else {
      row := RankReached(rows, i, k - 1, showFull);
    }
  }

  lemma {:induction false} CellOfRow(rows: seq<Row>, row: nat, k: nat, i: nat, showFull: bool)
    requires row < k <= |rows| && Used(rows[row], showFull) && rows[row].Index(showFull) == i
    requires forall j :: row < j < k ==> !Used(rows[j], showFull) || rows[j].Index(showFull) != i
    ensures CellAt(rows, k, i, showFull) == Some(rows[row].text)
  {
    if row < k - 1 {
      CellOfRow(rows, row, k - 1, i, showFull);
    }
  }

  /**
   * On a well-formed table exactly one row has each index below the number of used rows; its
   * text is in that cell, so the cell and the form opened for it belong together.
   */
  lemma {:induction false} CellMatchesForm(rows: seq<Row>, i: nat, showFull: bool) returns (row: nat)
    requires WellFormed(rows) && i < Rank(rows, {}, |rows|, showFull)
    ensures row < |rows| && rows[row].Index(showFull) == i
    ensures forall j :: 0 <= j < |rows| && j != row ==> rows[j].Index(showFull) != i
    ensures CellAt(rows, |rows|, i, showFull) == Some(rows[row].text)
  {
    var compact := Compact(rows, {});
    row := RankReached(rows, i, |rows|, showFull);
    assert rows[row] == compact[row];
    forall j | 0 <= j < |rows| && j != row
      ensures rows[j].Index(showFull) != i
    {
      assert rows[j] == compact[j];
      if Used(rows[j], showFull) {
        if j < row {
          RankGrows(rows, j, row, showFull);
        } else {
          RankGrows(rows, row, j, showFull);
        }
      }
    }
    CellOfRow(rows, row, |rows|, i, showFull);
  }

  /** The menu shown and the lookup agree: cell i names the row whose form CallFrontPage(i) opens. */
  method CellOpensForm(formMap: array<Row>, i: nat, showFull: bool)
    returns (cells: array<Option<nat>>, row: Option<nat>)
    requires WellFormed(formMap[..]) && i < Rank(formMap[..], {}, formMap.Length, showFull)
    ensures fresh(cells) && i < cells.Length && row.Some? && row.value < formMap.Length
    ensures cells[i] == Some(formMap[row.value].text)
  {
    cells := FillCells(formMap, showFull);
    row := FindForm(formMap, i, showFull);
    ghost var r := CellMatchesForm(formMap[..], i, showFull);
    assert formMap[..][r] == formMap[r];
    assert forall j :: 0 <= j < formMap.Length ==> formMap[..][j] == formMap[j];
  }
}

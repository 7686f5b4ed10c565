/**
 * src/views/table_view.rs: a table of items with named columns. Items stay
 * in insertion order in `items`; `rowsToItems` says which item each display
 * row shows; `focus` is the selected row; `columnIndicies` maps each column
 * id to its position in `columns`.
 *
 * Drawing, scrolling, layout and the mouse arms of the event handler are
 * not modelled; the callbacks are reduced to whether they are set.
 */
module TableViews {
  import opened Wrappers
  import opened Views

  /** A column: its id, title, whether it is the selected header, and its laid-out width. */
  datatype TableColumn<H> = TableColumn(column: H, title: string, selected: bool, width: nat)

  /** `TableColumn::new`: unselected, width 0 until the first layout. */
  function NewColumn<H>(column: H, title: string): (c: TableColumn<H>)
    ensures c.column == column && c.title == title && !c.selected && c.width == 0
  {
    TableColumn(column, title, false, 0)
  }

  /** `column_indicies[columns[k].column] == k` for every `k`, and no other ids are mapped. */
  predicate ColumnsIndexed<H>(columns: seq<TableColumn<H>>, m: map<H, nat>) {
    (forall k :: 0 <= k < |columns| ==> columns[k].column in m && m[columns[k].column] == k)
    && (forall h :: h in m ==> exists k :: 0 <= k < |columns| && columns[k].column == h)
  }

  /** First position of `x` in `s`, as `iter().position(|y| y == x)`. */
  function IndexOf<T(==)>(s: seq<T>, x: T): (r: Option<nat>)
    ensures r.Some? ==> r.value < |s| && s[r.value] == x && forall i :: 0 <= i < r.value ==> s[i] != x
    ensures r.None? <==> x !in s
    decreases |s|
  {
    if s == [] then None
    else if s[0] == x then Some(0)
    else match IndexOf(s[1..], x)
      case None => None
      case Some(i) => Some(i + 1)
  }

  function Shift(o: Option<nat>, offset: nat): Option<nat> {
    match o
    case None => None
    case Some(i) => Some(i + offset)
  }

  /**
   * `column_for_x`: walking the columns left to right, `x` falls in a column
   * while it is below that column's width; otherwise the width and a 3-wide
   * separator are passed, and landing on the separator gives no column.
   */
  function ColumnAt<H>(columns: seq<TableColumn<H>>, x: nat): (r: Option<nat>)
    ensures r.Some? ==> r.value < |columns|
    decreases |columns|
  {
    if columns == [] then None
    else if x < columns[0].width then Some(0)
    else if x - columns[0].width < 3 then None
    else Shift(ColumnAt(columns[1..], x - columns[0].width - 3), 1)
  }

  /** Where column `i` starts: the widths before it, each followed by a 3-wide separator. */
  function ColumnStart<H>(columns: seq<TableColumn<H>>, i: nat): nat
    requires i <= |columns|
  {
    if i == 0 then 0 else ColumnStart(columns, i - 1) + columns[i - 1].width + 3
  }

  lemma {:induction false} ColumnStartTail<H>(columns: seq<TableColumn<H>>, i: nat)
    requires 0 < |columns| && i < |columns|
    ensures ColumnStart(columns, i + 1) == columns[0].width + 3 + ColumnStart(columns[1..], i)
  {
    if i == 0 {
      assert ColumnStart(columns, 1) == ColumnStart(columns, 0) + columns[0].width + 3;
    } else {
      ColumnStartTail(columns, i - 1);
      assert columns[1..][i - 1] == columns[i];
      calc {
        ColumnStart(columns, i + 1);
        ColumnStart(columns, i) + columns[i].width + 3;
        columns[0].width + 3 + ColumnStart(columns[1..], i - 1) + columns[1..][i - 1].width + 3;
        columns[0].width + 3 + ColumnStart(columns[1..], i);
      }
    }
  }

  /** `column_for_x` names column `i` exactly when `x` lies within that column's span. */
  lemma {:induction false} ColumnAtInterval<H>(columns: seq<TableColumn<H>>, x: nat, i: nat)
    ensures ColumnAt(columns, x) == Some(i)
        <==> i < |columns| && ColumnStart(columns, i) <= x < ColumnStart(columns, i) + columns[i].width
    decreases |columns|
  {
    if columns != [] && 0 < i < |columns| {
      ColumnStartTail(columns, i - 1);
      assert columns[1..][i - 1] == columns[i];
      if x >= columns[0].width + 3 {
        ColumnAtInterval(columns[1..], x - columns[0].width - 3, i - 1);
      }
    }
  }

  /** The column map after `insert_column(i, ..)` before the new id is added: entries at `i` or later move up by one. */
  function RaiseFrom<H>(m: map<H, nat>, i: nat): (r: map<H, nat>)
    ensures r.Keys == m.Keys
    ensures forall h :: h in m ==> r[h] == if m[h] >= i then m[h] + 1 else m[h]
  {
    map h | h in m :: if m[h] >= i then m[h] + 1 else m[h]
  }

  /** The column map after `remove_column(i)` before its id is dropped: entries past `i` move down by one. */
  function LowerAbove<H>(m: map<H, nat>, i: nat): (r: map<H, nat>)
    ensures r.Keys == m.Keys
    ensures forall h :: h in m ==> r[h] == if m[h] > i then m[h] - 1 else m[h]
  {
    map h | h in m :: if m[h] > i then m[h] - 1 else m[h]
  }

  /** At the end, raising changes nothing: every entry is below `|columns|`. */
  lemma RaiseFromEnd<H>(columns: seq<TableColumn<H>>, m: map<H, nat>)
    requires ColumnsIndexed(columns, m)
    ensures RaiseFrom(m, |columns|) == m
  {
    forall h | h in m ensures m[h] < |columns| {
      var k :| 0 <= k < |columns| && columns[k].column == h;
    }
  }

  /** Inserting a column with a fresh id at `i` keeps the index map consistent. */
  lemma InsertColumnIndexed<H>(columns: seq<TableColumn<H>>, m: map<H, nat>, i: nat, c: TableColumn<H>)
    requires ColumnsIndexed(columns, m) && i <= |columns| && c.column !in m
    ensures ColumnsIndexed(columns[..i] + [c] + columns[i..], RaiseFrom(m, i)[c.column := i])
  {
    var cols := columns[..i] + [c] + columns[i..];
    var m' := RaiseFrom(m, i)[c.column := i];
    forall p | 0 <= p < |cols|
      ensures cols[p].column in m' && m'[cols[p].column] == p
    {
      if p < i {
        assert cols[p] == columns[p];
      } else if p > i {
        assert cols[p] == columns[p - 1];
      }
    }
    forall h | h in m'
      ensures exists p :: 0 <= p < |cols| && cols[p].column == h
    {
      if h == c.column {
        assert cols[i].column == h;
      } else {
        var p :| 0 <= p < |columns| && columns[p].column == h;
        if p < i { assert cols[p] == columns[p]; } else { assert cols[p + 1] == columns[p]; }
      }
    }
  }

  /** Removing the column at `i` keeps the index map consistent. */
  lemma RemoveColumnIndexed<H>(columns: seq<TableColumn<H>>, m: map<H, nat>, i: nat)
    requires ColumnsIndexed(columns, m) && i < |columns|
    ensures ColumnsIndexed(columns[..i] + columns[i + 1..], LowerAbove(m, i) - {columns[i].column})
  {
    var cols := columns[..i] + columns[i + 1..];
    var m' := LowerAbove(m, i) - {columns[i].column};
    forall p | 0 <= p < |cols|
      ensures cols[p].column in m' && m'[cols[p].column] == p
    {
      if p < i {
        assert cols[p] == columns[p];
      } else {
        assert cols[p] == columns[p + 1];
      }
    }
    forall h | h in m'
      ensures exists p :: 0 <= p < |cols| && cols[p].column == h
    {
      var p :| 0 <= p < |columns| && columns[p].column == h;
      if p < i { assert cols[p] == columns[p]; } else { assert cols[p - 1] == columns[p]; }
    }
  }

  /** Changing anything but the ids keeps the column index map consistent. */
  lemma SameIdsIndexed<H>(a: seq<TableColumn<H>>, b: seq<TableColumn<H>>, m: map<H, nat>)
    requires |a| == |b| && forall k :: 0 <= k < |a| ==> a[k].column == b[k].column
    requires ColumnsIndexed(a, m)
    ensures ColumnsIndexed(b, m)
  {
    forall h | h in m ensures exists k :: 0 <= k < |b| && b[k].column == h {
      var k :| 0 <= k < |a| && a[k].column == h;
      assert b[k].column == h;
    }
  }

  /** The first selected column, if any. */
  function FirstSelected<H>(columns: seq<TableColumn<H>>): (r: Option<nat>)
    ensures r.Some? ==> r.value < |columns| && columns[r.value].selected
    ensures r.Some? ==> forall k :: 0 <= k < r.value ==> !columns[k].selected
    ensures r.None? ==> forall k :: 0 <= k < |columns| ==> !columns[k].selected
    decreases |columns|
  {
    if columns == [] then None
    else if columns[0].selected then Some(0)
    else Shift(FirstSelected(columns[1..]), 1)
  }

  /** `active_column`: the selected column, or column 0 when none is. */
  function ActiveColumn<H>(columns: seq<TableColumn<H>>): nat {
    FirstSelected(columns).GetOr(0)
  }

  /** No two headers are selected at once. */
  predicate AtMostOneSelected<H>(columns: seq<TableColumn<H>>) {
    forall i, j :: 0 <= i < j < |columns| ==> !(columns[i].selected && columns[j].selected)
  }

  /** Inserting an unselected column keeps at most one header selected. */
  lemma InsertKeepsOneSelected<H>(columns: seq<TableColumn<H>>, i: nat, c: TableColumn<H>)
    requires AtMostOneSelected(columns) && i <= |columns| && !c.selected
    ensures AtMostOneSelected(columns[..i] + [c] + columns[i..])
  {
    var cols := columns[..i] + [c] + columns[i..];
    forall p, q | 0 <= p < q < |cols| ensures !(cols[p].selected && cols[q].selected) {
      if p != i && q != i {
        var p' := if p < i then p else p - 1;
        var q' := if q < i then q else q - 1;
        assert cols[p] == columns[p'] && cols[q] == columns[q'];
      }
    }
  }

  /** Changing anything but the selected flags keeps at most one header selected. */
  lemma SameFlagsKeepOneSelected<H>(a: seq<TableColumn<H>>, b: seq<TableColumn<H>>)
    requires |a| == |b| && forall k :: 0 <= k < |a| ==> a[k].selected == b[k].selected
    requires AtMostOneSelected(a)
    ensures AtMostOneSelected(b)
  {
  }

  /** Removing a column keeps at most one header selected. */
  lemma RemoveKeepsOneSelected<H>(columns: seq<TableColumn<H>>, i: nat)
    requires AtMostOneSelected(columns) && i < |columns|
    ensures AtMostOneSelected(columns[..i] + columns[i + 1..])
  {
    var cols := columns[..i] + columns[i + 1..];
    forall p, q | 0 <= p < q < |cols| ensures !(cols[p].selected && cols[q].selected) {
      var p' := if p < i then p else p + 1;
      var q' := if q < i then q else q + 1;
      assert cols[p] == columns[p'] && cols[q] == columns[q'];
    }
  }

  /** A header click on column `c`: the active column is unselected, then `c` is selected. */
  function SelectColumn<H>(columns: seq<TableColumn<H>>, c: nat): (r: seq<TableColumn<H>>)
    requires c < |columns|
    ensures |r| == |columns|
    ensures forall k :: 0 <= k < |r| ==> r[k].column == columns[k].column && r[k].title == columns[k].title
  {
    var active := ActiveColumn(columns);
    var cleared := columns[active := columns[active].(selected := false)];
    cleared[c := cleared[c].(selected := true)]
  }

  /** With at most one header selected before, exactly the clicked one is selected after. */
  lemma SelectColumnExclusive<H>(columns: seq<TableColumn<H>>, c: nat)
    requires c < |columns| && AtMostOneSelected(columns)
    ensures forall k :: 0 <= k < |columns| ==> (SelectColumn(columns, c)[k].selected <==> k == c)
  {
    var f := FirstSelected(columns);
    if f.Some? {
      forall k | f.value < k < |columns|
        ensures !columns[k].selected
      {
        assert !(columns[f.value].selected && columns[k].selected);
      }
    }
  }

  // ---------------------------------------------------------------------
  // Keys
  // ---------------------------------------------------------------------

  /** The state a key arm leaves: focus and whether header selection is on. */
  datatype Move = Move(focus: nat, columnSelect: bool)

  /**
   * The arm of `on_inner_event` a key takes: `None` when the handler
   * returns `Ignored` at once (Left, Right, an unguarded Up or Down, Enter
   * while selecting a header, any other event), else the new state.
   */
  function TableKeyMove(key: Key, focus: nat, len: nat, columnSelect: bool): Option<Move> {
    match key
    case Left => None
    case Right => None
    case Up =>
      if focus > 0 || columnSelect then
        Some(if columnSelect then Move(focus, false) else Move(FocusUp(focus, 1), false))
      else None
    case Down =>
      if focus + 1 < len || columnSelect then
        Some(if columnSelect then Move(focus, false) else Move(FocusDown(focus, 1, len), false))
      else None
    case PageUp => Some(Move(FocusUp(focus, 10), false))
    case PageDown => Some(Move(FocusDown(focus, 10, len), false))
    case Home => Some(Move(0, false))
    case End => Some(Move(SaturatingSub(len, 1), false))
    case Enter => if columnSelect then None else Some(Move(focus, false))
    case Other => None
  }

  predicate SubmitsOnEnter(key: Key, len: nat, columnSelect: bool, hasOnSubmit: bool) {
    key == Enter && !columnSelect && len > 0 && hasOnSubmit
  }

  /** The key would not panic: every `item().unwrap()` it reaches finds a row. */
  predicate TableKeySafe(key: Key, focus: nat, rows: seq<nat>, len: nat, columnSelect: bool, hasOnSubmit: bool) {
    (SubmitsOnEnter(key, len, columnSelect, hasOnSubmit) ==> focus < |rows|)
    && (var m := TableKeyMove(key, focus, len, columnSelect);
        m.Some? && !m.value.columnSelect && len > 0 && m.value.focus != focus ==> m.value.focus < |rows|)
  }

  /**
   * What the handler returns: the submit callback on Enter, the select
   * callback (if set) when focus moved over a non-empty table, `Consumed`
   * without callback while selecting a header, else `Ignored`.
   */
  function TableKeyResult(key: Key, focus: nat, rows: seq<nat>, len: nat, columnSelect: bool,
                          hasOnSubmit: bool, hasOnSelect: bool): EventResult
    requires TableKeySafe(key, focus, rows, len, columnSelect, hasOnSubmit)
  {
    if SubmitsOnEnter(key, len, columnSelect, hasOnSubmit) then Consumed(Some(Submit(focus, rows[focus])))
    else match TableKeyMove(key, focus, len, columnSelect)
      case None => Ignored
      case Some(m) =>
        if m.columnSelect then Consumed(None)
        else if len > 0 && m.focus != focus then
          Consumed(if hasOnSelect then Some(Select(m.focus, rows[m.focus])) else None)
        else Ignored
  }

  /** From a focus on an existing row, every key keeps it on an existing row, and none panics. */
  lemma TableKeyInRange(key: Key, focus: nat, rows: seq<nat>, columnSelect: bool, hasOnSubmit: bool)
    requires focus < |rows|
    ensures TableKeySafe(key, focus, rows, |rows|, columnSelect, hasOnSubmit)
    ensures var m := TableKeyMove(key, focus, |rows|, columnSelect); m.Some? ==> m.value.focus < |rows|
  {
  }

  /** Every key that is handled ends header selection. */
  lemma TableKeyEndsColumnSelect(key: Key, focus: nat, len: nat, columnSelect: bool)
    ensures var m := TableKeyMove(key, focus, len, columnSelect); m.Some? ==> !m.value.columnSelect
  {
  }

  /** Home goes to row 0, End to the last row, PageUp/PageDown move 10 rows, clamped at both ends. */
  lemma TableJumpKeys(focus: nat, len: nat, columnSelect: bool)
    ensures TableKeyMove(Home, focus, len, columnSelect).value.focus == 0
    ensures TableKeyMove(End, focus, len, columnSelect).value.focus == SaturatingSub(len, 1)
    ensures TableKeyMove(PageUp, focus, len, columnSelect).value.focus == SaturatingSub(focus, 10)
    ensures focus + 10 < len ==> TableKeyMove(PageDown, focus, len, columnSelect).value.focus == focus + 10
    ensures TableKeyMove(PageDown, focus, len, columnSelect).value.focus <= SaturatingSub(len, 1)
  {
  }

  /** Up and Down while selecting a header only end the selection; focus stays. */
  lemma TableArrowsCancelColumnSelect(focus: nat, len: nat)
    ensures TableKeyMove(Up, focus, len, true) == Some(Move(focus, false))
    ensures TableKeyMove(Down, focus, len, true) == Some(Move(focus, false))
  {
  }

  /**
   * Apart from Enter's submit, a key is reported (`Consumed`) exactly when it
   * is handled, the table is not empty, and the focus actually changed; the
   * callback then is the select callback for the new row.
   */
  lemma TableFocusChangeReported(key: Key, focus: nat, rows: seq<nat>, columnSelect: bool,
                                 hasOnSubmit: bool, hasOnSelect: bool)
    requires TableKeySafe(key, focus, rows, |rows|, columnSelect, hasOnSubmit)
    requires !SubmitsOnEnter(key, |rows|, columnSelect, hasOnSubmit)
    ensures var m := TableKeyMove(key, focus, |rows|, columnSelect);
            var r := TableKeyResult(key, focus, rows, |rows|, columnSelect, hasOnSubmit, hasOnSelect);
            r.Consumed? <==> m.Some? && |rows| > 0 && m.value.focus != focus
    ensures var r := TableKeyResult(key, focus, rows, |rows|, columnSelect, hasOnSubmit, hasOnSelect);
            r.Consumed? && r.callback.Some? ==>
              hasOnSelect && r.callback.value.Select? && r.callback.value.row != focus
              && r.callback.value.index == rows[r.callback.value.row]
  {
    TableKeyEndsColumnSelect(key, focus, |rows|, columnSelect);
  }

  // ---------------------------------------------------------------------
  // The view
  // ---------------------------------------------------------------------

  class TableView<T(==), H(==)> {
    var needsRelayout: bool
    var columnSelect: bool
    var columns: seq<TableColumn<H>>
    var columnIndicies: map<H, nat>
    var focus: nat
    var items: seq<T>
    var rowsToItems: seq<nat>
    var hasOnSubmit: bool
    var hasOnSelect: bool

    /**
     * The row map lists every item once, the column index map agrees with
     * the columns, and at most one header is selected.
     */
    predicate Valid()
      reads this
    {
      IsPerm(rowsToItems, |items|) && ColumnsIndexed(columns, columnIndicies) && AtMostOneSelected(columns)
    }

    /** `TableView::new`: no columns, no items, focus on row 0. */
    constructor ()
      ensures Valid()
      ensures columns == [] && columnIndicies == map[] && items == [] && rowsToItems == []
      ensures focus == 0 && !columnSelect && needsRelayout && !hasOnSubmit && !hasOnSelect
    {
      needsRelayout := true;
      columnSelect := false;
      columns := [];
      columnIndicies := map[];
      focus := 0;
      items := [];
      rowsToItems := [];
      hasOnSubmit := false;
      hasOnSelect := false;
    }

    /** `set_on_submit`. */
    method SetOnSubmit()
      modifies this
      ensures hasOnSubmit && hasOnSelect == old(hasOnSelect)
      ensures focus == old(focus) && items == old(items) && rowsToItems == old(rowsToItems)
      ensures columns == old(columns) && columnIndicies == old(columnIndicies) && columnSelect == old(columnSelect)
    {
      hasOnSubmit := true;
    }

    /** `set_on_select`. */
    method SetOnSelect()
      modifies this
      ensures hasOnSelect && hasOnSubmit == old(hasOnSubmit)
      ensures focus == old(focus) && items == old(items) && rowsToItems == old(rowsToItems)
      ensures columns == old(columns) && columnIndicies == old(columnIndicies) && columnSelect == old(columnSelect)
    {
      hasOnSelect := true;
    }

    /** `row`: the focused row, unless the table is empty. */
    function Row(): (r: Option<nat>)
      reads this
      ensures r.Some? <==> items != []
      ensures r.Some? ==> r.value == focus
    {
      if items == [] then None else Some(focus)
    }

    /** `item`: the storage index shown on the focused row, if that row exists. */
    function Item(): (r: Option<nat>)
      reads this
      ensures r.Some? <==> focus < |rowsToItems|
      ensures r.Some? ==> r.value == rowsToItems[focus]
      ensures Valid() && r.Some? ==> r.value < |items|
    {
      if focus < |rowsToItems| then Some(rowsToItems[focus]) else None
    }

    /** `clear`. */
    method Clear()
      requires Valid()
      modifies this
      ensures Valid()
      ensures items == [] && rowsToItems == [] && focus == 0 && needsRelayout
      ensures columns == old(columns) && columnIndicies == old(columnIndicies) && columnSelect == old(columnSelect)
      ensures hasOnSubmit == old(hasOnSubmit) && hasOnSelect == old(hasOnSelect)
    {
      items := [];
      rowsToItems := [];
      focus := 0;
      needsRelayout := true;
    }

    /** `set_selected_row`: any row, in range or not. */
    method SetSelectedRow(row: nat)
      modifies this
      ensures focus == row
      ensures items == old(items) && rowsToItems == old(rowsToItems) && columns == old(columns)
      ensures columnIndicies == old(columnIndicies) && columnSelect == old(columnSelect)
      ensures needsRelayout == old(needsRelayout)
      ensures hasOnSubmit == old(hasOnSubmit) && hasOnSelect == old(hasOnSelect)
    {
      focus := row;
    }

    /**
     * `set_selected_item`: focus the first row showing storage index `k`;
     * an index past the end changes nothing.
     */
    method SetSelectedItem(k: nat)
      modifies this
      ensures k < |items| && RowOf(rowsToItems, k).Some? ==> focus == RowOf(rowsToItems, k).value
      ensures !(k < |items| && RowOf(rowsToItems, k).Some?) ==> focus == old(focus)
      ensures Valid() && k < |items| ==> Item() == Some(k)
      ensures items == old(items) && rowsToItems == old(rowsToItems) && columns == old(columns)
      ensures columnIndicies == old(columnIndicies) && columnSelect == old(columnSelect)
      ensures needsRelayout == old(needsRelayout)
      ensures hasOnSubmit == old(hasOnSubmit) && hasOnSelect == old(hasOnSelect)
    {
      if k < |items| {
        var rows := rowsToItems;
        var row := 0;
        var found: Option<nat> := None;
        while row < |rows|
          invariant 0 <= row <= |rows|
          invariant forall i :: 0 <= i < row ==> rows[i] != k
        {
          if rows[row] == k {
            found := Some(row);
            break;
          }
          row := row + 1;
        }
        if found.Some? {
          assert RowOf(rows, k).Some?;
          assert found == RowOf(rows, k);
          focus := found.value;
        }
      }
      if Valid() && k < |items| {
        RowOfPerm(rowsToItems, |items|, k);
      }
    }

    /** `set_items_and_focus`: replace the items, reset the row map, then select `location`. */
    method SetItemsAndFocus(newItems: seq<T>, location: nat)
      requires Valid()
      modifies this
      ensures Valid()
      ensures items == newItems && rowsToItems == Identity(|newItems|) && needsRelayout
      ensures focus == if location < |newItems| then location else old(focus)
      ensures columns == old(columns) && columnIndicies == old(columnIndicies) && columnSelect == old(columnSelect)
      ensures hasOnSubmit == old(hasOnSubmit) && hasOnSelect == old(hasOnSelect)
    {
      items := newItems;
      var rows: seq<nat> := [];
      var i := 0;
      while i < |items|
        invariant 0 <= i <= |items|
        invariant rows == Identity(i)
      {
        rows := rows + [i];
        i := i + 1;
      }
      rowsToItems := rows;
      IdentityIsPerm(|items|);
      if location < |items| {
        assert RowOf(rowsToItems, location) == Some(location) by {
          RowOfPerm(rowsToItems, |items|, location);
        }
      }
      SetSelectedItem(location);
      needsRelayout := true;
    }

    /**
     * `set_items`: rows show the new items in order, and row 0 is focused;
     * for an empty list the old focus stays, as `set_selected_item(0)` does nothing.
     */
    method SetItems(newItems: seq<T>)
      requires Valid()
      modifies this
      ensures Valid()
      ensures items == newItems && rowsToItems == Identity(|newItems|) && needsRelayout
      ensures focus == if newItems != [] then 0 else old(focus)
      ensures columns == old(columns) && columnIndicies == old(columnIndicies) && columnSelect == old(columnSelect)
      ensures hasOnSubmit == old(hasOnSubmit) && hasOnSelect == old(hasOnSelect)
    {
      SetItemsAndFocus(newItems, 0);
    }

    /**
     * `set_items_stable`: like `set_items`, but focus goes to the first new
     * item equal to the previously selected one, or to row 0 if there is none.
     */
    method SetItemsStable(newItems: seq<T>)
      requires Valid()
      modifies this
      ensures Valid()
      ensures items == newItems && rowsToItems == Identity(|newItems|) && needsRelayout
      ensures var prev := old(Item());
              prev.Some? && old(items)[prev.value] in newItems ==>
                Item().Some? && items[Item().value] == old(items)[prev.value]
                && focus == IndexOf(newItems, old(items)[prev.value]).value
      ensures var prev := old(Item());
              !(prev.Some? && old(items)[prev.value] in newItems) ==>
                focus == if newItems != [] then 0 else old(focus)
      ensures columns == old(columns) && columnIndicies == old(columnIndicies) && columnSelect == old(columnSelect)
      ensures hasOnSubmit == old(hasOnSubmit) && hasOnSelect == old(hasOnSelect)
    {
      var current := Item();
      var location := 0;
      if current.Some? {
        var found := IndexOf(newItems, items[current.value]);
        if found.Some? {
          location := found.value;
        }
      }
      SetItemsAndFocus(newItems, location);
    }

    /**
     * `insert_item_at`: the item is stored last and shown at row `index`
     * (the code panics for `index > len()`); focus does not move.
     */
    method InsertItemAt(index: nat, item: T)
      requires Valid() && index <= |rowsToItems|
      modifies this
      ensures Valid()
      ensures items == old(items) + [item] && |items| == old(|items|) + 1
      ensures rowsToItems == InsertRowAt(old(rowsToItems), index, old(|items|))
      ensures focus == old(focus) && needsRelayout
      ensures columns == old(columns) && columnIndicies == old(columnIndicies) && columnSelect == old(columnSelect)
      ensures hasOnSubmit == old(hasOnSubmit) && hasOnSelect == old(hasOnSelect)
    {
      InsertRowAtPerm(rowsToItems, index, |items|);
      items := items + [item];
      rowsToItems := rowsToItems[..index] + [|items| - 1] + rowsToItems[index..];
      needsRelayout := true;
    }

    /** `insert_item`: stored and shown last. */
    method InsertItem(item: T)
      requires Valid()
      modifies this
      ensures Valid()
      ensures items == old(items) + [item]
      ensures rowsToItems == old(rowsToItems) + [old(|items|)]
      ensures focus == old(focus) && needsRelayout
      ensures columns == old(columns) && columnIndicies == old(columnIndicies) && columnSelect == old(columnSelect)
      ensures hasOnSubmit == old(hasOnSubmit) && hasOnSelect == old(hasOnSelect)
    {
      InsertItemAt(|items|, item);
      assert old(rowsToItems)[|old(rowsToItems)|..] == [];
    }

    /** `focus_up`. */
    method FocusUp(n: nat)
      modifies this
      ensures focus == Views.FocusUp(old(focus), n)
      ensures items == old(items) && rowsToItems == old(rowsToItems) && columns == old(columns)
      ensures columnIndicies == old(columnIndicies) && columnSelect == old(columnSelect)
      ensures needsRelayout == old(needsRelayout)
      ensures hasOnSubmit == old(hasOnSubmit) && hasOnSelect == old(hasOnSelect)
    {
      focus := focus - (if focus < n then focus else n);
    }

    /** `focus_down`, clamped to `len().saturating_sub(1)`. */
    method FocusDown(n: nat)
      modifies this
      ensures focus == Views.FocusDown(old(focus), n, |items|)
      ensures items == old(items) && rowsToItems == old(rowsToItems) && columns == old(columns)
      ensures columnIndicies == old(columnIndicies) && columnSelect == old(columnSelect)
      ensures needsRelayout == old(needsRelayout)
      ensures hasOnSubmit == old(hasOnSubmit) && hasOnSelect == old(hasOnSelect)
    {
      var last := if |items| >= 1 then |items| - 1 else 0;
      focus := if focus + n < last then focus + n else last;
    }

    /**
     * `remove_item`: an index past the end changes nothing and gives `None`.
     * Otherwise the item is taken out of storage, its row is dropped, the
     * references above it are renumbered, and if it was the focused item
     * focus moves up one row.
     */
    method RemoveItem(k: nat) returns (removed: Option<T>)
      requires Valid()
      modifies this
      ensures Valid()
      ensures k >= old(|items|) ==>
                removed == None && items == old(items) && rowsToItems == old(rowsToItems) && focus == old(focus)
      ensures k < old(|items|) ==> removed == Some(old(items)[k])
      ensures k < old(|items|) ==> items == old(items)[..k] + old(items)[k + 1..]
      ensures k < old(|items|) ==> rowsToItems == RemoveRef(old(rowsToItems), k)
      ensures k < old(|items|) ==> focus == FocusAfterRemove(old(rowsToItems), old(focus), k)
      ensures columns == old(columns) && columnIndicies == old(columnIndicies) && columnSelect == old(columnSelect)
      ensures hasOnSubmit == old(hasOnSubmit) && hasOnSelect == old(hasOnSelect)
    {
      if k >= |items| {
        return None;
      }
      var selected := Item();
      var rows := rowsToItems;
      var kept := RetainOthers(rows, k);
      var renumbered := RenumberAbove(kept, k);
      // the focus moves first in the source; the two loops only touch locals
      if selected == Some(k) {
        FocusUp(1);
      }
      RemoveRefPerm(rows, k, |items|);
      var rest := items[..k] + items[k + 1..];
      assert |rest| == |items| - 1;
      removed := Some(items[k]);
      items := rest;
      rowsToItems := renumbered;
      needsRelayout := true;
    }

    /** `take_items`: hand back all items; the table is left empty with focus on row 0. */
    method TakeItems() returns (taken: seq<T>)
      requires Valid()
      modifies this
      ensures Valid()
      ensures taken == old(items) && items == [] && rowsToItems == [] && focus == 0 && needsRelayout
      ensures columns == old(columns) && columnIndicies == old(columnIndicies) && columnSelect == old(columnSelect)
      ensures hasOnSubmit == old(hasOnSubmit) && hasOnSelect == old(hasOnSelect)
    {
      SetSelectedRow(0);
      rowsToItems := [];
      needsRelayout := true;
      taken := items;
      items := [];
    }

    /**
     * `insert_column`: the columns from position `i` on move one place
     * right, their map entries are raised by one, and the new column's id
     * maps to `i`. The map stays consistent when the id is new.
     */
    method InsertColumn(i: nat, column: H, title: string)
      requires Valid() && i <= |columns|
      modifies this
      ensures columns == old(columns)[..i] + [NewColumn(column, title)] + old(columns)[i..]
      ensures columnIndicies == RaiseFrom(old(columnIndicies), i)[column := i]
      ensures column !in old(columnIndicies) ==> Valid()
      ensures needsRelayout
      ensures items == old(items) && rowsToItems == old(rowsToItems) && focus == old(focus)
      ensures columnSelect == old(columnSelect)
      ensures hasOnSubmit == old(hasOnSubmit) && hasOnSelect == old(hasOnSelect)
    {
      var m0 := columnIndicies;
      var m := m0;
      var k := i;
      while k < |columns|
        invariant i <= k <= |columns|
        invariant m.Keys == m0.Keys
        invariant forall h :: h in m0 ==> m[h] == if i <= m0[h] < k then m0[h] + 1 else m0[h]
      {
        var id := columns[k].column;
        assert m0[id] == k;
        m := m[id := m[id] + 1];
        k := k + 1;
      }
      assert m == RaiseFrom(m0, i);
      if column !in m0 {
        InsertColumnIndexed(columns, m0, i, NewColumn(column, title));
      }
      InsertKeepsOneSelected(columns, i, NewColumn(column, title));
      var cols := columns[..i] + [NewColumn(column, title)] + columns[i..];
      columnIndicies := m[column := i];
      columns := cols;
      needsRelayout := true;
    }

    /** `add_column`: insert at the end. */
    method AddColumn(column: H, title: string)
      requires Valid()
      modifies this
      ensures columns == old(columns) + [NewColumn(column, title)]
      ensures columnIndicies == old(columnIndicies)[column := |old(columns)|]
      ensures column !in old(columnIndicies) ==> Valid()
      ensures needsRelayout
      ensures items == old(items) && rowsToItems == old(rowsToItems) && focus == old(focus)
      ensures columnSelect == old(columnSelect)
      ensures hasOnSubmit == old(hasOnSubmit) && hasOnSelect == old(hasOnSelect)
    {
      RaiseFromEnd(columns, columnIndicies);
      InsertColumn(|columns|, column, title);
      assert old(columns)[|old(columns)|..] == [];
    }

    /**
     * `remove_column` (the code panics for `i >= len`): the columns after
     * `i` move one place left, their map entries drop by one, and the
     * removed column's id is unmapped.
     */
    method RemoveColumn(i: nat)
      requires Valid() && i < |columns|
      modifies this
      ensures Valid()
      ensures columns == old(columns)[..i] + old(columns)[i + 1..]
      ensures columnIndicies == LowerAbove(old(columnIndicies), i) - {old(columns)[i].column}
      ensures needsRelayout
      ensures items == old(items) && rowsToItems == old(rowsToItems) && focus == old(focus)
      ensures columnSelect == old(columnSelect)
      ensures hasOnSubmit == old(hasOnSubmit) && hasOnSelect == old(hasOnSelect)
    {
      var m0 := columnIndicies;
      var m := m0;
      var k := i + 1;
      while k < |columns|
        invariant i + 1 <= k <= |columns|
        invariant m.Keys == m0.Keys
        invariant forall h :: h in m0 ==> m[h] == if i + 1 <= m0[h] < k then m0[h] - 1 else m0[h]
      {
        var id := columns[k].column;
        assert m0[id] == k;
        m := m[id := m[id] - 1];
        k := k + 1;
      }
      assert m == LowerAbove(m0, i);
      RemoveColumnIndexed(columns, m0, i);
      var gone := columns[i];
      RemoveKeepsOneSelected(columns, i);
      columns := columns[..i] + columns[i + 1..];
      columnIndicies := m - {gone.column};
      needsRelayout := true;
    }

    /**
     * The outcome of `layout_content`: every column gets the width laid out
     * for it and the pending relayout is done. The widths are an input; how
     * they are computed from the requested widths is not modelled.
     */
    method Layout(widths: seq<nat>)
      requires Valid() && |widths| == |columns|
      modifies this
      ensures Valid() && !needsRelayout
      ensures |columns| == |old(columns)|
      ensures forall k :: 0 <= k < |columns| ==> columns[k] == old(columns)[k].(width := widths[k])
      ensures columnIndicies == old(columnIndicies) && columnSelect == old(columnSelect)
      ensures items == old(items) && rowsToItems == old(rowsToItems) && focus == old(focus)
      ensures hasOnSubmit == old(hasOnSubmit) && hasOnSelect == old(hasOnSelect)
    {
      var cols := columns;
      for k := 0 to |cols|
        invariant |cols| == |columns|
        invariant forall j :: 0 <= j < |cols| ==>
                    cols[j] == if j < k then columns[j].(width := widths[j]) else columns[j]
      {
        cols := cols[k := cols[k].(width := widths[k])];
      }
      SameIdsIndexed(columns, cols, columnIndicies);
      SameFlagsKeepOneSelected(columns, cols);
      columns := cols;
      needsRelayout := false;
    }

    /** `column_for_x`: the column under header position `x`, by the walk `ColumnAt` describes. */
    method ColumnForX(x: nat) returns (r: Option<nat>)
      ensures r == ColumnAt(columns, x)
    {
      var rest: nat := x;
      var i: nat := 0;
      while i < |columns|
        invariant 0 <= i <= |columns|
        invariant ColumnAt(columns, x) == Shift(ColumnAt(columns[i..], rest), i)
      {
        assert columns[i..][0] == columns[i] && columns[i..][1..] == columns[i + 1..];
        if rest < columns[i].width {
          return Some(i);
        }
        rest := rest - columns[i].width;
        if rest < 3 {
          return None;
        }
        rest := rest - 3;
        assert Shift(Shift(ColumnAt(columns[i + 1..], rest), 1), i) == Shift(ColumnAt(columns[i + 1..], rest), i + 1);
        i := i + 1;
      }
      return None;
    }

    /**
     * A left click on the header row at `x`: clicking the header already
     * selected while selecting headers does nothing; otherwise that column
     * becomes the selected one and header selection starts. Always `Ignored`.
     */
    method OnHeaderClick(x: nat) returns (r: EventResult)
      requires Valid()
      modifies this
      ensures r == Ignored && Valid()
      ensures var c := ColumnAt(old(columns), x);
              if c.Some? && !(old(columnSelect) && old(columns)[c.value].selected)
              then columns == SelectColumn(old(columns), c.value) && columnSelect
                   && forall k :: 0 <= k < |columns| ==> (columns[k].selected <==> k == c.value)
              else columns == old(columns) && columnSelect == old(columnSelect)
      ensures items == old(items) && rowsToItems == old(rowsToItems) && focus == old(focus)
      ensures columnIndicies == old(columnIndicies)
      ensures hasOnSubmit == old(hasOnSubmit) && hasOnSelect == old(hasOnSelect)
    {
      var col := ColumnForX(x);
      if col.Some? {
        var c := col.value;
        if columnSelect && columns[c].selected {
          return Ignored;
        }
        var cols0 := columns;
        var active := ActiveColumn(columns);
        columns := columns[active := columns[active].(selected := false)];
        columns := columns[c := columns[c].(selected := true)];
        columnSelect := true;
        assert columns == SelectColumn(cols0, c);
        SameIdsIndexed(cols0, columns, columnIndicies);
        SelectColumnExclusive(cols0, c);
        assert AtMostOneSelected(columns);
      }
      return Ignored;
    }

    /** `on_submit_event`: hand over (row, item) of the focused row to the submit callback. */
    function OnSubmitEvent(): (r: EventResult)
      requires items != [] && focus < |rowsToItems|
      reads this
      ensures hasOnSubmit ==> r == Consumed(Some(Submit(focus, rowsToItems[focus])))
      ensures !hasOnSubmit ==> r == Ignored
    {
      if hasOnSubmit then Consumed(Some(Submit(Row().value, Item().value))) else Ignored
    }

    /** `on_focus_change`: hand over (row, item) of the newly focused row to the select callback, if set. */
    function OnFocusChange(): (r: EventResult)
      requires items != [] && focus < |rowsToItems|
      reads this
      ensures r.Consumed?
      ensures hasOnSelect <==> r.callback.Some?
      ensures hasOnSelect ==> r.callback.value == Select(focus, rowsToItems[focus])
    {
      Consumed(if hasOnSelect then Some(Select(Row().value, Item().value)) else None)
    }

    /** The focus and header-selection changes of the key arms, reporting whether the arm went on past its guard. */
    method MoveFocus(key: Key) returns (handled: bool)
      modifies this
      ensures items == old(items) && rowsToItems == old(rowsToItems) && columns == old(columns)
      ensures columnIndicies == old(columnIndicies) && needsRelayout == old(needsRelayout)
      ensures hasOnSubmit == old(hasOnSubmit) && hasOnSelect == old(hasOnSelect)
      ensures var m := TableKeyMove(key, old(focus), |items|, old(columnSelect));
              handled == m.Some?
              && if m.Some? then focus == m.value.focus && columnSelect == m.value.columnSelect
                 else focus == old(focus) && columnSelect == old(columnSelect)
    {
      match key {
        case Left =>
          return false;
        case Right =>
          return false;
        case Up =>
          if focus > 0 || columnSelect {
            if columnSelect {
              columnSelect := false;
            } else {
              FocusUp(1);
            }
          } else {
            return false;
          }
        case Down =>
          if focus + 1 < |items| || columnSelect {
            if columnSelect {
              columnSelect := false;
            } else {
              FocusDown(1);
            }
          } else {
            return false;
          }
        case PageUp =>
          columnSelect := false;
          FocusUp(10);
        case PageDown =>
          columnSelect := false;
          FocusDown(10);
        case Home =>
          columnSelect := false;
          focus := 0;
        case End =>
          columnSelect := false;
          focus := if |items| >= 1 then |items| - 1 else 0;
        case Enter =>
          if columnSelect {
            return false;
          }
        case Other =>
          return false;
      }
      return true;
    }

    /** The key arms of `on_inner_event`, proved to follow `TableKeyMove` and `TableKeyResult`. */
    method OnInnerKey(key: Key) returns (r: EventResult)
      requires Valid()
      requires TableKeySafe(key, focus, rowsToItems, |items|, columnSelect, hasOnSubmit)
      modifies this
      ensures items == old(items) && rowsToItems == old(rowsToItems) && columns == old(columns)
      ensures columnIndicies == old(columnIndicies) && needsRelayout == old(needsRelayout)
      ensures hasOnSubmit == old(hasOnSubmit) && hasOnSelect == old(hasOnSelect)
      ensures Valid()
      ensures r == TableKeyResult(key, old(focus), rowsToItems, |items|, old(columnSelect), hasOnSubmit, hasOnSelect)
      ensures var m := TableKeyMove(key, old(focus), |items|, old(columnSelect));
              if m.Some? then focus == m.value.focus && columnSelect == m.value.columnSelect
              else focus == old(focus) && columnSelect == old(columnSelect)
    {
      var lastFocus := focus;
      if key == Enter && !columnSelect && items != [] && hasOnSubmit {
        return OnSubmitEvent();
      }
      var handled := MoveFocus(key);
      if !handled {
        return Ignored;
      }
      if columnSelect {
        return Consumed(None);
      } else if items != [] && lastFocus != focus {
        return OnFocusChange();
      }
      return Ignored;
    }
  }
}

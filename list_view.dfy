/**
 * src/views/list_view.rs: a list of styled lines with a focus cursor; the
 * table's row bookkeeping without columns. Items are only ever appended, so
 * the row map stays the identity until an item is removed.
 *
 * Drawing, scrolling and the mouse arms of the event handler are not
 * modelled; the callbacks are reduced to whether they are set.
 */
module ListViews {
  import opened Wrappers
  import opened Text
  import opened Views

  /** The color styles of src/styles.rs (foreground; the background is always black). */
  datatype Color = Green | LightGreen | Blue | LightBlue | Red | White | Yellow | Magenta

  /** A line of text, plain (`None`) or in one color. */
  datatype StyledLine = StyledLine(text: string, color: Option<Color>)

  /** One styled line per piece. */
  function Styled(pieces: seq<string>, color: Option<Color>): (lines: seq<StyledLine>)
    ensures |lines| == |pieces|
    ensures forall k :: 0 <= k < |pieces| ==> lines[k] == StyledLine(pieces[k], color)
    decreases |pieces|
  {
    if pieces == [] then [] else Styled(pieces[..|pieces| - 1], color) + [StyledLine(pieces[|pieces| - 1], color)]
  }

  function Texts(lines: seq<StyledLine>): (texts: seq<string>)
    ensures |texts| == |lines|
    ensures forall k :: 0 <= k < |lines| ==> texts[k] == lines[k].text
    decreases |lines|
  {
    if lines == [] then [] else Texts(lines[..|lines| - 1]) + [lines[|lines| - 1].text]
  }

  /** The lines `insert_string` appends for `s`: one per '\n'-separated piece. */
  function LinesOf(s: string, color: Option<Color>): seq<StyledLine> {
    Styled(Split(s, '\n'), color)
  }

  /**
   * `insert_string` adds one line more than `s` has newlines, the lines
   * rejoined with '\n' give `s` back, none contains a '\n', and a trailing
   * '\n' leaves an empty last line.
   */
  lemma LinesOfSplitsAtNewlines(s: string, color: Option<Color>)
    ensures |LinesOf(s, color)| == Count(s, '\n') + 1
    ensures Join(Texts(LinesOf(s, color)), '\n') == s
    ensures forall k :: 0 <= k < |LinesOf(s, color)| ==> '\n' !in LinesOf(s, color)[k].text
    ensures |s| > 0 && s[|s| - 1] == '\n' ==> LinesOf(s, color)[|LinesOf(s, color)| - 1].text == ""
  {
    var pieces := Split(s, '\n');
    SplitCount(s, '\n');
    JoinSplit(s, '\n');
    SplitPiecesFree(s, '\n');
    assert Texts(LinesOf(s, color)) == pieces;
    if |s| > 0 && s[|s| - 1] == '\n' {
      SplitTrailingSeparator(s, '\n');
    }
  }

  lemma AppendLine(prefix: seq<StyledLine>, lines: seq<StyledLine>, i: nat)
    requires i < |lines|
    ensures prefix + lines[..i] + [lines[i]] == prefix + lines[..i + 1]
  {
    assert lines[..i + 1] == lines[..i] + [lines[i]];
  }

  lemma AppendRow(rows0: seq<nat>, n0: nat, m: nat)
    requires n0 <= m
    ensures rows0 + Range(n0, m) + [m] == rows0 + Range(n0, m + 1)
  {
    assert Range(n0, m + 1) == Range(n0, m) + [m];
  }

  // ---------------------------------------------------------------------
  // Keys
  // ---------------------------------------------------------------------

  /**
   * The new focus a key arm of `on_inner_event` leaves, or `None` when the
   * handler returns `Ignored` at once. Up needs `focus > 0`, Down needs
   * `focus + 1 < len`; PageDown computes `len - 1` and so needs a non-empty list.
   */
  function ListKeyMove(key: Key, focus: nat, len: nat): Option<nat>
    requires key == PageDown ==> len > 0
  {
    match key
    case Left => None
    case Right => None
    case Up => if focus > 0 then Some(FocusUp(focus, 1)) else None
    case Down => if focus + 1 < len then Some(FocusDown(focus, 1, len)) else None
    case PageUp => Some(FocusUp(focus, 10))
    case PageDown => Some(FocusDown(focus, 10, len))
    case Home => Some(0)
    case End => Some(SaturatingSub(len, 1))
    case Enter => Some(focus)
    case Other => None
  }

  predicate ListSubmitsOnEnter(key: Key, len: nat, hasOnSubmit: bool) {
    key == Enter && len > 0 && hasOnSubmit
  }

  /**
   * The key would not panic: no `len - 1` underflow (a panic in debug builds),
   * and every `item()` it reaches finds a row.
   */
  predicate ListKeySafe(key: Key, focus: nat, rows: seq<nat>, len: nat, hasOnSubmit: bool) {
    (key == PageDown ==> len > 0)
    && (ListSubmitsOnEnter(key, len, hasOnSubmit) ==> focus < |rows|)
    && (key != PageDown || len > 0 ==>
          var m := ListKeyMove(key, focus, len);
          m.Some? && len > 0 && m.value != focus ==> m.value < |rows|)
  }

  /** What the handler returns: submit on Enter, select when focus moved over a non-empty list. */
  function ListKeyResult(key: Key, focus: nat, rows: seq<nat>, len: nat, hasOnSubmit: bool, hasOnSelect: bool): EventResult
    requires ListKeySafe(key, focus, rows, len, hasOnSubmit)
  {
    if ListSubmitsOnEnter(key, len, hasOnSubmit) then Consumed(Some(Submit(focus, rows[focus])))
    else match ListKeyMove(key, focus, len)
      case None => Ignored
      case Some(f) =>
        if len > 0 && f != focus then Consumed(if hasOnSelect then Some(Select(f, rows[f])) else None)
        else Ignored
  }

  /**
   * PageDown on an empty list is the one key that cannot be handled: `0 - 1`
   * underflows, which panics in debug builds.
   */
  lemma ListPageDownOnEmptyPanics(focus: nat, rows: seq<nat>, hasOnSubmit: bool)
    ensures !ListKeySafe(PageDown, focus, rows, 0, hasOnSubmit)
    ensures forall key :: key != PageDown ==> ListKeySafe(key, focus, rows, 0, hasOnSubmit)
  {
  }

  /** From a focus on an existing row, every key is safe and keeps the focus on an existing row. */
  lemma ListKeyInRange(key: Key, focus: nat, rows: seq<nat>, hasOnSubmit: bool)
    requires focus < |rows|
    ensures ListKeySafe(key, focus, rows, |rows|, hasOnSubmit)
    ensures var m := ListKeyMove(key, focus, |rows|); m.Some? ==> m.value < |rows|
  {
  }

  /** Up acts only when `focus > 0`, Down only when `focus + 1 < len`. */
  lemma ListArrowGuards(focus: nat, len: nat)
    ensures ListKeyMove(Up, focus, len).Some? <==> focus > 0
    ensures ListKeyMove(Down, focus, len).Some? <==> focus + 1 < len
    ensures ListKeyMove(Up, focus, len).Some? ==> ListKeyMove(Up, focus, len).value == focus - 1
    ensures ListKeyMove(Down, focus, len).Some? ==> ListKeyMove(Down, focus, len).value == focus + 1
  {
  }

  /**
   * Apart from Enter's submit, a key is reported exactly when the list is
   * non-empty and the focus actually changed, and then with the select
   * callback for the new row.
   */
  lemma ListFocusChangeReported(key: Key, focus: nat, rows: seq<nat>, hasOnSubmit: bool, hasOnSelect: bool)
    requires ListKeySafe(key, focus, rows, |rows|, hasOnSubmit)
    requires !ListSubmitsOnEnter(key, |rows|, hasOnSubmit)
    ensures var m := ListKeyMove(key, focus, |rows|);
            var r := ListKeyResult(key, focus, rows, |rows|, hasOnSubmit, hasOnSelect);
            r.Consumed? <==> m.Some? && |rows| > 0 && m.value != focus
    ensures var r := ListKeyResult(key, focus, rows, |rows|, hasOnSubmit, hasOnSelect);
            r.Consumed? && r.callback.Some? ==>
              hasOnSelect && r.callback.value.Select? && r.callback.value.row != focus
              && r.callback.value.index == rows[r.callback.value.row]
  {
  }

  // ---------------------------------------------------------------------
  // The view
  // ---------------------------------------------------------------------

  class ListView {
    var needsRelayout: bool
    var focus: nat
    var items: seq<StyledLine>
    var rowsToItems: seq<nat>
    var hasOnSubmit: bool
    var hasOnSelect: bool

    /** The row map lists every item once. */
    predicate Valid()
      reads this
    {
      IsPerm(rowsToItems, |items|)
    }

    /** `ListView::new`: empty, focus on row 0. */
    constructor ()
      ensures Valid() && items == [] && rowsToItems == [] && focus == 0
      ensures needsRelayout && !hasOnSubmit && !hasOnSelect
    {
      needsRelayout := true;
      focus := 0;
      items := [];
      rowsToItems := [];
      hasOnSubmit := false;
      hasOnSelect := false;
    }

    /** `set_on_submit`. */
    method SetOnSubmit()
      modifies this
      ensures hasOnSubmit && hasOnSelect == old(hasOnSelect)
      ensures focus == old(focus) && items == old(items) && rowsToItems == old(rowsToItems)
    {
      hasOnSubmit := true;
    }

    /** `set_on_select`. */
    method SetOnSelect()
      modifies this
      ensures hasOnSelect && hasOnSubmit == old(hasOnSubmit)
      ensures focus == old(focus) && items == old(items) && rowsToItems == old(rowsToItems)
    {
      hasOnSelect := true;
    }

    /** `row`: the focused row, unless the list is empty. */
    function Row(): (r: Option<nat>)
      reads this
      ensures r.Some? <==> items != []
      ensures r.Some? ==> r.value == focus
    {
      if items == [] then None else Some(focus)
    }

    /** `item`: the storage index on the focused row; indexing panics for a focus past the rows. */
    function Item(): (r: Option<nat>)
      requires items != [] ==> focus < |rowsToItems|
      reads this
      ensures r.Some? <==> items != []
      ensures r.Some? ==> r.value == rowsToItems[focus]
      ensures Valid() && r.Some? ==> r.value < |items|
    {
      if items == [] then None else Some(rowsToItems[focus])
    }

    /** `clear`. */
    method Clear()
      modifies this
      ensures Valid() && items == [] && rowsToItems == [] && focus == 0 && needsRelayout
      ensures hasOnSubmit == old(hasOnSubmit) && hasOnSelect == old(hasOnSelect)
    {
      items := [];
      rowsToItems := [];
      focus := 0;
      needsRelayout := true;
    }

    /** `set_selected_row`. */
    method SetSelectedRow(row: nat)
      modifies this
      ensures focus == row
      ensures items == old(items) && rowsToItems == old(rowsToItems) && needsRelayout == old(needsRelayout)
      ensures hasOnSubmit == old(hasOnSubmit) && hasOnSelect == old(hasOnSelect)
    {
      focus := row;
    }

    /** `set_selected_item`: focus the first row showing storage index `k`; out of range changes nothing. */
    method SetSelectedItem(k: nat)
      modifies this
      ensures k < |items| && RowOf(rowsToItems, k).Some? ==> focus == RowOf(rowsToItems, k).value
      ensures !(k < |items| && RowOf(rowsToItems, k).Some?) ==> focus == old(focus)
      ensures Valid() && k < |items| ==> Item() == Some(k)
      ensures items == old(items) && rowsToItems == old(rowsToItems) && needsRelayout == old(needsRelayout)
      ensures hasOnSubmit == old(hasOnSubmit) && hasOnSelect == old(hasOnSelect)
    {
      if k < |items| {
        var rows := rowsToItems;
        var row := 0;
        var found: Option<nat> := None;
        while row < |rows|
          invariant 0 <= row <= |rows|
          invariant forall i :: 0 <= i < row ==> rows[i] != k
        {
          if rows[row] == k {
            found := Some(row);
            break;
          }
          row := row + 1;
        }
        if found.Some? {
          assert RowOf(rows, k).Some?;
          assert found == RowOf(rows, k);
          focus := found.value;
        }
      }
      if Valid() && k < |items| {
        RowOfPerm(rowsToItems, |items|, k);
      }
    }

    /** `insert_item`: stored and shown last; an identity row map stays the identity. */
    method InsertItem(item: StyledLine)
      requires Valid()
      modifies this
      ensures Valid()
      ensures items == old(items) + [item]
      ensures rowsToItems == old(rowsToItems) + [old(|items|)]
      ensures old(rowsToItems) == Identity(old(|items|)) ==> rowsToItems == Identity(|items|)
      ensures focus == old(focus) && needsRelayout
      ensures hasOnSubmit == old(hasOnSubmit) && hasOnSelect == old(hasOnSelect)
    {
      InsertRowAtPerm(rowsToItems, |rowsToItems|, |items|);
      assert InsertRowAt(rowsToItems, |rowsToItems|, |items|) == rowsToItems + [|items|];
      items := items + [item];
      rowsToItems := rowsToItems + [|items| - 1];
      needsRelayout := true;
    }

    /** The loop shared by `insert_string` and `insert_colorful_string`: one item per piece. */
    method InsertLines(s: string, color: Option<Color>)
      requires Valid()
      modifies this
      ensures Valid()
      ensures items == old(items) + LinesOf(s, color)
      ensures rowsToItems == old(rowsToItems) + Range(old(|items|), |items|)
      ensures old(rowsToItems) == Identity(old(|items|)) ==> rowsToItems == Identity(|items|)
      ensures focus == old(focus) && needsRelayout
      ensures hasOnSubmit == old(hasOnSubmit) && hasOnSelect == old(hasOnSelect)
    {
      var pieces := Split(s, '\n');
      var lines := LinesOf(s, color);
      ghost var items0 := items;
      ghost var rows0 := rowsToItems;
      var n0 := |items|;
      var i := 0;
      while i < |pieces|
        invariant 0 <= i <= |pieces|
        invariant Valid()
        invariant items == items0 + lines[..i]
        invariant |items| == n0 + i
        invariant rowsToItems == rows0 + Range(n0, |items|)
        invariant focus == old(focus) && (i > 0 ==> needsRelayout)
        invariant hasOnSubmit == old(hasOnSubmit) && hasOnSelect == old(hasOnSelect)
      {
        ghost var m := |items|;
        InsertItem(StyledLine(pieces[i], color));
        AppendLine(items0, lines, i);
        AppendRow(rows0, n0, m);
        i := i + 1;
      }
      assert lines[..|pieces|] == lines;
      if rows0 == Identity(n0) {
        IdentityAppend(n0, |items|);
      }
    }

    /** `insert_string`: plain lines. */
    method InsertString(s: string)
      requires Valid()
      modifies this
      ensures Valid()
      ensures items == old(items) + LinesOf(s, None)
      ensures rowsToItems == old(rowsToItems) + Range(old(|items|), |items|)
      ensures old(rowsToItems) == Identity(old(|items|)) ==> rowsToItems == Identity(|items|)
      ensures focus == old(focus) && needsRelayout
      ensures hasOnSubmit == old(hasOnSubmit) && hasOnSelect == old(hasOnSelect)
    {
      InsertLines(s, None);
    }

    /** `insert_colorful_string`: lines in color `c`. */
    method InsertColorfulString(s: string, c: Color)
      requires Valid()
      modifies this
      ensures Valid()
      ensures items == old(items) + LinesOf(s, Some(c))
      ensures rowsToItems == old(rowsToItems) + Range(old(|items|), |items|)
      ensures old(rowsToItems) == Identity(old(|items|)) ==> rowsToItems == Identity(|items|)
      ensures focus == old(focus) && needsRelayout
      ensures hasOnSubmit == old(hasOnSubmit) && hasOnSelect == old(hasOnSelect)
    {
      InsertLines(s, Some(c));
    }

    /** `focus_up`. */
    method FocusUp(n: nat)
      modifies this
      ensures focus == Views.FocusUp(old(focus), n)
      ensures items == old(items) && rowsToItems == old(rowsToItems) && needsRelayout == old(needsRelayout)
      ensures hasOnSubmit == old(hasOnSubmit) && hasOnSelect == old(hasOnSelect)
    {
      focus := focus - (if focus < n then focus else n);
    }

    /** `focus_down`: `len() - 1` without saturation, so the list must not be empty. */
    method FocusDown(n: nat)
      requires items != []
      modifies this
      ensures focus == Views.FocusDown(old(focus), n, |items|)
      ensures items == old(items) && rowsToItems == old(rowsToItems) && needsRelayout == old(needsRelayout)
      ensures hasOnSubmit == old(hasOnSubmit) && hasOnSelect == old(hasOnSelect)
    {
      var last := |items| - 1;
      focus := if focus + n < last then focus + n else last;
    }

    /**
     * `remove_item`: as in the table, an index past the end gives `None` and
     * changes nothing; otherwise the item is removed, its row dropped, the
     * references above it renumbered, and focus moves up if it was on it.
     * `item()` is consulted first and panics for a focus past the rows.
     */
    method RemoveItem(k: nat) returns (removed: Option<StyledLine>)
      requires Valid()
      requires k < |items| ==> focus < |rowsToItems|
      modifies this
      ensures Valid()
      ensures k >= old(|items|) ==>
                removed == None && items == old(items) && rowsToItems == old(rowsToItems) && focus == old(focus)
      ensures k < old(|items|) ==> removed == Some(old(items)[k])
      ensures k < old(|items|) ==> items == old(items)[..k] + old(items)[k + 1..]
      ensures k < old(|items|) ==> rowsToItems == RemoveRef(old(rowsToItems), k)
      ensures k < old(|items|) ==> focus == FocusAfterRemove(old(rowsToItems), old(focus), k)
      ensures hasOnSubmit == old(hasOnSubmit) && hasOnSelect == old(hasOnSelect)
    {
      if k >= |items| {
        return None;
      }
      var selected := Item();
      var rows := rowsToItems;
      var kept := RetainOthers(rows, k);
      var renumbered := RenumberAbove(kept, k);
      // the focus moves first in the source; the two loops only touch locals
      if selected == Some(k) {
        focus := Views.FocusUp(focus, 1);
      }
      RemoveRefPerm(rows, k, |items|);
      var rest := items[..k] + items[k + 1..];
      assert |rest| == |items| - 1;
      removed := Some(items[k]);
      items := rest;
      rowsToItems := renumbered;
      needsRelayout := true;
    }

    /** `take_items`: hand back all items; the list is left empty with focus on row 0. */
    method TakeItems() returns (taken: seq<StyledLine>)
      modifies this
      ensures Valid()
      ensures taken == old(items) && items == [] && rowsToItems == [] && focus == 0 && needsRelayout
      ensures hasOnSubmit == old(hasOnSubmit) && hasOnSelect == old(hasOnSelect)
    {
      SetSelectedRow(0);
      rowsToItems := [];
      needsRelayout := true;
      taken := items;
      items := [];
    }

    /** `on_submit_event`. */
    function OnSubmitEvent(): (r: EventResult)
      requires items != [] && focus < |rowsToItems|
      reads this
      ensures hasOnSubmit ==> r == Consumed(Some(Submit(focus, rowsToItems[focus])))
      ensures !hasOnSubmit ==> r == Ignored
    {
      if hasOnSubmit then Consumed(Some(Submit(Row().value, Item().value))) else Ignored
    }

    /** `on_focus_change`. */
    function OnFocusChange(): (r: EventResult)
      requires items != [] && focus < |rowsToItems|
      reads this
      ensures r.Consumed?
      ensures hasOnSelect <==> r.callback.Some?
      ensures hasOnSelect ==> r.callback.value == Select(focus, rowsToItems[focus])
    {
      Consumed(if hasOnSelect then Some(Select(Row().value, Item().value)) else None)
    }

    /** The focus changes of the key arms, reporting whether the arm went on past its guard. */
    method MoveFocus(key: Key) returns (handled: bool)
      requires key == PageDown ==> items != []
      modifies this
      ensures items == old(items) && rowsToItems == old(rowsToItems) && needsRelayout == old(needsRelayout)
      ensures hasOnSubmit == old(hasOnSubmit) && hasOnSelect == old(hasOnSelect)
      ensures var m := ListKeyMove(key, old(focus), |items|);
              handled == m.Some? && focus == if m.Some? then m.value else old(focus)
    {
      match key {
        case Left =>
          return false;
        case Right =>
          return false;
        case Up =>
          if focus > 0 {
            FocusUp(1);
          } else {
            return false;
          }
        case Down =>
          if focus + 1 < |items| {
            FocusDown(1);
          } else {
            return false;
          }
        case PageUp =>
          FocusUp(10);
        case PageDown =>
          FocusDown(10);
        case Home =>
          focus := 0;
        case End =>
          focus := if |items| >= 1 then |items| - 1 else 0;
        case Enter =>
        case Other =>
          return false;
      }
      return true;
    }

    /** The key arms of `on_inner_event`, proved to follow `ListKeyMove` and `ListKeyResult`. */
    method OnInnerKey(key: Key) returns (r: EventResult)
      requires Valid()
      requires ListKeySafe(key, focus, rowsToItems, |items|, hasOnSubmit)
      modifies this
      ensures items == old(items) && rowsToItems == old(rowsToItems) && needsRelayout == old(needsRelayout)
      ensures hasOnSubmit == old(hasOnSubmit) && hasOnSelect == old(hasOnSelect)
      ensures Valid()
      ensures r == ListKeyResult(key, old(focus), rowsToItems, |items|, hasOnSubmit, hasOnSelect)
      ensures var m := ListKeyMove(key, old(focus), |items|);
              focus == if m.Some? then m.value else old(focus)
    {
      var lastFocus := focus;
      if key == Enter && items != [] && hasOnSubmit {
        return OnSubmitEvent();
      }
      var handled := MoveFocus(key);
      if !handled {
        return Ignored;
      }
      if items != [] && lastFocus != focus {
        return OnFocusChange();
      }
      return Ignored;
    }
  }
}

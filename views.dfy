/**
 * What src/views/table_view.rs and src/views/list_view.rs share: the keys
 * their event handlers react to, what a handled event reports, and the
 * bookkeeping of `rows_to_items`, the map from display row to storage index,
 * with the focus cursor's arithmetic.
 */
module Views {
  import opened Wrappers

  /** The keys the handlers distinguish; `Other` is every other event. */
  datatype Key = Left | Right | Up | Down | PageUp | PageDown | Home | End | Enter | Other

  /** The callback an event hands back: submit or select, called with (row, storage index). */
  datatype Callback = Submit(row: nat, index: nat) | Select(row: nat, index: nat)

  /** cursive's `EventResult`, with the callback reduced to which one and its arguments. */
  datatype EventResult = Ignored | Consumed(callback: Option<Callback>)

  // ---------------------------------------------------------------------
  // rows_to_items
  // ---------------------------------------------------------------------

  predicate Bounded(rows: seq<nat>, n: nat) {
    forall i :: 0 <= i < |rows| ==> rows[i] < n
  }

  predicate Distinct(rows: seq<nat>) {
    forall i, j :: 0 <= i < j < |rows| ==> rows[i] != rows[j]
  }

  /** `rows` lists every storage index `0..n` exactly once. */
  predicate IsPerm(rows: seq<nat>, n: nat) {
    |rows| == n && Bounded(rows, n) && Distinct(rows) && forall v :: 0 <= v < n ==> v in rows
  }

  /** The row map `set_items` builds: row `i` shows item `i`. */
  function Identity(n: nat): (rows: seq<nat>)
    ensures |rows| == n
    ensures forall i :: 0 <= i < n ==> rows[i] == i
  {
    if n == 0 then [] else Identity(n - 1) + [n - 1]
  }

  /** `lo, lo + 1, .., hi - 1`: the storage indices of items appended one after the other. */
  function Range(lo: nat, hi: nat): (rows: seq<nat>)
    ensures |rows| == if hi >= lo then hi - lo else 0
    ensures forall i :: 0 <= i < |rows| ==> rows[i] == lo + i
    decreases hi
  {
    if hi <= lo then [] else Range(lo, hi - 1) + [hi - 1]
  }

  /** Appending items one by one extends the identity row map. */
  lemma IdentityAppend(n: nat, m: nat)
    requires n <= m
    ensures Identity(n) + Range(n, m) == Identity(m)
  {
    assert forall i :: 0 <= i < m ==> (Identity(n) + Range(n, m))[i] == i;
  }

  lemma IdentityIsPerm(n: nat)
    ensures IsPerm(Identity(n), n)
  {
    var rows := Identity(n);
    forall v | 0 <= v < n ensures v in rows {
      assert rows[v] == v;
    }
  }

  /** `insert_item_at`: the new item's storage index `n` goes in at row `index`. */
  function InsertRowAt(rows: seq<nat>, index: nat, n: nat): (r: seq<nat>)
    requires index <= |rows|
    ensures |r| == |rows| + 1 && r[index] == n
    ensures r[..index] == rows[..index] && r[index + 1..] == rows[index..]
  {
    rows[..index] + [n] + rows[index..]
  }

  /** Inserting the next storage index anywhere keeps a permutation, one longer. */
  lemma {:induction false} InsertRowAtPerm(rows: seq<nat>, index: nat, n: nat)
    requires IsPerm(rows, n) && index <= n
    ensures IsPerm(InsertRowAt(rows, index, n), n + 1)
  {
    var r := InsertRowAt(rows, index, n);
    assert forall i :: 0 <= i < |r| ==> r[i] == if i < index then rows[i] else if i == index then n else rows[i - 1];
    forall i, j | 0 <= i < j < |r| ensures r[i] != r[j] {
      if i != index && j != index {
        var i' := if i < index then i else i - 1;
        var j' := if j < index then j else j - 1;
        assert rows[i'] != rows[j'];
      }
    }
    forall v | 0 <= v < n + 1 ensures v in r {
      if v < n {
        assert v in rows;
        var k :| 0 <= k < |rows| && rows[k] == v;
        if k < index { assert r[k] == v; } else { assert r[k + 1] == v; }
      } else {
        assert r[index] == v;
      }
    }
  }

  /** `retain(|i| *i != k)`: the rows not showing item `k`, in order. */
  function Without(rows: seq<nat>, k: nat): (r: seq<nat>)
    ensures forall v :: v in r <==> v in rows && v != k
    ensures |r| <= |rows|
    decreases |rows|
  {
    if rows == [] then []
    else if rows[0] == k then Without(rows[1..], k)
    else [rows[0]] + Without(rows[1..], k)
  }

  lemma {:induction false} WithoutAppend(rows: seq<nat>, x: nat, k: nat)
    ensures Without(rows + [x], k) == Without(rows, k) + (if x == k then [] else [x])
    decreases |rows|
  {
    if rows == [] {
      assert [x][1..] == [];
    } else {
      assert (rows + [x])[0] == rows[0] && (rows + [x])[1..] == rows[1..] + [x];
      WithoutAppend(rows[1..], x, k);
    }
  }

  /** The retain loop's step: one more row of the prefix keeps or drops that row. */
  lemma WithoutPrefixes(rows: seq<nat>, k: nat)
    ensures forall i :: 0 <= i < |rows| ==>
              Without(rows[..i + 1], k) == Without(rows[..i], k) + (if rows[i] == k then [] else [rows[i]])
  {
    forall i | 0 <= i < |rows|
      ensures Without(rows[..i + 1], k) == Without(rows[..i], k) + (if rows[i] == k then [] else [rows[i]])
    {
      assert rows[..i + 1] == rows[..i] + [rows[i]];
      WithoutAppend(rows[..i], rows[i], k);
    }
  }

  /** The decrement loop: every reference above `k` moves down by one. */
  function DecrementAbove(rows: seq<nat>, k: nat): (r: seq<nat>)
    ensures |r| == |rows|
    ensures forall i :: 0 <= i < |rows| ==> r[i] == if rows[i] > k then rows[i] - 1 else rows[i]
    decreases |rows|
  {
    if rows == [] then []
    else [if rows[0] > k then rows[0] - 1 else rows[0]] + DecrementAbove(rows[1..], k)
  }

  /** The `retain(|i| *i != k)` loop of `remove_item`. */
  method RetainOthers(rows: seq<nat>, k: nat) returns (kept: seq<nat>)
    ensures kept == Without(rows, k)
  {
    kept := [];
    var i := 0;
    WithoutPrefixes(rows, k);
    while i < |rows|
      invariant 0 <= i <= |rows|
      invariant kept == Without(rows[..i], k)
    {
      if rows[i] != k {
        kept := kept + [rows[i]];
      }
      i := i + 1;
    }
    assert rows[..|rows|] == rows;
  }

  /** The loop of `remove_item` that renumbers the references above `k` in place. */
  method RenumberAbove(rows: seq<nat>, k: nat) returns (renumbered: seq<nat>)
    ensures renumbered == DecrementAbove(rows, k)
  {
    renumbered := rows;
    var j := 0;
    while j < |renumbered|
      invariant 0 <= j <= |renumbered| == |rows|
      invariant forall m :: 0 <= m < j ==> renumbered[m] == if rows[m] > k then rows[m] - 1 else rows[m]
      invariant forall m :: j <= m < |renumbered| ==> renumbered[m] == rows[m]
    {
      if renumbered[j] > k {
        renumbered := renumbered[j := renumbered[j] - 1];
      }
      j := j + 1;
    }
  }

  /** What `remove_item(k)` does to the row map. */
  function RemoveRef(rows: seq<nat>, k: nat): seq<nat> {
    DecrementAbove(Without(rows, k), k)
  }

  lemma {:induction false} WithoutDistinct(rows: seq<nat>, k: nat)
    requires Distinct(rows)
    ensures Distinct(Without(rows, k))
    ensures k in rows ==> |Without(rows, k)| == |rows| - 1
    ensures k !in rows ==> |Without(rows, k)| == |rows|
    decreases |rows|
  {
    if rows != [] {
      var tail := rows[1..];
      assert Distinct(tail) by {
        forall i, j | 0 <= i < j < |tail| ensures tail[i] != tail[j] {
          assert tail[i] == rows[i + 1] && tail[j] == rows[j + 1];
        }
      }
      WithoutDistinct(tail, k);
      assert rows[0] !in tail by {
        forall j | 0 <= j < |tail| ensures tail[j] != rows[0] {
          assert tail[j] == rows[j + 1];
        }
      }
      assert k in rows <==> rows[0] == k || k in tail;
      if rows[0] != k {
        var r := [rows[0]] + Without(tail, k);
        forall i, j | 0 <= i < j < |r| ensures r[i] != r[j] {
          if i == 0 {
            assert r[j] in Without(tail, k);
          } else {
            assert r[i] == Without(tail, k)[i - 1] && r[j] == Without(tail, k)[j - 1];
          }
        }
      }
    }
  }

  /**
   * Removing storage index `k` from a permutation of `0..n` and renumbering
   * the indices above it leaves a permutation of `0..n-1`.
   */
  lemma RemoveRefPerm(rows: seq<nat>, k: nat, n: nat)
    requires IsPerm(rows, n) && k < n
    ensures IsPerm(RemoveRef(rows, k), n - 1)
  {
    var w := Without(rows, k);
    WithoutDistinct(rows, k);
    var r := DecrementAbove(w, k);
    assert |r| == n - 1;
    forall i | 0 <= i < |r| ensures r[i] < n - 1 {
      assert w[i] in w;
    }
    forall i, j | 0 <= i < j < |r| ensures r[i] != r[j] {
      assert w[i] != w[j] && w[i] != k && w[j] != k by {
        assert w[i] in w && w[j] in w;
      }
    }
    forall v | 0 <= v < n - 1 ensures v in r {
      var u := if v < k then v else v + 1;
      assert u in rows && u != k;
      assert u in w;
      var i :| 0 <= i < |w| && w[i] == u;
      assert r[i] == v;
    }
  }

  /** The first row showing storage index `k`, as the `set_selected_item` loop finds it. */
  function RowOf(rows: seq<nat>, k: nat): (r: Option<nat>)
    ensures r.Some? ==> r.value < |rows| && rows[r.value] == k
    ensures r.Some? ==> forall i :: 0 <= i < r.value ==> rows[i] != k
    ensures r.None? <==> k !in rows
    decreases |rows|
  {
    if rows == [] then None
    else if rows[0] == k then Some(0)
    else match RowOf(rows[1..], k)
      case None => None
      case Some(i) => Some(i + 1)
  }

  /** In a permutation every storage index is shown on exactly one row. */
  lemma RowOfPerm(rows: seq<nat>, n: nat, k: nat)
    requires IsPerm(rows, n) && k < n
    ensures RowOf(rows, k).Some?
    ensures forall r :: 0 <= r < |rows| && rows[r] == k ==> r == RowOf(rows, k).value
  {
  }

  // ---------------------------------------------------------------------
  // The focus cursor
  // ---------------------------------------------------------------------

  /** `a.saturating_sub(b)` on `usize`. */
  function SaturatingSub(a: nat, b: nat): (r: nat)
    ensures a >= b ==> r == a - b
    ensures a < b ==> r == 0
  {
    if a >= b then a - b else 0
  }

  /** `focus_up(n)`: move up `n` rows, stopping at row 0. */
  function FocusUp(focus: nat, n: nat): (r: nat)
    ensures r <= focus
    ensures r == SaturatingSub(focus, n)
  {
    focus - (if focus < n then focus else n)
  }

  /** The table's `focus_down(n)`: move down `n` rows, clamped to the last row (0 when empty). */
  function FocusDown(focus: nat, n: nat, len: nat): (r: nat)
    ensures r <= SaturatingSub(len, 1)
    ensures focus + n <= SaturatingSub(len, 1) ==> r == focus + n
    ensures focus + n > SaturatingSub(len, 1) ==> r == SaturatingSub(len, 1)
  {
    var last := SaturatingSub(len, 1);
    if focus + n < last then focus + n else last
  }

  /** From a row in range, every focus move lands on a row in range. */
  lemma FocusMovesStayInRange(focus: nat, n: nat, len: nat)
    requires focus < len
    ensures FocusUp(focus, n) < len && FocusDown(focus, n, len) < len
  {
  }

  /** From a stale focus past the end, `focus_down` moves up to the last row. */
  lemma FocusDownPullsStaleFocusBack(focus: nat, n: nat, len: nat)
    requires len > 0 && focus >= len
    ensures FocusDown(focus, n, len) == len - 1 < focus
  {
  }

  /**
   * The focus `remove_item(k)` leaves: one row up when the focused row shows
   * item `k`, otherwise where it was. It is not clamped to the shorter row map.
   */
  function FocusAfterRemove(rows: seq<nat>, focus: nat, k: nat): (r: nat)
    ensures r <= focus
    ensures r < focus <==> 0 < focus < |rows| && rows[focus] == k
  {
    if focus < |rows| && rows[focus] == k then FocusUp(focus, 1) else focus
  }

  /**
   * From a focused row of a permutation, the focus left by removing item `k`
   * is still a row exactly when it was not on the last row, or the last row
   * showed `k` and had a row above it.
   */
  lemma FocusAfterRemoveInRange(rows: seq<nat>, n: nat, focus: nat, k: nat)
    requires IsPerm(rows, n) && focus < |rows| && k < n
    ensures FocusAfterRemove(rows, focus, k) < |RemoveRef(rows, k)| <==>
              focus + 1 < |rows| || (0 < focus && rows[focus] == k)
  {
    RemoveRefPerm(rows, k, n);
  }

  /**
   * Rows [0, 1] with the focus on row 1, removing item 0: one row is left
   * and the focus stays on row 1, past the end of the row map.
   */
  lemma RemoveStrandsFocus()
    ensures IsPerm([0, 1], 2)
    ensures RemoveRef([0, 1], 0) == [0] && FocusAfterRemove([0, 1], 1, 0) == 1
  {
    assert Without([0, 1], 0) == [1] by {
      assert Without([1], 0) == [1] by { assert [1][1..] == []; }
      assert [0, 1][1..] == [1];
    }
  }
}

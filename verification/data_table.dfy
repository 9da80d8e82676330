/**
 * The data table's state machine (src/components/DataTable.tsx, lines 21-86): the sort state,
 * the sorted view derived from it, and the selection of rows of that view. Rendering is left
 * out; each handler is one atomic transition that returns what it hands to `onRowSelect`.
 */
module DataTable {
  import opened Wrappers
  import opened TableValues
  import opened TableSort
  import opened TableSelection

  /** `{ key, direction }`: the field sorted on and the direction, both null when unsorted. */
  datatype SortState = SortState(key: Option<string>, direction: Option<Direction>)

  const Unsorted := SortState(None, None)

  /** The key is null exactly when the direction is. */
  predicate WellFormed(s: SortState)
  {
    s.key.None? <==> s.direction.None?
  }

  /** A column descriptor; only `dataIndex` and `sortable` matter to the state machine. */
  datatype Column = Column(key: string, title: string, dataIndex: string, sortable: bool)

  /** The updater of `toggleSort(key)`. */
  function NextSort(s: SortState, key: string): (r: SortState)
    ensures WellFormed(r)
    ensures r.key.Some? ==> r.key == Some(key)
    ensures r.key == Some(key) ==> s.key != r.key || s.direction == Some(Asc)
    ensures s.key != Some(key) ==> r == SortState(Some(key), Some(Asc))
    ensures r.direction == Some(Desc) ==> s == SortState(Some(key), Some(Asc))
    ensures s == SortState(Some(key), Some(Asc)) ==> r == SortState(Some(key), Some(Desc))
  {
    if s.key != Some(key) then SortState(Some(key), Some(Asc))
    else if s.direction == Some(Asc) then SortState(Some(key), Some(Desc))
    else Unsorted
  }

  /**
   * The sort is applied only when `sort.key` and `sort.direction` are both truthy; an empty
   * field name is falsy in JavaScript, so a column whose `dataIndex` is "" never sorts.
   */
  predicate Active(s: SortState)
  {
    s.key.Some? && s.key.value != "" && s.direction.Some?
  }

  /** `sorted`: the data itself when no sort is active, otherwise a sorted copy. */
  function SortedView(data: seq<Row>, s: SortState): (view: seq<Row>)
    ensures |view| == |data|
    ensures !Active(s) ==> view == data
  {
    if !Active(s) then data
    else SortRows(data, ComparatorFor(s.key.value, s.direction.value))
  }

  /** Per column the sort cycles none, ascending, descending, none. */
  lemma ToggleSortCycle(s: SortState, key: string)
    requires WellFormed(s)
    ensures s.key != Some(key) ==> NextSort(s, key) == SortState(Some(key), Some(Asc))
    ensures s == SortState(Some(key), Some(Asc)) ==> NextSort(s, key) == SortState(Some(key), Some(Desc))
    ensures s == SortState(Some(key), Some(Desc)) ==> NextSort(s, key) == Unsorted
  {
  }

  /**
   * Three clicks on one column restore the sort state exactly when that column was the sorted
   * one or nothing was sorted; three clicks from the initial state leave the data unsorted.
   */
  lemma ThreeTogglesRestore(s: SortState, key: string, data: seq<Row>)
    requires WellFormed(s)
    ensures NextSort(NextSort(NextSort(s, key), key), key) == s <==> s.key.None? || s.key == Some(key)
    ensures SortedView(data, NextSort(NextSort(NextSort(Unsorted, key), key), key)) == data
  {
    if s.key == Some(key) {
      assert s.direction.Some?;
      match s.direction.value
      case Asc =>
        assert NextSort(s, key) == SortState(Some(key), Some(Desc));
      case Desc =>
        assert NextSort(s, key) == Unsorted;
    } else if s.key.Some? {
      assert NextSort(NextSort(NextSort(s, key), key), key).key.None?;
    }
  }

  /** The view is a permutation of the data, which is never changed: the sort works on a copy. */
  lemma ViewIsPermutation(data: seq<Row>, s: SortState)
    ensures multiset(SortedView(data, s)) == multiset(data)
  {
    if Active(s) {
      SortRowsPermutes(data, ComparatorFor(s.key.value, s.direction.value));
    }
  }

  /** Rows with equal values in the sorted field keep their input order in the view. */
  lemma ViewIsStable(data: seq<Row>, s: SortState, v: Value)
    requires Active(s)
    ensures WithValue(SortedView(data, s), s.key.value, v) == WithValue(data, s.key.value, v)
  {
    ComparatorTiesOnEqual(s.key.value, s.direction.value);
    SortRowsStable(data, ComparatorFor(s.key.value, s.direction.value), s.key.value, v);
  }

  /**
   * On a column of one kind the view puts null fields first, and its present values are
   * non-decreasing when ascending and non-increasing when descending.
   */
  lemma ViewIsOrdered(data: seq<Row>, s: SortState)
    requires Active(s) && Homogeneous(data, s.key.value)
    ensures var view, key := SortedView(data, s), s.key.value;
      && (forall i, j :: 0 <= i < j < |view| && Field(view[j], key).Null? ==> Field(view[i], key).Null?)
      && (forall i, j :: 0 <= i < j < |view| && !Field(view[i], key).Null? && !Field(view[j], key).Null? ==>
            if s.direction == Some(Asc) then !ValueLess(Field(view[j], key), Field(view[i], key))
            else !ValueLess(Field(view[i], key), Field(view[j], key)))
  {
    var key, dir := s.key.value, s.direction.value;
    var strings := !OfKind(data, key, false);
    var cmp := ComparatorFor(key, dir);
    ComparatorIsPreorder(key, dir, strings);
    SortRowsOrdered(data, cmp, key, strings);
    var view := SortedView(data, s);
    forall i, j | 0 <= i < j < |view|
      ensures Field(view[j], key).Null? ==> Field(view[i], key).Null?
      ensures !Field(view[i], key).Null? && !Field(view[j], key).Null? ==>
        if dir == Asc then !ValueLess(Field(view[j], key), Field(view[i], key))
        else !ValueLess(Field(view[i], key), Field(view[j], key))
    {
      assert Compare(view[i], view[j], key, dir) <= 0;
      ValueLessTotalOrder(Field(view[i], key), Field(view[j], key), Field(view[j], key));
    }
  }

  /** Sorting the view again under the same sort state yields the same order. */
  lemma ViewIsIdempotent(data: seq<Row>, s: SortState)
    requires !Active(s) || Homogeneous(data, s.key.value)
    ensures SortedView(SortedView(data, s), s) == SortedView(data, s)
  {
    if Active(s) {
      var key, dir := s.key.value, s.direction.value;
      var strings := !OfKind(data, key, false);
      ComparatorIsPreorder(key, dir, strings);
      SortRowsIdempotent(data, ComparatorFor(key, dir), key, strings);
    }
  }

  /**
   * Sorting with the comparator as written gives exactly the specified view: it differs from the
   * corrected one only on two null fields, where neither asks to move a row.
   */
  lemma AsWrittenGivesView(data: seq<Row>, s: SortState)
    requires Active(s)
    ensures SortRows(data, AsWrittenFor(s.key.value, s.direction.value)) == SortedView(data, s)
  {
    var key, dir := s.key.value, s.direction.value;
    forall a, b ensures AsWrittenFor(key, dir)(a, b) > 0 <==> ComparatorFor(key, dir)(a, b) > 0 {
      GreaterAgrees(a, b, key, dir);
    }
    SortRowsAgree(data, AsWrittenFor(key, dir), ComparatorFor(key, dir));
  }

  /** One mounted table: its props `data` and `selectionMode`, and its state `sort` and `selected`. */
  class Table {
    const data: seq<Row>
    const mode: SelectionMode
    var sort: SortState
    var selected: seq<nat>

    /** The selection is a set of indices into the view; single mode holds at most one. */
    ghost predicate Valid()
      reads this
    {
      && WellFormed(sort)
      && Distinct(selected)
      && InRange(selected, |data|)
      && (mode == Single ==> |selected| <= 1)
    }

    /** The sorted view, recomputed from `data` and `sort` (the memoised `sorted`). */
    function View(): (view: seq<Row>)
      reads this
      ensures |view| == |data|
      ensures multiset(view) == multiset(data)
    {
      ViewIsPermutation(data, sort);
      SortedView(data, sort)
    }

    function Selection(): set<nat>
      reads this
    {
      Members(selected)
    }

    /** `allSelected`: every row of a non-empty view is selected. */
    function AllSelected(): (all: bool)
      reads this
      requires Valid()
      ensures all <==> |data| > 0 && Selection() == RangeSet(|data|)
    {
      FullSizeMeansEveryRow(selected, |data|);
      |selected| == |View()| && |View()| > 0
    }

    /** A freshly mounted table: nothing sorted, nothing selected. */
    constructor (data: seq<Row>, mode: SelectionMode)
      ensures Valid()
      ensures this.data == data && this.mode == mode
      ensures sort == Unsorted && selected == []
    {
      this.data := data;
      this.mode := mode;
      sort := Unsorted;
      selected := [];
    }

    /**
     * `sorted`, computed as the source does: the data itself, or a copy sorted in place with the
     * comparator as written.
     */
    method ComputeView() returns (view: seq<Row>)
      ensures view == View()
    {
      if !Active(sort) {
        return data;
      }
      var rows := data;
      var copy := new Row[|rows|](i requires 0 <= i < |rows| => rows[i]);
      assert copy[..] == rows;
      SortInPlace(copy, AsWrittenFor(sort.key.value, sort.direction.value));
      view := copy[..];
      AsWrittenGivesView(data, sort);
    }

    /** `toggleSort(key)`: advances the sort cycle; the selected indices stay as they are. */
    method ToggleSort(key: string)
      requires Valid()
      modifies this
      ensures Valid()
      ensures sort == NextSort(old(sort), key)
      ensures selected == old(selected)
    {
      sort := NextSort(sort, key);
    }

    /** A click on a column header sorts only a sortable column. */
    method ClickHeader(col: Column)
      requires Valid()
      modifies this
      ensures Valid()
      ensures sort == if col.sortable then NextSort(old(sort), col.dataIndex) else old(sort)
      ensures selected == old(selected)
    {
      if col.sortable {
        ToggleSort(col.dataIndex);
      }
    }

    /**
     * `handleRowToggle(idx)`: single mode selects exactly idx, multiple mode flips idx; the
     * callback gets the selected rows of the current view, in selection order.
     */
    method HandleRowToggle(idx: nat) returns (notified: seq<Row>)
      requires Valid() && idx < |data|
      modifies this
      ensures Valid()
      ensures sort == old(sort)
      ensures selected == RowToggled(old(selected), idx, mode)
      ensures mode == Single ==> Selection() == {idx}
      ensures mode == Multiple ==> Selection() == if idx in old(Selection()) then old(Selection()) - {idx} else old(Selection()) + {idx}
      ensures |notified| == |selected|
      ensures forall k :: 0 <= k < |selected| ==> notified[k] == View()[selected[k]]
    {
      var next := selected;
      if mode == Single {
        next := [];
        next := next + [idx];
      } else if idx in next {
        next := Without(next, idx);
      } else {
        next := next + [idx];
      }
      assert InRange(next, |data|) by {
        forall k | 0 <= k < |next| ensures next[k] < |data| {
          assert next[k] in next;
          assert next[k] == idx || next[k] in selected;
        }
      }
      notified := RowsAt(View(), next);
      selected := next;
    }

    /**
     * `toggleAll()`: ignored in single mode; in multiple mode clears a selection whose size is
     * the row count and otherwise selects every row, handing the callback the new selection's rows.
     */
    method ToggleAll() returns (notified: Option<seq<Row>>)
      requires Valid()
      modifies this
      ensures Valid()
      ensures sort == old(sort)
      ensures mode == Single ==> selected == old(selected) && notified == None
      ensures mode == Multiple ==> selected == AllToggled(old(selected), |data|)
      ensures mode == Multiple ==> notified == Some(RowsAt(View(), selected))
      ensures mode == Multiple && |old(selected)| == |data| ==> Selection() == {} && notified == Some([])
      ensures mode == Multiple && |old(selected)| != |data| ==> Selection() == RangeSet(|data|) && notified == Some(View())
    {
      if mode == Single {
        return None;
      }
      var view := View();
      if |selected| == |view| {
        selected := [];
        return Some([]);
      }
      selected := Range(|view|);
      RowsOfRange(view);
      notified := Some(view);
    }
  }

  /** A record with an `id` and an `age` field. */
  function Person(id: int, age: int): Row
  {
    map["id" := Num(id), "age" := Num(age)]
  }

  /**
   * Sorting three people by age: one click sorts ascending, the next descending, the third
   * restores the input order.
   */
  method AgeSortScenario() returns (asc: seq<Row>, desc: seq<Row>, unsorted: seq<Row>)
    ensures asc == [Person(2, 22), Person(3, 24), Person(1, 28)]
    ensures desc == [Person(1, 28), Person(3, 24), Person(2, 22)]
    ensures unsorted == [Person(1, 28), Person(2, 22), Person(3, 24)]
  {
    var p1, p2, p3 := Person(1, 28), Person(2, 22), Person(3, 24);
    var t := new Table([p1, p2, p3], Multiple);
    t.ToggleSort("age");
    AgesSorted();
    asc := t.ComputeView();
    t.ToggleSort("age");
    desc := t.ComputeView();
    t.ToggleSort("age");
    unsorted := t.ComputeView();
  }

  /** The sorts behind AgeSortScenario, step by step. */
  lemma AgesSorted()
    ensures SortRows([Person(1, 28), Person(2, 22), Person(3, 24)], ComparatorFor("age", Asc))
         == [Person(2, 22), Person(3, 24), Person(1, 28)]
    ensures SortRows([Person(1, 28), Person(2, 22), Person(3, 24)], ComparatorFor("age", Desc))
         == [Person(1, 28), Person(3, 24), Person(2, 22)]
  {
    var p1, p2, p3 := Person(1, 28), Person(2, 22), Person(3, 24);
    var cmp := ComparatorFor("age", Asc);
    assert cmp(p1, p2) > 0 && cmp(p2, p3) < 0 && cmp(p1, p3) > 0;
    assert [p1, p2, p3][..2] == [p1, p2] && [p1, p2][..1] == [p1] && [p1][..0] == [];
    assert SortRows([p1], cmp) == [p1];
    assert InsertLast([p1], p2, cmp) == [p2, p1];
    assert [p2, p1][..1] == [p2];
    assert InsertLast([p2], p3, cmp) == [p2, p3];
    assert InsertLast([p2, p1], p3, cmp) == [p2, p3, p1];
    cmp := ComparatorFor("age", Desc);
    assert cmp(p1, p2) < 0 && cmp(p2, p3) > 0 && cmp(p1, p3) < 0;
    assert SortRows([p1], cmp) == [p1];
    assert InsertLast([p1], p2, cmp) == [p1, p2];
    assert InsertLast([p1], p3, cmp) == [p1, p3];
    assert InsertLast([p1, p2], p3, cmp) == [p1, p3, p2];
  }

  /**
   * Multiple mode with three rows: selecting rows 0 and 2 and then toggling all selects every
   * row; toggling all again clears the selection.
   */
  method SelectAllScenario(rows: seq<Row>) returns (all: set<nat>, cleared: set<nat>, allRows: Option<seq<Row>>)
    requires |rows| == 3
    ensures all == {0, 1, 2} && allRows == Some(rows)
    ensures cleared == {}
  {
    SelectionSteps();
    var t := new Table(rows, Multiple);
    var _ := t.HandleRowToggle(0);
    var _ := t.HandleRowToggle(2);
    allRows := t.ToggleAll();
    all := t.Selection();
    var _ := t.ToggleAll();
    cleared := t.Selection();
  }

  /** The selections behind SelectAllScenario, step by step. */
  lemma SelectionSteps()
    ensures RowToggled([], 0, Multiple) == [0]
    ensures RowToggled([0], 2, Multiple) == [0, 2]
    ensures Members(AllToggled([0, 2], 3)) == {0, 1, 2}
    ensures |AllToggled([0, 2], 3)| == 3 && AllToggled(AllToggled([0, 2], 3), 3) == []
  {
    assert Members(AllToggled([0, 2], 3)) == RangeSet(3);
    assert forall i :: i in RangeSet(3) <==> i in {0, 1, 2};
  }
}

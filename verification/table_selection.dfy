/**
 * The table's row selection (src/components/DataTable.tsx, lines 33, 60-86): a JavaScript `Set`
 * of indices into the sorted view. A `Set` iterates in insertion order, so it is modelled as a
 * sequence without duplicates; the updaters handed to `setSelected` are pure functions from the
 * previous selection to the next one.
 */
module TableSelection {
  import opened TableValues

  datatype SelectionMode = Single | Multiple

  /** The indices in a selection, forgetting their insertion order. */
  function Members(s: seq<nat>): (m: set<nat>)
    ensures forall i :: i in m <==> i in s
  {
    set i | i in s
  }

  predicate Distinct(s: seq<nat>)
  {
    forall i, j :: 0 <= i < j < |s| ==> s[i] != s[j]
  }

  /** Every index refers to one of n rows. */
  predicate InRange(s: seq<nat>, n: nat)
  {
    forall i :: 0 <= i < |s| ==> s[i] < n
  }

  /** The indices 0 .. n-1, in order: `sorted.map((_, i) => i)`. */
  function Range(n: nat): (r: seq<nat>)
    ensures |r| == n
    ensures forall i :: 0 <= i < n ==> r[i] == i
    ensures forall i :: i in r <==> 0 <= i < n
  {
    if n == 0 then [] else Range(n - 1) + [n - 1]
  }

  /** The set of all indices of a view of n rows. */
  function RangeSet(n: nat): (m: set<nat>)
    ensures forall i :: i in m <==> 0 <= i < n
  {
    Members(Range(n))
  }

  /** `Set.prototype.delete`: x leaves the selection, the others keep their order. */
  function Without(s: seq<nat>, x: nat): (r: seq<nat>)
    ensures Members(r) == Members(s) - {x}
    ensures Distinct(s) ==> Distinct(r)
    ensures x !in s ==> r == s
  {
    if s == [] then []
    else if s[0] == x then Without(s[1..], x)
    else
      var rest := Without(s[1..], x);
      assert Distinct(s) ==> s[0] !in Members(rest) by {
        if Distinct(s) {
          assert s[0] !in s[1..];
        }
      }
      [s[0]] + rest
  }

  /** Deleting an index that occurs once, at position p, removes exactly that position. */
  lemma {:induction false} WithoutAt(s: seq<nat>, x: nat, p: nat)
    requires p < |s| && s[p] == x
    requires forall k :: 0 <= k < |s| && k != p ==> s[k] != x
    ensures Without(s, x) == s[..p] + s[p + 1..]
  {
    var tail := s[1..];
    if p > 0 {
      assert s[0] != x;
      forall k | 0 <= k < |tail| && k != p - 1 ensures tail[k] != x {
        assert tail[k] == s[k + 1];
      }
      WithoutAt(tail, x, p - 1);
      assert s[..p] == [s[0]] + tail[..p - 1];
      assert s[p + 1..] == tail[p..];
    } else {
      assert x !in tail by {
        forall k | 0 <= k < |tail| ensures tail[k] != x {
          assert tail[k] == s[k + 1];
        }
      }
    }
  }

  /** The updater of `handleRowToggle(idx)`. */
  function RowToggled(prev: seq<nat>, idx: nat, mode: SelectionMode): (next: seq<nat>)
    ensures mode == Single ==> Members(next) == {idx} && |next| == 1
    ensures mode == Multiple ==> (idx in next <==> idx !in prev)
    ensures mode == Multiple ==> forall j :: j != idx ==> (j in next <==> j in prev)
    ensures mode == Multiple && idx !in prev ==> next == prev + [idx]
    ensures Distinct(prev) ==> Distinct(next)
  {
    if mode == Single then [idx]
    else if idx in prev then Without(prev, idx)
    else prev + [idx]
  }

  /** The updater of `toggleAll` in multiple mode, for a view of n rows. */
  function AllToggled(prev: seq<nat>, n: nat): (next: seq<nat>)
    ensures |prev| == n ==> next == []
    ensures |prev| != n ==> Members(next) == RangeSet(n) && Distinct(next) && |next| == n
    ensures |prev| != n ==> next == Range(n)
  {
    if |prev| == n then [] else Range(n)
  }

  /** `Array.from(next).map(i => sorted[i])`: the rows a selection denotes, in insertion order. */
  function RowsAt(view: seq<Row>, sel: seq<nat>): (rows: seq<Row>)
    requires InRange(sel, |view|)
    ensures |rows| == |sel|
    ensures forall k :: 0 <= k < |sel| ==> rows[k] == view[sel[k]]
  {
    if sel == [] then [] else [view[sel[0]]] + RowsAt(view, sel[1..])
  }

  /** Selecting every index of the view denotes the whole view, in order. */
  lemma RowsOfRange(view: seq<Row>)
    ensures InRange(Range(|view|), |view|)
    ensures RowsAt(view, Range(|view|)) == view
  {
  }

  lemma {:induction false} DistinctSize(s: seq<nat>)
    requires Distinct(s)
    ensures |Members(s)| == |s|
  {
    if s != [] {
      DistinctSize(s[1..]);
      assert Members(s) == Members(s[1..]) + {s[0]};
      assert s[0] !in Members(s[1..]);
    }
  }

  lemma RangeSetSize(n: nat)
    ensures |RangeSet(n)| == n
  {
    DistinctSize(Range(n));
  }

  lemma {:induction false} SubsetOfSameSize(a: set<nat>, b: set<nat>)
    requires a <= b && |a| == |b|
    ensures a == b
  {
    if a != b {
      assert b - a != {} by {
        if b - a == {} {
          forall y | y in b ensures y in a {
            assert y !in b - a;
          }
        }
      }
      var x :| x in b - a;
      assert a <= b - {x};
      assert |b - {x}| == |b| - 1;
      SubsetCard(a, b - {x});
    }
  }

  lemma {:induction false} SubsetCard(a: set<nat>, b: set<nat>)
    requires a <= b
    ensures |a| <= |b|
    decreases b
  {
    if a != {} {
      var x :| x in a;
      SubsetCard(a - {x}, b - {x});
    }
  }

  /**
   * For a selection of distinct in-range indices, "its size equals the row count" (the test
   * `allSelected` and `toggleAll` make) means every row is selected.
   */
  lemma FullSizeMeansEveryRow(sel: seq<nat>, n: nat)
    requires Distinct(sel) && InRange(sel, n)
    ensures |sel| == n <==> Members(sel) == RangeSet(n)
  {
    DistinctSize(sel);
    RangeSetSize(n);
    assert Members(sel) <= RangeSet(n);
    if |sel| == n {
      SubsetOfSameSize(Members(sel), RangeSet(n));
    }
  }

  /** In multiple mode, toggling the same row twice restores the selected set. */
  lemma ToggleRowTwice(prev: seq<nat>, idx: nat)
    requires Distinct(prev)
    ensures Members(RowToggled(RowToggled(prev, idx, Multiple), idx, Multiple)) == Members(prev)
    ensures idx !in prev ==> RowToggled(RowToggled(prev, idx, Multiple), idx, Multiple) == prev
  {
    var once := RowToggled(prev, idx, Multiple);
    var twice := RowToggled(once, idx, Multiple);
    if idx !in prev {
      assert once == prev + [idx];
      WithoutAt(once, idx, |prev|);
      assert once[..|prev|] == prev && once[|prev| + 1..] == [];
    }
  }

  /** In single mode, selecting b after a leaves exactly b selected, never both. */
  lemma SingleReplaces(prev: seq<nat>, a: nat, b: nat)
    ensures RowToggled(RowToggled(prev, a, Single), b, Single) == [b]
  {
  }

  /** toggleAll twice restores the selected set exactly when it started empty or full. */
  lemma ToggleAllTwice(prev: seq<nat>, n: nat)
    requires Distinct(prev) && InRange(prev, n)
    ensures Members(AllToggled(AllToggled(prev, n), n)) == Members(prev) <==> (prev == [] || |prev| == n)
  {
    FullSizeMeansEveryRow(prev, n);
    var once := AllToggled(prev, n);
    if |prev| != n {
      assert |once| == n;
      assert AllToggled(once, n) == [];
      if prev != [] {
        assert prev[0] in Members(prev);
      }
    } else if n > 0 {
      assert once == [];
    }
  }

  /** From a partial selection, two calls of toggleAll end with nothing selected. */
  lemma ToggleAllFromPartial(prev: seq<nat>, n: nat)
    requires |prev| != n
    ensures AllToggled(AllToggled(prev, n), n) == []
  {
  }
}

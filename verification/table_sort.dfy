/**
 * The sort behind the table's sorted view (src/components/DataTable.tsx, lines 36-47): a copy of
 * the data is sorted in place by `Array.prototype.sort` with a comparator. That sort is stable;
 * the model uses a stable insertion sort, given as a function (SortRows) and as the in-place
 * algorithm on an array (SortInPlace), proved to agree. Both take the comparator as a function
 * value, as `sort` does; what the table's comparator guarantees is proved in TableValues.
 */
module TableSort {
  import opened TableValues

  /** A three-way comparator: positive moves a after b, anything else keeps a before b. */
  type Comparator<-T> = (T, T) -> int

  /** Insert x into t, moving it left past every row that must come after it. */
  function InsertLast<T>(t: seq<T>, x: T, cmp: Comparator<T>): (r: seq<T>)
    ensures |r| == |t| + 1
  {
    if |t| == 0 then [x]
    else if cmp(t[|t| - 1], x) > 0 then InsertLast(t[..|t| - 1], x, cmp) + [t[|t| - 1]]
    else t + [x]
  }

  /** The rows stably sorted by cmp. */
  function SortRows<T>(s: seq<T>, cmp: Comparator<T>): (r: seq<T>)
    ensures |r| == |s|
  {
    if |s| == 0 then []
    else InsertLast(SortRows(s[..|s| - 1], cmp), s[|s| - 1], cmp)
  }

  lemma {:induction false} InsertLastPermutes<T>(t: seq<T>, x: T, cmp: Comparator<T>)
    ensures multiset(InsertLast(t, x, cmp)) == multiset(t) + multiset{x}
  {
    if |t| != 0 && cmp(t[|t| - 1], x) > 0 {
      var n := |t| - 1;
      assert t == t[..n] + [t[n]];
      InsertLastPermutes(t[..n], x, cmp);
    }
  }

  /** The sorted rows are a permutation of the input rows. */
  lemma {:induction false} SortRowsPermutes<T>(s: seq<T>, cmp: Comparator<T>)
    ensures multiset(SortRows(s, cmp)) == multiset(s)
  {
    if |s| != 0 {
      var n := |s| - 1;
      assert s == s[..n] + [s[n]];
      SortRowsPermutes(s[..n], cmp);
      InsertLastPermutes(SortRows(s[..n], cmp), s[n], cmp);
    }
  }

  /** Every pair of rows is in comparator order. */
  predicate Ordered<T>(s: seq<T>, cmp: Comparator<T>)
  {
    forall i, j :: 0 <= i < j < |s| ==> cmp(s[i], s[j]) <= 0
  }

  /** Every field `key` in s is null or, as `strings` says, a string or a number. */
  predicate OfKind(s: seq<Row>, key: string, strings: bool)
  {
    forall i :: 0 <= i < |s| ==> Fits(Field(s[i], key), strings)
  }

  predicate Fits(v: Value, strings: bool)
  {
    v.Null? || (if strings then v.Str? else v.Num?)
  }

  /** The column `key` holds no mix of numbers and strings (nulls may appear anywhere). */
  predicate Homogeneous(s: seq<Row>, key: string)
  {
    OfKind(s, key, false) || OfKind(s, key, true)
  }

  /**
   * On the rows whose field `key` fits the kind, cmp is a total preorder: of two rows at least
   * one may precede the other, and "may precede" is transitive.
   */
  ghost predicate PreorderOn(cmp: Comparator<Row>, key: string, strings: bool)
  {
    && (forall a, b :: Fits(Field(a, key), strings) && Fits(Field(b, key), strings) && cmp(a, b) > 0 ==>
          cmp(b, a) <= 0)
    && (forall a, b, c {:trigger cmp(a, b), cmp(b, c)} ::
          (&& Fits(Field(a, key), strings) && Fits(Field(b, key), strings) && Fits(Field(c, key), strings)
           && cmp(a, b) <= 0 && cmp(b, c) <= 0) ==> cmp(a, c) <= 0)
  }

  /** The table's comparator is a total preorder on a column of one kind. */
  lemma ComparatorIsPreorder(key: string, dir: Direction, strings: bool)
    ensures PreorderOn(ComparatorFor(key, dir), key, strings)
  {
    var cmp := ComparatorFor(key, dir);
    forall a, b | Fits(Field(a, key), strings) && Fits(Field(b, key), strings) && cmp(a, b) > 0
      ensures cmp(b, a) <= 0
    {
      CompareAntisymmetric(a, b, key, dir);
    }
    forall a, b, c | Fits(Field(a, key), strings) && Fits(Field(b, key), strings) && Fits(Field(c, key), strings) &&
        cmp(a, b) <= 0 && cmp(b, c) <= 0
      ensures cmp(a, c) <= 0
    {
      CompareTransitive(a, b, c, key, dir);
    }
  }

  /** Every row of s may precede z. */
  predicate AllBefore<T>(s: seq<T>, z: T, cmp: Comparator<T>)
  {
    forall i :: 0 <= i < |s| ==> cmp(s[i], z) <= 0
  }

  lemma {:induction false} InsertLastAllBefore<T>(t: seq<T>, x: T, z: T, cmp: Comparator<T>)
    requires AllBefore(t, z, cmp) && cmp(x, z) <= 0
    ensures AllBefore(InsertLast(t, x, cmp), z, cmp)
  {
    if |t| != 0 && cmp(t[|t| - 1], x) > 0 {
      InsertLastAllBefore(t[..|t| - 1], x, z, cmp);
    }
  }

  lemma {:induction false} InsertLastOfKind(t: seq<Row>, x: Row, cmp: Comparator<Row>, key: string, strings: bool)
    requires OfKind(t, key, strings) && Fits(Field(x, key), strings)
    ensures OfKind(InsertLast(t, x, cmp), key, strings)
  {
    if t != [] && cmp(t[|t| - 1], x) > 0 {
      InsertLastOfKind(t[..|t| - 1], x, cmp, key, strings);
    }
  }

  lemma OrderedSnoc<T>(s: seq<T>, z: T, cmp: Comparator<T>)
    requires Ordered(s, cmp) && AllBefore(s, z, cmp)
    ensures Ordered(s + [z], cmp)
  {
    var r := s + [z];
    forall i, j | 0 <= i < j < |r| ensures cmp(r[i], r[j]) <= 0 {
      if j < |s| {
        assert r[i] == s[i] && r[j] == s[j];
      } else {
        assert r[i] == s[i] && r[j] == z;
      }
    }
  }

  /** Two comparators that ask to move the same pairs, whatever else they return. */
  ghost predicate SameSwaps<T(!new)>(c1: Comparator<T>, c2: Comparator<T>)
  {
    forall a, b :: c1(a, b) > 0 <==> c2(a, b) > 0
  }

  lemma {:induction false} InsertLastAgree<T(!new)>(t: seq<T>, x: T, c1: Comparator<T>, c2: Comparator<T>)
    requires SameSwaps(c1, c2)
    ensures InsertLast(t, x, c1) == InsertLast(t, x, c2)
  {
    if |t| != 0 {
      InsertLastAgree(t[..|t| - 1], x, c1, c2);
    }
  }

  /** The sort only asks whether a pair must be moved, so comparators that agree on that sort alike. */
  lemma {:induction false} SortRowsAgree<T(!new)>(s: seq<T>, c1: Comparator<T>, c2: Comparator<T>)
    requires SameSwaps(c1, c2)
    ensures SortRows(s, c1) == SortRows(s, c2)
  {
    if |s| != 0 {
      var n := |s| - 1;
      SortRowsAgree(s[..n], c1, c2);
      InsertLastAgree(SortRows(s[..n], c1), s[n], c1, c2);
    }
  }

  /** Dropping the last row keeps rows in order, and each of them may precede the dropped row. */
  lemma OrderedInit<T>(t: seq<T>, cmp: Comparator<T>)
    requires Ordered(t, cmp) && |t| != 0
    ensures Ordered(t[..|t| - 1], cmp) && AllBefore(t[..|t| - 1], t[|t| - 1], cmp)
  {
    var init := t[..|t| - 1];
    forall i, j | 0 <= i < j < |init| ensures cmp(init[i], init[j]) <= 0 {
      assert init[i] == t[i] && init[j] == t[j];
    }
    forall i | 0 <= i < |init| ensures cmp(init[i], t[|t| - 1]) <= 0 {
      assert init[i] == t[i];
    }
  }

  lemma OfKindPrefix(t: seq<Row>, n: nat, key: string, strings: bool)
    requires OfKind(t, key, strings) && n <= |t|
    ensures OfKind(t[..n], key, strings)
  {
    forall i | 0 <= i < n ensures Fits(Field(t[..n][i], key), strings) {
      assert t[..n][i] == t[i];
    }
  }

  /** If the last of some ordered rows may precede x, all of them may. */
  lemma AllBeforeByLast(t: seq<Row>, x: Row, cmp: Comparator<Row>, key: string, strings: bool)
    requires PreorderOn(cmp, key, strings)
    requires Ordered(t, cmp) && OfKind(t, key, strings) && Fits(Field(x, key), strings)
    requires t != [] && cmp(t[|t| - 1], x) <= 0
    ensures AllBefore(t, x, cmp)
  {
    var last := t[|t| - 1];
    assert Fits(Field(last, key), strings);
    forall i | 0 <= i < |t| ensures cmp(t[i], x) <= 0 {
      if i < |t| - 1 {
        assert Fits(Field(t[i], key), strings);
        assert cmp(t[i], last) <= 0;
      }
    }
  }

  lemma {:induction false} InsertLastOrdered(t: seq<Row>, x: Row, cmp: Comparator<Row>, key: string, strings: bool)
    requires PreorderOn(cmp, key, strings)
    requires Ordered(t, cmp) && OfKind(t, key, strings) && Fits(Field(x, key), strings)
    ensures Ordered(InsertLast(t, x, cmp), cmp)
  {
    if t == [] {
      return;
    }
    var n := |t| - 1;
    var last, init := t[n], t[..n];
    if cmp(last, x) > 0 {
      OrderedInit(t, cmp);
      OfKindPrefix(t, n, key, strings);
      InsertLastOrdered(init, x, cmp, key, strings);
      InsertLastAllBefore(init, x, last, cmp);
      assert InsertLast(t, x, cmp) == InsertLast(init, x, cmp) + [last];
      OrderedSnoc(InsertLast(init, x, cmp), last, cmp);
    } else {
      AllBeforeByLast(t, x, cmp, key, strings);
      OrderedSnoc(t, x, cmp);
    }
  }

  /** Under a total preorder, the sorted rows are in comparator order. */
  lemma {:induction false} SortRowsOrdered(s: seq<Row>, cmp: Comparator<Row>, key: string, strings: bool)
    requires PreorderOn(cmp, key, strings) && OfKind(s, key, strings)
    ensures Ordered(SortRows(s, cmp), cmp)
    ensures OfKind(SortRows(s, cmp), key, strings)
  {
    if s != [] {
      var n := |s| - 1;
      OfKindPrefix(s, n, key, strings);
      assert Fits(Field(s[n], key), strings);
      SortRowsOrdered(s[..n], cmp, key, strings);
      InsertLastOrdered(SortRows(s[..n], cmp), s[n], cmp, key, strings);
      InsertLastOfKind(SortRows(s[..n], cmp), s[n], cmp, key, strings);
    }
  }

  /** The rows whose field `key` equals v, in their order in s. */
  function WithValue(s: seq<Row>, key: string, v: Value): seq<Row>
  {
    if s == [] then []
    else WithValue(s[..|s| - 1], key, v) + (if Field(s[|s| - 1], key) == v then [s[|s| - 1]] else [])
  }

  /** Filtering an extended sequence filters the prefix and then the new row. */
  lemma WithValueSnoc(s: seq<Row>, x: Row, key: string, v: Value)
    ensures WithValue(s + [x], key, v) == WithValue(s, key, v) + (if Field(x, key) == v then [x] else [])
  {
    assert (s + [x])[..|s|] == s;
  }

  /** cmp never moves a row past another with the same field `key`. */
  ghost predicate TiesOnEqual(cmp: Comparator<Row>, key: string)
  {
    forall a, b :: Field(a, key) == Field(b, key) ==> cmp(a, b) == 0
  }

  lemma ComparatorTiesOnEqual(key: string, dir: Direction)
    ensures TiesOnEqual(ComparatorFor(key, dir), key)
  {
    forall a, b | Field(a, key) == Field(b, key) ensures Compare(a, b, key, dir) == 0 {
      EqualFieldsTie(a, b, key, dir);
    }
  }

  lemma {:induction false} InsertLastStable(t: seq<Row>, x: Row, cmp: Comparator<Row>, key: string, v: Value)
    requires TiesOnEqual(cmp, key)
    ensures WithValue(InsertLast(t, x, cmp), key, v) == WithValue(t + [x], key, v)
  {
    if t != [] {
      var n := |t| - 1;
      var last, init := t[n], t[..n];
      assert t == init + [last];
      if cmp(last, x) > 0 {
        var ins := InsertLast(init, x, cmp);
        InsertLastStable(init, x, cmp, key, v);
        WithValueSnoc(ins, last, key, v);
        WithValueSnoc(init, x, key, v);
        WithValueSnoc(init, last, key, v);
        WithValueSnoc(t, x, key, v);
      }
    }
  }

  /** Stability: the rows sharing any one field value keep their input order. */
  lemma {:induction false} SortRowsStable(s: seq<Row>, cmp: Comparator<Row>, key: string, v: Value)
    requires TiesOnEqual(cmp, key)
    ensures WithValue(SortRows(s, cmp), key, v) == WithValue(s, key, v)
  {
    if s != [] {
      var n := |s| - 1;
      assert s == s[..n] + [s[n]];
      SortRowsStable(s[..n], cmp, key, v);
      InsertLastStable(SortRows(s[..n], cmp), s[n], cmp, key, v);
      WithValueSnoc(SortRows(s[..n], cmp), s[n], key, v);
      WithValueSnoc(s[..n], s[n], key, v);
    }
  }

  /** Sorting rows that are already in order changes nothing. */
  lemma {:induction false} OrderedIsFixed<T>(s: seq<T>, cmp: Comparator<T>)
    requires Ordered(s, cmp)
    ensures SortRows(s, cmp) == s
  {
    if |s| != 0 {
      var n := |s| - 1;
      var init := s[..n];
      OrderedInit(s, cmp);
      OrderedIsFixed(init, cmp);
      assert SortRows(s, cmp) == InsertLast(init, s[n], cmp);
      assert n > 0 ==> cmp(init[n - 1], s[n]) <= 0;
      assert init + [s[n]] == s;
    }
  }

  /** Sorting the sorted rows again yields the same order. */
  lemma SortRowsIdempotent(s: seq<Row>, cmp: Comparator<Row>, key: string, strings: bool)
    requires PreorderOn(cmp, key, strings) && OfKind(s, key, strings)
    ensures SortRows(SortRows(s, cmp), cmp) == SortRows(s, cmp)
  {
    SortRowsOrdered(s, cmp, key, strings);
    OrderedIsFixed(SortRows(s, cmp), cmp);
  }

  /** x belongs at position j of t: the row before j may precede it and every row from j on must follow it. */
  predicate LandsAt<T>(t: seq<T>, x: T, j: nat, cmp: Comparator<T>)
  {
    && j <= |t|
    && (j == 0 || cmp(t[j - 1], x) <= 0)
    && (forall k :: j <= k < |t| ==> cmp(t[k], x) > 0)
  }

  lemma {:induction false} InsertLastAt<T>(t: seq<T>, x: T, j: nat, cmp: Comparator<T>)
    requires LandsAt(t, x, j, cmp)
    ensures InsertLast(t, x, cmp) == t[..j] + [x] + t[j..]
    decreases |t|
  {
    if j < |t| {
      var n := |t| - 1;
      var init := t[..n];
      assert cmp(t[n], x) > 0;
      assert InsertLast(t, x, cmp) == InsertLast(init, x, cmp) + [t[n]];
      assert LandsAt(init, x, j, cmp) by {
        assert j == 0 || init[j - 1] == t[j - 1];
        forall k | j <= k < |init| ensures cmp(init[k], x) > 0 {
          assert init[k] == t[k];
        }
      }
      InsertLastAt(init, x, j, cmp);
      assert init[..j] == t[..j];
      assert t[j..] == init[j..] + [t[n]];
    } else {
      assert t[..j] == t;
      assert j == 0 || cmp(t[|t| - 1], x) <= 0;
    }
  }

  /**
   * The inner loop of the in-place sort: shifts one place right every row of the sorted prefix
   * t == a[..i], from the right, that must follow x, and returns the gap left for x.
   */
  method ShiftGreater<T>(a: array<T>, i: nat, x: T, cmp: Comparator<T>, ghost t: seq<T>) returns (j: nat)
    requires i < a.Length && t == a[..i]
    modifies a
    ensures LandsAt(t, x, j, cmp)
    ensures forall k :: 0 <= k < j ==> a[k] == t[k]
    ensures forall k :: j < k <= i ==> a[k] == t[k - 1]
    ensures forall k :: i < k < a.Length ==> a[k] == old(a[k])
  {
    j := i;
    while j > 0 && cmp(a[j - 1], x) > 0
      invariant j <= i
      invariant forall k :: 0 <= k < j ==> a[k] == t[k]
      invariant forall k :: j < k <= i ==> a[k] == t[k - 1]
      invariant forall k :: i < k < a.Length ==> a[k] == old(a[k])
      invariant forall k :: j <= k < |t| ==> cmp(t[k], x) > 0
    {
      assert a[j - 1] == t[j - 1];
      a[j] := a[j - 1];
      j := j - 1;
    }
    assert j == 0 || a[j - 1] == t[j - 1];
  }

  /** One step of the in-place sort: a[i] moves left into the sorted prefix a[..i]. */
  method InsertAt<T>(a: array<T>, i: nat, cmp: Comparator<T>)
    requires i < a.Length
    modifies a
    ensures a[..i + 1] == InsertLast(old(a[..i]), old(a[i]), cmp)
    ensures a[i + 1..] == old(a[i + 1..])
  {
    ghost var t := a[..i];
    var x := a[i];
    var j := ShiftGreater(a, i, x, cmp, t);
    a[j] := x;
    InsertLastAt(t, x, j, cmp);
    assert a[..j] == t[..j];
    assert a[j + 1..i + 1] == t[j..];
    assert a[..i + 1] == a[..j] + [x] + a[j + 1..i + 1];
    assert a[i + 1..] == old(a[i + 1..]);
  }

  /** Sorting one more row of s inserts that row into the sorted shorter prefix. */
  lemma SortRowsPrefix<T>(s: seq<T>, k: nat, cmp: Comparator<T>)
    requires k < |s|
    ensures SortRows(s[..k + 1], cmp) == InsertLast(SortRows(s[..k], cmp), s[k], cmp)
  {
    assert s[..k + 1][..k] == s[..k];
  }

  /** `copy.sort(cmp)`: sorts the array in place, stably. */
  method SortInPlace<T>(a: array<T>, cmp: Comparator<T>)
    modifies a
    ensures a[..] == SortRows(old(a[..]), cmp)
  {
    ghost var orig := a[..];
    var i := 0;
    while i < a.Length
      invariant 0 <= i <= a.Length
      invariant a[..i] == SortRows(orig[..i], cmp)
      invariant a[i..] == orig[i..]
    {
      ghost var before := a[..];
      assert before[i] == before[i..][0] == orig[i];
      InsertAt(a, i, cmp);
      SortRowsPrefix(orig, i, cmp);
      assert a[i + 1..] == before[i + 1..] == orig[i + 1..];
      i := i + 1;
    }
    assert orig[..a.Length] == orig;
  }
}

/**
 * Cell values of the data table and the comparator that the sorted view is built with
 * (src/components/DataTable.tsx, lines 38-46).
 */
module TableValues {

  /** A cell value: JavaScript `null`/`undefined`, a number or a string. */
  datatype Value = Null | Num(n: int) | Str(s: string)

  /** A record maps field names to cell values. */
  type Row = map<string, Value>

  datatype Direction = Asc | Desc

  /** `row[key]`: a field the record does not have reads as `undefined`, i.e. as Null. */
  function Field(row: Row, key: string): (v: Value)
    ensures key in row ==> v == row[key]
    ensures key !in row ==> v.Null?
  {
    if key in row then row[key] else Null
  }

  /** JavaScript's `<` on two strings: lexicographic order of their characters. */
  predicate StrLess(a: string, b: string)
  {
    if a == [] then b != []
    else if b == [] then false
    else if a[0] != b[0] then a[0] < b[0]
    else StrLess(a[1..], b[1..])
  }

  lemma {:induction false} StrLessIrreflexive(a: string)
    ensures !StrLess(a, a)
  {
    if a != [] {
      StrLessIrreflexive(a[1..]);
    }
  }

  lemma {:induction false} StrLessTransitive(a: string, b: string, c: string)
    requires StrLess(a, b) && StrLess(b, c)
    ensures StrLess(a, c)
  {
    if a != [] && b != [] && c != [] && a[0] == b[0] && b[0] == c[0] {
      StrLessTransitive(a[1..], b[1..], c[1..]);
    }
  }

  lemma {:induction false} StrLessTrichotomy(a: string, b: string)
    ensures a == b || StrLess(a, b) || StrLess(b, a)
    ensures !(StrLess(a, b) && StrLess(b, a))
  {
    if a != [] && b != [] && a[0] == b[0] {
      StrLessTrichotomy(a[1..], b[1..]);
      if a[1..] == b[1..] {
        assert a == [a[0]] + a[1..] && b == [b[0]] + b[1..];
      }
    }
  }

  /** Two non-null values that JavaScript's `<` orders meaningfully: both numbers or both strings. */
  predicate SameKind(u: Value, v: Value)
  {
    !(u.Num? && v.Str?) && !(u.Str? && v.Num?)
  }

  /** `u < v` for two non-null values of the same kind; false across kinds. */
  predicate ValueLess(u: Value, v: Value)
  {
    if u.Num? && v.Num? then u.n < v.n
    else if u.Str? && v.Str? then StrLess(u.s, v.s)
    else false
  }

  /** On non-null values of one kind, `<` is a strict total order. */
  lemma ValueLessTotalOrder(u: Value, v: Value, w: Value)
    ensures !ValueLess(u, u)
    ensures ValueLess(u, v) && ValueLess(v, w) ==> ValueLess(u, w)
    ensures !(ValueLess(u, v) && ValueLess(v, u))
    ensures !u.Null? && !v.Null? && SameKind(u, v) ==> u == v || ValueLess(u, v) || ValueLess(v, u)
  {
    if u.Str? {
      StrLessIrreflexive(u.s);
      if v.Str? {
        StrLessTrichotomy(u.s, v.s);
        if w.Str? && ValueLess(u, v) && ValueLess(v, w) {
          StrLessTransitive(u.s, v.s, w.s);
        }
      }
    }
  }

  /** The comparator exactly as the table passes it to `Array.prototype.sort`. */
  function CompareAsWritten(a: Row, b: Row, key: string, dir: Direction): (c: int)
    ensures -1 <= c <= 1
    ensures Field(a, key).Null? ==> c == -1
  {
    var av := Field(a, key);
    var bv := Field(b, key);
    if av.Null? then -1
    else if bv.Null? then 1
    else if ValueLess(av, bv) then (if dir == Asc then -1 else 1)
    else if ValueLess(bv, av) then (if dir == Asc then 1 else -1)
    else 0
  }

  /**
   * The comparator with two null fields treated as a tie, which is what the rest of the
   * model sorts with; it differs from CompareAsWritten only on that pair.
   */
  function Compare(a: Row, b: Row, key: string, dir: Direction): (c: int)
    ensures -1 <= c <= 1
    ensures Field(a, key).Null? && Field(b, key).Null? ==> c == 0
  {
    var av := Field(a, key);
    var bv := Field(b, key);
    if av.Null? && bv.Null? then 0
    else if av.Null? then -1
    else if bv.Null? then 1
    else if ValueLess(av, bv) then (if dir == Asc then -1 else 1)
    else if ValueLess(bv, av) then (if dir == Asc then 1 else -1)
    else 0
  }

  /** A row whose field is null sorts before a row whose field is present, in either direction. */
  lemma NullSortsFirst(a: Row, b: Row, key: string, dir: Direction)
    requires Field(a, key).Null? && !Field(b, key).Null?
    ensures Compare(a, b, key, dir) == -1 && Compare(b, a, key, dir) == 1
    ensures CompareAsWritten(a, b, key, dir) == -1 && CompareAsWritten(b, a, key, dir) == 1
  {
  }

  /** For two present values, descending order is the negation of ascending order. */
  lemma DescNegatesAsc(a: Row, b: Row, key: string)
    requires !Field(a, key).Null? && !Field(b, key).Null?
    ensures Compare(a, b, key, Desc) == -Compare(a, b, key, Asc)
  {
  }

  /** Two present values of one kind compare 0 exactly when they are equal. */
  lemma CompareZeroIffEqual(a: Row, b: Row, key: string, dir: Direction)
    requires !Field(a, key).Null? && !Field(b, key).Null? && SameKind(Field(a, key), Field(b, key))
    ensures Compare(a, b, key, dir) == 0 <==> Field(a, key) == Field(b, key)
  {
    ValueLessTotalOrder(Field(a, key), Field(b, key), Field(b, key));
  }

  /** Rows with equal fields (null or not) always tie, so a stable sort keeps their input order. */
  lemma EqualFieldsTie(a: Row, b: Row, key: string, dir: Direction)
    requires Field(a, key) == Field(b, key)
    ensures Compare(a, b, key, dir) == 0
  {
    ValueLessTotalOrder(Field(a, key), Field(a, key), Field(a, key));
  }

  /** The corrected comparator is consistent: swapping the arguments negates the result. */
  lemma CompareAntisymmetric(a: Row, b: Row, key: string, dir: Direction)
    ensures Compare(a, b, key, dir) == -Compare(b, a, key, dir)
  {
    ValueLessTotalOrder(Field(a, key), Field(b, key), Field(b, key));
  }

  /** The comparator as written is not: two null fields each compare less than the other. */
  lemma AsWrittenInconsistentOnNulls(a: Row, b: Row, key: string, dir: Direction)
    requires Field(a, key).Null? && Field(b, key).Null?
    ensures CompareAsWritten(a, b, key, dir) == -1 && CompareAsWritten(b, a, key, dir) == -1
    ensures CompareAsWritten(a, b, key, dir) != -CompareAsWritten(b, a, key, dir)
  {
  }

  /** "a must move after b" is decided identically by both comparators. */
  lemma GreaterAgrees(a: Row, b: Row, key: string, dir: Direction)
    ensures !(Field(a, key).Null? && Field(b, key).Null?) ==> Compare(a, b, key, dir) == CompareAsWritten(a, b, key, dir)
    ensures CompareAsWritten(a, b, key, dir) > 0 <==> Compare(a, b, key, dir) > 0
  {
  }

  /** On a column of one kind, "compares at most 0" is transitive. */
  lemma CompareTransitive(a: Row, b: Row, c: Row, key: string, dir: Direction)
    requires SameKind(Field(a, key), Field(b, key)) && SameKind(Field(b, key), Field(c, key))
    requires SameKind(Field(a, key), Field(c, key))
    requires Compare(a, b, key, dir) <= 0 && Compare(b, c, key, dir) <= 0
    ensures Compare(a, c, key, dir) <= 0
  {
    var u, v, w := Field(a, key), Field(b, key), Field(c, key);
    ValueLessTotalOrder(u, v, w);
    ValueLessTotalOrder(w, v, u);
    ValueLessTotalOrder(u, w, w);
    ValueLessTotalOrder(v, w, w);
    ValueLessTotalOrder(u, v, v);
  }

  /** The comparator exactly as the table hands it to `copy.sort`, as a function value. */
  function AsWrittenFor(key: string, dir: Direction): (cmp: (Row, Row) -> int)
    ensures forall a, b :: cmp(a, b) == CompareAsWritten(a, b, key, dir)
  {
    (a, b) => CompareAsWritten(a, b, key, dir)
  }

  /** The corrected comparator as a function value; the sorted view is specified with it. */
  function ComparatorFor(key: string, dir: Direction): (cmp: (Row, Row) -> int)
    ensures forall a, b :: cmp(a, b) == Compare(a, b, key, dir)
  {
    (a, b) => Compare(a, b, key, dir)
  }
}

/** The result table: the fragment and mass lists zipped into rows and
    sorted by mass with Python's `sorted`, which is stable. The sort is
    modelled as an insertion sort that puts each row before the first row
    of equal or greater mass, so that rows of equal mass keep their order. */
module ResultTable {
  import opened Sequences
  import opened Formula
  import opened FragmentSearch

  /** One table row: a fragment and its mass. */
  type Row = (Composition, int)

  predicate SortedByMass(rows: seq<Row>) {
    forall i, j :: 0 <= i < j < |rows| ==> rows[i].1 <= rows[j].1
  }

  /** No two rows hold equal fragments. */
  predicate DistinctFragments(rows: seq<Row>) {
    forall i, j :: 0 <= i < j < |rows| ==> rows[i].0 != rows[j].0
  }

  function WithMass(m: int): Row -> bool {
    (r: Row) => r.1 == m
  }

  /** Where a row goes in a sorted table: after the rows of smaller mass,
      ahead of those of equal or greater mass. */
  function InsertionPoint(r: Row, rows: seq<Row>): (i: nat)
    ensures i <= |rows|
    ensures forall k :: 0 <= k < i ==> rows[k].1 < r.1
    ensures i < |rows| ==> r.1 <= rows[i].1
    decreases |rows|
  {
    if rows == [] || r.1 <= rows[0].1 then 0 else 1 + InsertionPoint(r, rows[1..])
  }

  /** Insert a row into a sorted table at its insertion point. */
  function InsertByMass(r: Row, rows: seq<Row>): (out: seq<Row>)
    requires SortedByMass(rows)
    ensures SortedByMass(out)
    ensures multiset(out) == multiset(rows) + multiset{r}
  {
    var i := InsertionPoint(r, rows);
    assert rows == rows[..i] + rows[i..];
    InsertAtPointSorted(r, rows, i);
    rows[..i] + [r] + rows[i..]
  }

  /** Placing `r` between the lighter rows and the rest keeps the order. */
  lemma InsertAtPointSorted(r: Row, rows: seq<Row>, i: nat)
    requires SortedByMass(rows) && i <= |rows|
    requires forall k :: 0 <= k < i ==> rows[k].1 < r.1
    requires i < |rows| ==> r.1 <= rows[i].1
    ensures SortedByMass(rows[..i] + [r] + rows[i..])
  {
    var out := rows[..i] + [r] + rows[i..];
    forall p, q | 0 <= p < q < |out| ensures out[p].1 <= out[q].1 {
      if q < i {
        assert out[p] == rows[p] && out[q] == rows[q];
      } else if q == i {
        assert out[p] == rows[p] && out[q] == r;
      } else if p < i {
        assert out[p] == rows[p] && out[q] == rows[q - 1];
      } else if p == i {
        assert out[p] == r && out[q] == rows[q - 1];
        assert rows[i].1 <= rows[q - 1].1;
      } else {
        assert out[p] == rows[p - 1] && out[q] == rows[q - 1];
      }
    }
  }

  /** A stable sort of rows by mass. */
  function SortByMass(rows: seq<Row>): (out: seq<Row>)
    ensures SortedByMass(out)
    ensures multiset(out) == multiset(rows)
    decreases |rows|
  {
    if rows == [] then []
    else
      assert rows == [rows[0]] + rows[1..];
      InsertByMass(rows[0], SortByMass(rows[1..]))
  }

  /** Inserting ahead of equal masses keeps the order among equal masses. */
  lemma InsertByMassStable(r: Row, rows: seq<Row>, m: int)
    requires SortedByMass(rows)
    ensures Filter(WithMass(m), InsertByMass(r, rows)) == Filter(WithMass(m), [r] + rows)
  {
    var i := InsertionPoint(r, rows);
    assert rows == rows[..i] + rows[i..];
    // the rows ahead of the insertion point are all lighter than `r`
    FilterMoveAhead(WithMass(m), rows[..i], r, rows[i..]);
  }

  /** The sort is stable: for every mass, the rows of that mass appear in
      the same order as in the input. */
  lemma {:induction false} SortByMassStable(rows: seq<Row>, m: int)
    ensures Filter(WithMass(m), SortByMass(rows)) == Filter(WithMass(m), rows)
    decreases |rows|
  {
    if rows != [] {
      var p := WithMass(m);
      var rest := rows[1..];
      SortByMassStable(rest, m);
      InsertByMassStable(rows[0], SortByMass(rest), m);
      FilterConcat(p, [rows[0]], SortByMass(rest));
      FilterConcat(p, [rows[0]], rest);
      assert [rows[0]] + rest == rows;
    }
  }

  /** Sorting keeps fragments distinct. */
  lemma {:induction false} SortByMassKeepsDistinct(rows: seq<Row>)
    requires DistinctFragments(rows)
    ensures DistinctFragments(SortByMass(rows))
    decreases |rows|
  {
    if rows != [] {
      var rest := rows[1..];
      SortByMassKeepsDistinct(rest);
      var sorted := SortByMass(rest);
      forall k | 0 <= k < |sorted| ensures sorted[k].0 != rows[0].0 {
        assert sorted[k] in multiset(rest);
      }
      InsertKeepsDistinct(rows[0], sorted);
    }
  }

  lemma InsertKeepsDistinct(r: Row, rows: seq<Row>)
    requires SortedByMass(rows) && DistinctFragments(rows)
    requires forall k :: 0 <= k < |rows| ==> rows[k].0 != r.0
    ensures DistinctFragments(InsertByMass(r, rows))
  {
    var i := InsertionPoint(r, rows);
    var out := rows[..i] + [r] + rows[i..];
    forall p, q | 0 <= p < q < |out| ensures out[p].0 != out[q].0 {
      if q < i {
        assert out[p] == rows[p] && out[q] == rows[q];
      } else if q == i {
        assert out[p] == rows[p] && out[q] == r;
      } else if p < i {
        assert out[p] == rows[p] && out[q] == rows[q - 1];
      } else if p == i {
        assert out[p] == r && out[q] == rows[q - 1];
      } else {
        assert out[p] == rows[p - 1] && out[q] == rows[q - 1];
      }
    }
  }

  /** The rows the script prints: the two lists zipped, then sorted by mass. */
  function Table(s: Found): (rows: seq<Row>)
    ensures SortedByMass(rows)
    ensures multiset(rows) == multiset(Zip(s.fragments, s.masses))
  {
    SortByMass(Zip(s.fragments, s.masses))
  }

  /** Rows of equal mass keep the order in which the search found them. */
  lemma TableStable(s: Found, m: int)
    ensures Filter(WithMass(m), Table(s)) == Filter(WithMass(m), Zip(s.fragments, s.masses))
  {
    SortByMassStable(Zip(s.fragments, s.masses), m);
  }

  /** From consistent result lists the table has one row per recorded
      fragment, no two with equal fragments, each with that fragment's own
      mass, which is a target mass. */
  lemma TableRows(s: Found, targets: seq<real>, mass: Composition -> int)
    requires Consistent(s, targets, mass)
    ensures var rows := Table(s);
      && |rows| == |s.fragments|
      && DistinctFragments(rows)
      && forall k :: 0 <= k < |rows| ==>
           rows[k].0 in s.fragments && rows[k].1 == mass(rows[k].0) && (rows[k].1 as real) in targets
  {
    var z := Zip(s.fragments, s.masses);
    assert DistinctFragments(z);
    SortByMassKeepsDistinct(z);
    var rows := Table(s);
    assert |rows| == |multiset(rows)| == |multiset(z)| == |z|;
    forall k | 0 <= k < |rows|
      ensures rows[k].0 in s.fragments && rows[k].1 == mass(rows[k].0) && (rows[k].1 as real) in targets
    {
      assert rows[k] in multiset(z);
      var i :| 0 <= i < |z| && z[i] == rows[k];
    }
  }
}

/** `mergeStats`: before a file's statistics and metadata are appended to
    the month's buffers, every empty level of every column name is replaced
    by the NaN tag. A column is a tuple of levels; the renaming walks the
    table's columns in order, so when two columns end up with the same name
    the later one's value is kept. */
module MergeStats {
  import opened Text
  import opened Tables

  /** `a if a != '' else NaN tag`. */
  function FillLevel(a: string): (r: string)
    ensures r != ""
    ensures a != "" ==> r == a
  {
    if a != "" then a else NanTag
  }

  /** A metadata column `(section, key)` with its levels filled. */
  function FillColumn(c: (string, string)): (r: (string, string))
    ensures r.0 != "" && r.1 != ""
  {
    (FillLevel(c.0), FillLevel(c.1))
  }

  /** A statistics column `(variable, statistic, unit)` with its levels filled. */
  function FillStatColumn(c: (string, string, string)): (r: (string, string, string))
    ensures r.0 != "" && r.1 != "" && r.2 != ""
  {
    (FillLevel(c.0), FillLevel(c.1), FillLevel(c.2))
  }

  /** Filling is done once and for all: a filled name is its own filling. */
  lemma FillIdempotent(c: (string, string, string), d: (string, string))
    ensures FillStatColumn(FillStatColumn(c)) == FillStatColumn(c)
    ensures FillColumn(FillColumn(d)) == FillColumn(d)
  {
  }

  /** The row with its columns renamed by `f`, taking the columns in the
      table's order `order`. */
  function Renamed<C>(row: Row<C>, order: seq<C>, f: C -> C): Row<C>
    decreases |order|
  {
    if order == [] then map[]
    else
      var m := Renamed(row, order[..|order| - 1], f);
      var c := order[|order| - 1];
      if c in row then m[f(c) := row[c]] else m
  }

  /** Column `j` of the order is in the row and is renamed to `d`. */
  predicate RenamedFrom<C>(row: Row<C>, order: seq<C>, f: C -> C, j: int, d: C) {
    0 <= j < |order| && order[j] in row && f(order[j]) == d
  }

  /** The renamed row has exactly the renamed columns of the row. */
  lemma {:induction false} RenamedKeys<C>(row: Row<C>, order: seq<C>, f: C -> C)
    ensures forall d :: d in Renamed(row, order, f) <==> exists j :: RenamedFrom(row, order, f, j, d)
    decreases |order|
  {
    if order != [] {
      var init := order[..|order| - 1];
      RenamedKeys(row, init, f);
      forall d | d in Renamed(row, order, f)
        ensures exists j :: RenamedFrom(row, order, f, j, d)
      {
        if d in Renamed(row, init, f) {
          var j :| RenamedFrom(row, init, f, j, d);
          assert RenamedFrom(row, order, f, j, d);
        } else {
          assert RenamedFrom(row, order, f, |order| - 1, d);
        }
      }
      forall d, j | RenamedFrom(row, order, f, j, d)
        ensures d in Renamed(row, order, f)
      {
        if j < |init| {
          assert RenamedFrom(row, init, f, j, d);
        }
      }
    }
  }

  /** A renamed column holds the value of the last column of the row that
      is renamed to it. A row is a map, so columns filled to the same name
      merge into one here, where a pandas frame keeps them side by side. */
  lemma {:induction false} RenamedValue<C>(row: Row<C>, order: seq<C>, f: C -> C, j: nat)
    requires j < |order| && order[j] in row
    requires forall j' :: j < j' < |order| && order[j'] in row ==> f(order[j']) != f(order[j])
    ensures f(order[j]) in Renamed(row, order, f) && Renamed(row, order, f)[f(order[j])] == row[order[j]]
    decreases |order|
  {
    var init := order[..|order| - 1];
    if j < |init| {
      assert init[j] == order[j];
      assert forall j' :: j < j' < |init| ==> init[j'] == order[j'];
      RenamedValue(row, init, f, j);
    }
  }

  /** `o.columns = MultiIndex.from_tuples(nuCols)` on every row. */
  function FillTable<C>(t: Table<C>, order: seq<C>, f: C -> C): (r: Table<C>)
    ensures r.Keys == t.Keys
    ensures forall ts :: ts in t ==> r[ts] == Renamed(t[ts], order, f)
  {
    map ts | ts in t :: Renamed(t[ts], order, f)
  }

  /** No column of a filled statistics row has an empty level. */
  lemma FilledStatsHaveNoEmptyLevel(row: Row<(string, string, string)>, order: seq<(string, string, string)>, d: (string, string, string))
    requires d in Renamed(row, order, FillStatColumn)
    ensures d.0 != "" && d.1 != "" && d.2 != ""
  {
    RenamedKeys(row, order, FillStatColumn);
  }

  /** No column of a filled metadata row has an empty level. */
  lemma FilledMetaHaveNoEmptyLevel(row: Row<(string, string)>, order: seq<(string, string)>, d: (string, string))
    requires d in Renamed(row, order, FillColumn)
    ensures d.0 != "" && d.1 != ""
  {
    RenamedKeys(row, order, FillColumn);
  }

  /** The renaming loop over `o.columns`. */
  method RenameColumns<C>(row: Row<C>, order: seq<C>, f: C -> C) returns (m: Row<C>)
    ensures m == Renamed(row, order, f)
  {
    m := map[];
    var i := 0;
    while i < |order|
      invariant 0 <= i <= |order|
      invariant m == Renamed(row, order[..i], f)
    {
      assert order[..i + 1][..i] == order[..i];
      var c := order[i];
      if c in row {
        m := m[f(c) := row[c]];
      }
      i := i + 1;
    }
    assert order[..i] == order;
  }
}

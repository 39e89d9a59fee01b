/** The tables the pipeline keeps (file inventory, metadata values, raw-data
    statistics): a map from timestamp (integer seconds) to a row, and a row a
    map from column to cell. A column missing from a row is a missing (NaN)
    value, so `fillna` is "add the column" and `isnull` is "not in the row". */
module Tables {
  import opened Text

  /** `config['stringTags']['NaN']`, the text written in place of a missing value. */
  const NanTag: string := "NaN"

  /** `config['intNaN']`, the integer written in place of a missing group ID. */
  const IntNaN: int := -9999

  /** A stored value: text or a whole number; floating-point statistics are
      carried as opaque numbers that nothing here computes with. */
  datatype Cell = Str(s: string) | Int(n: int) | Stat(x: real)

  type Row<C> = map<C, Cell>

  type Table<C> = map<int, Row<C>>

  /** `lo <= t <= hi`: the inclusive date-range test used throughout. */
  predicate Within(t: int, lo: int, hi: int) {
    lo <= t && t <= hi
  }

  /** `df.fillna(v)` on the columns `cols`: every row gets every such column,
      existing cells are kept. */
  function FillMissing<C>(t: Table<C>, cols: set<C>, v: Cell): (r: Table<C>)
    ensures r.Keys == t.Keys
    ensures forall ts :: ts in t ==> r[ts] == FilledRow(t[ts], cols, v)
  {
    map ts | ts in t :: FilledRow(t[ts], cols, v)
  }

  /** One row of `fillna(v)`: every column of `cols` is present, existing
      cells are kept. */
  function FilledRow<C>(row: Row<C>, cols: set<C>, v: Cell): (r: Row<C>)
    ensures r.Keys == row.Keys + cols
    ensures forall c :: c in row ==> r[c] == row[c]
    ensures forall c :: c in cols && c !in row ==> r[c] == v
  {
    (map c | c in cols :: v) + row
  }

  /** Filling twice changes nothing. */
  lemma FillIdempotent<C>(t: Table<C>, cols: set<C>, v: Cell)
    ensures FillMissing(FillMissing(t, cols, v), cols, v) == FillMissing(t, cols, v)
  {
    forall ts | ts in t
      ensures FilledRow(FilledRow(t[ts], cols, v), cols, v) == FilledRow(t[ts], cols, v)
    {
      FilledRowIdempotent(t[ts], cols, v);
    }
  }

  lemma FilledRowIdempotent<C>(row: Row<C>, cols: set<C>, v: Cell)
    ensures FilledRow(FilledRow(row, cols, v), cols, v) == FilledRow(row, cols, v)
  {
    var once := FilledRow(row, cols, v);
    assert FilledRow(once, cols, v).Keys == once.Keys;
  }

  /** The rows `df.loc[(df.index >= lo) & (df.index <= hi)]`. */
  function Between<C>(t: Table<C>, lo: int, hi: int): (r: Table<C>)
    ensures forall ts :: ts in r <==> ts in t && Within(ts, lo, hi)
    ensures forall ts :: ts in r ==> r[ts] == t[ts]
  {
    map ts | ts in t && Within(ts, lo, hi) :: t[ts]
  }

  /** `ks` lists the set `s` in strictly increasing order: a sorted index. */
  ghost predicate Enumerates(ks: seq<int>, s: set<int>) {
    (forall i, j :: 0 <= i < j < |ks| ==> ks[i] < ks[j])
    && (forall x :: x in ks <==> x in s)
  }

  /** The sorted index of a set of timestamps (`sort_index`), built by
      inserting each timestamp at its place. */
  method SortedTimes(s: set<int>) returns (ks: seq<int>)
    ensures Enumerates(ks, s)
    ensures ks == Sorted(s)
  {
    ks := [];
    var rest := s;
    while rest != {}
      invariant Enumerates(ks, s - rest)
      invariant rest <= s
      decreases |rest|
    {
      HasElement(rest);
      var x :| x in rest;
      var i := 0;
      while i < |ks| && ks[i] < x
        invariant 0 <= i <= |ks|
        invariant forall j :: 0 <= j < i ==> ks[j] < x
      {
        i := i + 1;
      }
      InsertEnumerates(ks, s - rest, x, i);
      ks := ks[..i] + [x] + ks[i..];
      assert s - rest + {x} == s - (rest - {x});
      rest := rest - {x};
    }
    EnumerationUnique(ks, Sorted(s), s);
  }

  /** Inserting a new timestamp before the first later one keeps the
      index sorted and adds exactly that timestamp. */
  lemma InsertEnumerates(ks: seq<int>, done: set<int>, x: int, i: nat)
    requires Enumerates(ks, done) && x !in done
    requires i <= |ks| && (forall j :: 0 <= j < i ==> ks[j] < x) && (i < |ks| ==> x <= ks[i])
    ensures Enumerates(ks[..i] + [x] + ks[i..], done + {x})
  {
    var ks' := ks[..i] + [x] + ks[i..];
    assert forall y :: y in ks' <==> y in ks || y == x by {
      assert ks == ks[..i] + ks[i..];
    }
    forall j | i <= j < |ks| ensures x < ks[j] {
      assert x <= ks[i] && ks[j] != x;
      if j > i { assert ks[i] < ks[j]; }
    }
  }

  /** The sorted index of a set of timestamps, as a specification: the
      earliest timestamp, then the rest in order. */
  function Sorted(s: set<int>): (ks: seq<int>)
    ensures |ks| == |s|
    ensures forall i, j :: 0 <= i < j < |ks| ==> ks[i] < ks[j]
    ensures forall x :: x in ks <==> x in s
    decreases |s|
  {
    if s == {} then []
    else
      var m := Earliest(s);
      var rest := Sorted(s - {m});
      assert forall j :: 0 <= j < |rest| ==> m < rest[j];
      [m] + rest
  }

  /** A set has only one sorted enumeration. */
  lemma {:induction false} EnumerationUnique(a: seq<int>, b: seq<int>, s: set<int>)
    requires Enumerates(a, s) && Enumerates(b, s)
    ensures a == b
    decreases |a|
  {
    EnumerationEmpty(a, s);
    EnumerationEmpty(b, s);
    if a != [] {
      EnumerationHead(a, s);
      EnumerationHead(b, s);
      EnumerationUnique(a[1..], b[1..], s - {a[0]});
      assert a == [a[0]] + a[1..] && b == [b[0]] + b[1..];
    }
  }

  /** A nonempty enumeration starts with the least element, followed by an
      enumeration of the others. */
  lemma EnumerationHead(a: seq<int>, s: set<int>)
    requires Enumerates(a, s) && a != []
    ensures a[0] in s && forall x :: x in s ==> a[0] <= x
    ensures Enumerates(a[1..], s - {a[0]})
  {
    assert a[0] in a;
    forall x | x in s ensures a[0] <= x {
      var i :| 0 <= i < |a| && a[i] == x;
    }
    forall x ensures x in a[1..] <==> x in s - {a[0]} {
      if x in a[1..] { var i :| 1 <= i < |a| && a[i] == x; assert a[0] < a[i]; }
      if x in a && x != a[0] { var i :| 0 <= i < |a| && a[i] == x; assert a[1..][i - 1] == x; }
    }
  }

  lemma EnumerationEmpty(a: seq<int>, s: set<int>)
    requires Enumerates(a, s)
    ensures a == [] <==> s == {}
  {
    if a != [] {
      assert a[0] in a;
    } else {
      forall x ensures x !in s { assert x !in a; }
      assert s == {};
    }
  }

  lemma HasElement(s: set<int>)
    requires s != {}
    ensures exists x :: x in s
  {
    if forall x :: x !in s { assert false; }
  }

  /** The earliest timestamp of a non-empty set (`index.min()`). */
  function Earliest(s: set<int>): (m: int)
    requires s != {}
    ensures m in s && forall y :: y in s ==> m <= y
  {
    HasMinimum(s);
    var m :| m in s && forall y :: y in s ==> m <= y;
    m
  }

  /** The latest timestamp of a non-empty set (`index.max()`). */
  function Latest(s: set<int>): (m: int)
    requires s != {}
    ensures m in s && forall y :: y in s ==> y <= m
  {
    HasMaximum(s);
    var m :| m in s && forall y :: y in s ==> y <= m;
    m
  }

  lemma {:induction false} HasMinimum(s: set<int>)
    requires s != {}
    ensures exists m :: m in s && forall y :: y in s ==> m <= y
    decreases |s|
  {
    HasElement(s);
    var x :| x in s;
    if s != {x} {
      HasMinimum(s - {x});
      var m :| m in s - {x} && forall y :: y in s - {x} ==> m <= y;
      if x < m {
        forall y | y in s ensures x <= y { if y != x { assert y in s - {x}; } }
      } else {
        forall y | y in s ensures m <= y { if y != x { assert y in s - {x}; } }
      }
    } else {
      assert forall y :: y in s ==> x <= y;
    }
  }

  lemma {:induction false} HasMaximum(s: set<int>)
    requires s != {}
    ensures exists m :: m in s && forall y :: y in s ==> y <= m
    decreases |s|
  {
    HasElement(s);
    var x :| x in s;
    if s != {x} {
      HasMaximum(s - {x});
      var m :| m in s - {x} && forall y :: y in s - {x} ==> y <= m;
      if x > m {
        forall y | y in s ensures y <= x { if y != x { assert y in s - {x}; } }
      } else {
        forall y | y in s ensures y <= m { if y != x { assert y in s - {x}; } }
      }
    } else {
      assert forall y :: y in s ==> y <= x;
    }
  }
}

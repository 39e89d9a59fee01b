/** The half-hourly timeline of the file inventory: `resample('30min').first()`
    and the incremental merge of a new scan into a saved inventory. */
module Grid {
  import opened Text
  import opened Tables

  /** Thirty minutes, in seconds. */
  const SlotWidth: int := 1800

  /** The half-hour slot a timestamp falls in (slots start on the hour and
      the half hour). */
  function Slot(t: int): (s: int)
    ensures s % SlotWidth == 0 && s <= t < s + SlotWidth
  {
    t - t % SlotWidth
  }

  /** The slot is the only aligned time at most 30 minutes before `t`. */
  lemma SlotUnique(t: int, s: int)
    requires s % SlotWidth == 0 && s <= t < s + SlotWidth
    ensures Slot(t) == s
  {
    var d := Slot(t) - s;
    assert d % SlotWidth == 0 && -SlotWidth < d < SlotWidth;
  }

  /** One row of a frame before resampling: its timestamp and its cells. */
  type Entry<C> = (int, Row<C>)

  /** An entry that offers a value for column `c` in slot `s`. */
  predicate Offers<C>(e: Entry<C>, s: int, c: C) {
    Slot(e.0) == s && c in e.1
  }

  /** The entry whose value `first()` takes for column `c` in slot `s`: the
      earliest offering entry, and among entries with that timestamp the one
      that comes first (the frame is stably sorted before it is binned). */
  function Chosen<C>(es: seq<Entry<C>>, s: int, c: C): (r: Option<nat>)
    ensures r.None? <==> forall j :: 0 <= j < |es| ==> !Offers(es[j], s, c)
    ensures r.Some? ==>
      r.value < |es| && Offers(es[r.value], s, c)
      && (forall j :: 0 <= j < |es| && Offers(es[j], s, c) ==> es[r.value].0 <= es[j].0)
      && (forall j :: 0 <= j < r.value && Offers(es[j], s, c) ==> es[r.value].0 < es[j].0)
    decreases |es|
  {
    if es == [] then None
    else
      var n := |es| - 1;
      var b := Chosen(es[..n], s, c);
      if Offers(es[n], s, c) && (b.None? || es[n].0 < es[b.value].0) then Some(n) else b
  }

  function MinTime<C>(es: seq<Entry<C>>): (m: int)
    requires es != []
    ensures forall j :: 0 <= j < |es| ==> m <= es[j].0
    ensures exists j :: 0 <= j < |es| && m == es[j].0
  {
    if |es| == 1 then es[0].0
    else
      var m := MinTime(es[1..]);
      assert forall j :: 1 <= j < |es| ==> es[j] == es[1..][j - 1];
      if es[0].0 < m then es[0].0 else m
  }

  function MaxTime<C>(es: seq<Entry<C>>): (m: int)
    requires es != []
    ensures forall j :: 0 <= j < |es| ==> es[j].0 <= m
    ensures exists j :: 0 <= j < |es| && m == es[j].0
  {
    if |es| == 1 then es[0].0
    else
      var m := MaxTime(es[1..]);
      assert forall j :: 1 <= j < |es| ==> es[j] == es[1..][j - 1];
      if es[0].0 > m then es[0].0 else m
  }

  /** The slots of the resampled frame: every half hour from the slot of the
      first timestamp to the slot of the last, including empty ones. */
  predicate InSpan<C>(es: seq<Entry<C>>, s: int)
    requires es != []
  {
    s % SlotWidth == 0 && Slot(MinTime(es)) <= s <= Slot(MaxTime(es))
  }

  /** `resample('30min').first()`: one row per slot of the span, holding for
      each column the chosen entry's value; a column no entry of the slot
      offers stays missing. */
  function Resample<C>(es: seq<Entry<C>>): Table<C> {
    if es == [] then map[]
    else
      map s | Slot(MinTime(es)) <= s <= Slot(MaxTime(es)) && s % SlotWidth == 0 :: SlotRow(es, s)
  }

  /** The row `first()` builds for slot `s`. */
  function SlotRow<C>(es: seq<Entry<C>>, s: int): Row<C> {
    map c | c in Columns(es) && Chosen(es, s, c).Some? :: es[Chosen(es, s, c).value].1[c]
  }

  /** Every column some entry has. */
  function Columns<C>(es: seq<Entry<C>>): (cols: set<C>)
    ensures forall j, c :: 0 <= j < |es| && c in es[j].1 ==> c in cols
    ensures forall c :: c in cols ==> exists j :: 0 <= j < |es| && c in es[j].1
  {
    set j, c | 0 <= j < |es| && c in es[j].1 :: c
  }

  /** The resampled frame has a row for the slot of every entry, its rows are
      exactly the aligned slots between the first and the last entry, and each
      cell is the chosen entry's value. */
  lemma ResampleRows<C>(es: seq<Entry<C>>)
    requires es != []
    ensures forall j :: 0 <= j < |es| ==> Slot(es[j].0) in Resample(es)
    ensures forall s :: s in Resample(es) <==> InSpan(es, s)
    ensures forall s, c :: s in Resample(es) ==>
      (c in Resample(es)[s] <==> Chosen(es, s, c).Some?)
    ensures forall s, c :: s in Resample(es) && c in Resample(es)[s] ==>
      Resample(es)[s][c] == es[Chosen(es, s, c).value].1[c]
  {
    forall j | 0 <= j < |es| ensures Slot(es[j].0) in Resample(es) {
      EntrySlotKept(es, j);
    }
    forall s, c | s in Resample(es)
      ensures c in Resample(es)[s] <==> Chosen(es, s, c).Some?
      ensures c in Resample(es)[s] ==> Resample(es)[s][c] == es[Chosen(es, s, c).value].1[c]
    {
      assert Resample(es)[s] == SlotRow(es, s);
      ResampleCell(es, s, c);
    }
  }

  lemma EntrySlotKept<C>(es: seq<Entry<C>>, j: nat)
    requires j < |es|
    ensures Slot(es[j].0) in Resample(es)
  {
    SlotMonotone(MinTime(es), es[j].0);
    SlotMonotone(es[j].0, MaxTime(es));
  }

  lemma ResampleCell<C>(es: seq<Entry<C>>, s: int, c: C)
    ensures c in SlotRow(es, s) <==> Chosen(es, s, c).Some?
    ensures c in SlotRow(es, s) ==> SlotRow(es, s)[c] == es[Chosen(es, s, c).value].1[c]
  {
    if Chosen(es, s, c).Some? {
      assert c in es[Chosen(es, s, c).value].1;
    }
  }

  lemma SlotMonotone(a: int, b: int)
    requires a <= b
    ensures Slot(a) <= Slot(b)
  {
    assert Slot(a) == SlotWidth * (a / SlotWidth);
    assert Slot(b) == SlotWidth * (b / SlotWidth);
    assert a / SlotWidth <= b / SlotWidth;
  }

  /** A slot into which exactly one entry falls copies that entry's row. */
  lemma SingleEntrySlot<C>(es: seq<Entry<C>>, j: nat)
    requires j < |es|
    requires forall k :: 0 <= k < |es| && k != j ==> Slot(es[k].0) != Slot(es[j].0)
    ensures Slot(es[j].0) in Resample(es) && Resample(es)[Slot(es[j].0)] == es[j].1
  {
    EntrySlotKept(es, j);
    var s := Slot(es[j].0);
    assert Resample(es)[s] == SlotRow(es, s);
    SingleEntryRow(es, j);
  }

  lemma SingleEntryRow<C>(es: seq<Entry<C>>, j: nat)
    requires j < |es|
    requires forall k :: 0 <= k < |es| && k != j ==> Slot(es[k].0) != Slot(es[j].0)
    ensures SlotRow(es, Slot(es[j].0)) == es[j].1
  {
    var s := Slot(es[j].0);
    var row := SlotRow(es, s);
    forall c | c in es[j].1 ensures c in row && row[c] == es[j].1[c] {
      assert Offers(es[j], s, c);
      OnlyOffer(es, j, s, c);
    }
    forall c | c in row ensures c in es[j].1 {
      var k := Chosen(es, s, c).value;
      assert Offers(es[k], s, c);
    }
    assert row.Keys == es[j].1.Keys;
  }

  lemma OnlyOffer<C>(es: seq<Entry<C>>, j: nat, s: int, c: C)
    requires j < |es| && Offers(es[j], s, c)
    requires forall k :: 0 <= k < |es| && k != j ==> Slot(es[k].0) != s
    ensures Chosen(es, s, c) == Some(j)
  {
  }

  /** An inventory already on the grid (one aligned timestamp per row) comes
      back unchanged row by row when it is resampled again. */
  lemma ResampleGridRows<C>(es: seq<Entry<C>>)
    requires forall j :: 0 <= j < |es| ==> es[j].0 % SlotWidth == 0
    requires forall j, k :: 0 <= j < k < |es| ==> es[j].0 != es[k].0
    ensures forall j :: 0 <= j < |es| ==> es[j].0 in Resample(es) && Resample(es)[es[j].0] == es[j].1
  {
    forall j | 0 <= j < |es| ensures es[j].0 in Resample(es) && Resample(es)[es[j].0] == es[j].1 {
      SlotUnique(es[j].0, es[j].0);
      forall k | 0 <= k < |es| && k != j ensures Slot(es[k].0) != Slot(es[j].0) {
        SlotUnique(es[k].0, es[k].0);
      }
      SingleEntrySlot(es, j);
    }
  }

  // ---------------------------------------------------------------------------
  // Incremental merge (read_ALL.find_files)

  /** `pd.concat([saved, scan.loc[~scan.index.isin(saved.index)]])`: the
      saved rows, and the scan rows whose timestamps are new. */
  function Merge<C>(saved: Table<C>, scan: Table<C>): (r: Table<C>)
    ensures r.Keys == saved.Keys + scan.Keys
    ensures forall t :: t in saved ==> r[t] == saved[t]
    ensures forall t :: t in scan && t !in saved ==> r[t] == scan[t]
  {
    saved + map t | t in scan && t !in saved :: scan[t]
  }

  /** Merging the same scan again changes nothing, and a scan that finds
      only known timestamps leaves the saved inventory as it was. */
  lemma MergeIdempotent<C>(saved: Table<C>, scan: Table<C>)
    ensures Merge(Merge(saved, scan), scan) == Merge(saved, scan)
    ensures scan.Keys <= saved.Keys ==> Merge(saved, scan) == saved
  {
  }
}

/** How a configuration group is cut into EddyPro runs: the recommended
    minimum group size, the number of batches, the equal-frequency labels
    `pandas.qcut` gives the group's positions, and the name and time window of
    every batch project file (`eddyProAPI.batchesPerGroup`, `setupGroups`,
    `makeBatch`). Timestamps are integer seconds. */
module Batching {
  import opened Text
  import opened Tables
  import opened Grouping
  import Filters

  // ---------------------------------------------------------------------------
  // Integer helpers

  function Min(a: int, b: int): int { if a <= b then a else b }
  function Max(a: int, b: int): int { if a >= b then a else b }

  /** Python's `math.floor(a / b)` for integers (`b != 0`). Dafny's `/` is
      Euclidean, which agrees with flooring only for a positive divisor. */
  function FloorDiv(a: int, b: int): int
    requires b != 0
  {
    if b > 0 then a / b else (-a) / (-b)
  }

  /** Flooring division is characterised by its lower bound. */
  lemma DivLe(q: int, a: int, d: int)
    requires d > 0
    ensures q <= a / d <==> q * d <= a
  {
    var r := a / d;
    if q <= r {
      MulMono(q, r, d);
    } else {
      MulMono(r + 1, q, d);
      assert (r + 1) * d == r * d + d;
    }
  }

  lemma MulMono(a: int, b: int, c: int)
    requires a <= b && c >= 0
    ensures a * c <= b * c
  {
    assert (b - a) * c >= 0;
  }

  // ---------------------------------------------------------------------------
  // Recommended minimum number of files per group

  /** A configuration read into sections of options. */
  type Settings = map<string, map<string, string>>

  /** One section of the minimum-data table: for each option, the number of
      files each value of that option needs. */
  type Requirement = seq<(string, map<string, int>)>

  type MinDataReq = seq<(string, Requirement)>

  predicate HasSetting(s: Settings, section: string, option: string) {
    section in s && option in s[section]
  }

  /** The minimum one option asks for. A value the user set wins when the
      table lists it; otherwise the static configuration's value is looked up
      (indexing the static configuration raises `KeyError` when it lacks the
      option); a value the table does not list asks for one file. */
  function OptionMinimum(section: string, option: string, limit: map<string, int>,
                         user: Settings, defaults: Settings): (r: Result<int>)
    ensures r.Ok? ==> r.value == 1 || r.value in limit.Values
    ensures r.Err? <==> !HasSetting(defaults, section, option)
                        && !(HasSetting(user, section, option) && user[section][option] in limit)
  {
    if HasSetting(user, section, option) && user[section][option] in limit then
      Ok(limit[user[section][option]])
    else if !HasSetting(defaults, section, option) then
      Err("KeyError: " + option)
    else if defaults[section][option] in limit then
      Ok(limit[defaults[section][option]])
    else
      Ok(1)
  }

  /** The running minimum after the options of one section. The same variable
      carries over from option to option and from section to section, so the
      last option of the section decides, and an empty section leaves the
      value it was given. */
  function SectionMinimum(section: string, req: Requirement, user: Settings, defaults: Settings,
                          carry: int): (r: Result<int>)
    ensures r.Err? <==> exists i :: 0 <= i < |req| && OptionMinimum(section, req[i].0, req[i].1, user, defaults).Err?
    ensures r.Ok? && req == [] ==> r.value == carry
    ensures r.Ok? && req != [] ==> r == OptionMinimum(section, Last(req).0, Last(req).1, user, defaults)
    decreases |req|
  {
    if req == [] then Ok(carry)
    else
      match OptionMinimum(section, req[0].0, req[0].1, user, defaults)
      case Err(e) => Err(e)
      case Ok(m) =>
        var r := SectionMinimum(section, req[1..], user, defaults, m);
        assert forall i :: 1 <= i < |req| ==> req[i] == req[1..][i - 1];
        assert req[1..] != [] ==> Last(req[1..]) == Last(req);
        r
  }

  /** `self.minN` after the sections `req`, from the largest section minimum
      so far (`top`) and the carried-over value (`carry`). */
  function Recommended(req: MinDataReq, user: Settings, defaults: Settings, top: int, carry: int): (r: Result<int>)
    ensures r.Ok? ==> r.value >= top
    decreases |req|
  {
    if req == [] then Ok(top)
    else
      match SectionMinimum(req[0].0, req[0].1, user, defaults, carry)
      case Err(e) => Err(e)
      case Ok(m) => Recommended(req[1..], user, defaults, Max(top, m), m)
  }

  /** Only the last option of a nonempty section counts, whatever was
      carried into it. */
  lemma SectionCarry(section: string, req: Requirement, user: Settings, defaults: Settings, carry: int)
    ensures SectionMinimum(section, req, user, defaults, carry).Err? == SectionMinimum(section, req, user, defaults, 1).Err?
    ensures req != [] ==> SectionMinimum(section, req, user, defaults, carry) == SectionMinimum(section, req, user, defaults, 1)
  {
  }

  /** The recommended minimum is the largest of the section minimums (the
      last option of each nonempty section), and at least the starting value;
      a lookup that raises in any section makes the whole computation raise. */
  lemma {:induction false} RecommendedIsLargest(req: MinDataReq, user: Settings, defaults: Settings, top: int, carry: int)
    requires carry <= top
    ensures Recommended(req, user, defaults, top, carry).Err? <==>
              exists i :: 0 <= i < |req| && SectionMinimum(req[i].0, req[i].1, user, defaults, 1).Err?
    ensures Recommended(req, user, defaults, top, carry).Ok? ==>
              forall i :: 0 <= i < |req| && req[i].1 != [] ==>
                SectionMinimum(req[i].0, req[i].1, user, defaults, 1).Ok? &&
                SectionMinimum(req[i].0, req[i].1, user, defaults, 1).value <= Recommended(req, user, defaults, top, carry).value
    ensures Recommended(req, user, defaults, top, carry).Ok? ==>
              Recommended(req, user, defaults, top, carry).value == top ||
              exists i :: 0 <= i < |req| && req[i].1 != [] &&
                SectionMinimum(req[i].0, req[i].1, user, defaults, 1) == Ok(Recommended(req, user, defaults, top, carry).value)
    decreases |req|
  {
    if req != [] {
      SectionCarry(req[0].0, req[0].1, user, defaults, carry);
      var s := SectionMinimum(req[0].0, req[0].1, user, defaults, carry);
      if s.Ok? {
        var m := s.value;
        RecommendedIsLargest(req[1..], user, defaults, Max(top, m), m);
        assert forall i :: 1 <= i < |req| ==> req[i] == req[1..][i - 1];
      }
    }
  }

  /** The recommended minimum group size for the user's settings; a group with
      fewer files only draws a warning. */
  function RecommendedMinimum(req: MinDataReq, user: Settings, defaults: Settings): Result<int> {
    Recommended(req, user, defaults, 1, 1)
  }

  // ---------------------------------------------------------------------------
  // Number of batches per group

  /** The batch size: the group size clamped to `[bmin, bmax]`, the upper
      bound applied last. */
  function BatchSize(n: int, bmin: int, bmax: int): int {
    Min(Max(bmin, n), bmax)
  }

  /** `nBatchesPerGroup`: `min(processes, max(1, floor(n / size)))`; a batch
      size of zero raises `ZeroDivisionError`. */
  function BatchCount(n: int, processes: int, bmin: int, bmax: int): (r: Result<int>)
    ensures r.Err? <==> BatchSize(n, bmin, bmax) == 0
    ensures r.Ok? ==> r.value <= processes
    ensures r.Ok? && processes >= 1 ==> r.value >= 1
    ensures r.Ok? && n >= 1 ==> r.value <= n
  {
    var size := BatchSize(n, bmin, bmax);
    if size == 0 then Err("ZeroDivisionError")
    else
      BatchCountBelow(n, size);
      Ok(Min(processes, Max(1, FloorDiv(n, size))))
  }

  lemma BatchCountBelow(n: int, size: int)
    requires size != 0
    ensures n >= 1 ==> Max(1, FloorDiv(n, size)) <= n
  {
    if n >= 1 {
      if size > 0 {
        DivLe(n + 1, n, size);
      } else {
        DivLe(1, -n, -size);
      }
    }
  }

  /** With sensible limits (`1 <= bmin <= bmax`), only a group larger than the
      maximum batch size is split, into `floor(n / bmax)` batches at most one
      per process. */
  lemma {:induction false} OnlyLargeGroupsSplit(n: int, processes: int, bmin: int, bmax: int)
    requires 1 <= bmin <= bmax && n >= 1 && processes >= 1
    ensures BatchCount(n, processes, bmin, bmax).Ok?
    ensures n <= bmax ==> BatchCount(n, processes, bmin, bmax).value == 1
    ensures n > bmax ==> BatchCount(n, processes, bmin, bmax).value == Min(processes, n / bmax)
  {
    if n <= bmax {
      if n < bmin {
        DivLe(1, n, bmin);
      } else {
        DivLe(1, n, n);
        DivLe(2, n, n);
      }
    } else {
      DivLe(1, n, bmax);
    }
  }

  // ---------------------------------------------------------------------------
  // Equal-frequency labels (`pandas.qcut` of the positions `0..n-1`)

  /** The label `qcut` gives position `i` of `0..n-1` cut at the quantiles
      `j / k`, `j = 0..k`: the edges are `j * (n - 1) / k`, bins are closed on
      the right and the first also on the left, so `i > 0` lands in bin
      `ceil(i * k / (n - 1))`. */
  function Bin(i: int, n: int, k: int): int
    requires 0 <= i < n && 1 <= k
  {
    if i == 0 then 1 else (i * k + n - 2) / (n - 1)
  }

  /** First and last position of label `b`. */
  function Lo(b: int, n: int, k: int): int
    requires 1 <= b && 1 <= n && 1 <= k
  {
    if b == 1 then 0 else Hi(b - 1, n, k) + 1
  }

  function Hi(b: int, n: int, k: int): int
    requires 1 <= b && 1 <= n && 1 <= k
  {
    b * (n - 1) / k
  }

  /** `pd.qcut(ix, q=k bins, labels=1..k)` for `n >= 1` positions. The edges
      must be unique unless there are only two of them; fewer than one bin is
      refused too. */
  function QcutLabels(n: int, k: int): (r: Result<seq<int>>)
    requires n >= 1
    ensures r.Err? <==> k < 1 || (n == 1 && k > 1)
    ensures r.Ok? ==> |r.value| == n && forall i :: 0 <= i < n ==> r.value[i] == Bin(i, n, k)
  {
    if k < 1 then Err("ValueError: bins")
    else if n == 1 && k > 1 then Err("ValueError: Bin edges must be unique")
    else Ok(seq(n, i requires 0 <= i < n => Bin(i, n, k)))
  }

  /** `ceil(a / d) <= b` exactly when `a <= b * d` (for `a >= 1`). */
  lemma CeilAtMost(a: int, d: int, b: int)
    requires d > 0
    ensures (a + d - 1) / d <= b <==> a <= b * d
  {
    DivLe(b + 1, a + d - 1, d);
    assert (b + 1) * d == b * d + d;
  }

  /** `ceil(a / d) >= b` exactly when `a > (b - 1) * d`. */
  lemma CeilAtLeast(a: int, d: int, b: int)
    requires d > 0
    ensures b <= (a + d - 1) / d <==> (b - 1) * d < a
  {
    DivLe(b, a + d - 1, d);
    assert b * d == (b - 1) * d + d;
  }

  /** A label is at most `b` exactly up to position `Hi(b)`. */
  lemma BinAtMost(i: int, n: int, k: int, b: int)
    requires 0 <= i < n && 1 <= b <= k
    ensures Bin(i, n, k) <= b <==> i <= Hi(b, n, k)
  {
    var d := n - 1;
    if i == 0 {
      MulMono(0, b, d);
      DivLe(0, b * d, k);
    } else {
      CeilAtMost(i * k, d, b);
      DivLe(i, b * d, k);
    }
  }

  /** A label is at least `b` exactly from position `Lo(b)` on. */
  lemma BinAtLeast(i: int, n: int, k: int, b: int)
    requires 0 <= i < n && 1 <= b <= k
    ensures b <= Bin(i, n, k) <==> Lo(b, n, k) <= i
  {
    var d := n - 1;
    if i == 0 {
      if b > 1 {
        MulMono(0, b - 1, d);
        DivLe(0, (b - 1) * d, k);
      }
    } else {
      CeilAtLeast(i * k, d, b);
      if b > 1 {
        DivLe(i, (b - 1) * d, k);
      } else {
        MulMono(1, i, k);
      }
    }
  }

  /** Label `b` is exactly the block of positions `Lo(b)..Hi(b)`. */
  lemma BinBlock(i: int, n: int, k: int, b: int)
    requires 0 <= i < n && 1 <= b <= k
    ensures Bin(i, n, k) == b <==> Lo(b, n, k) <= i <= Hi(b, n, k)
  {
    BinAtMost(i, n, k, b);
    BinAtLeast(i, n, k, b);
  }

  /** Every label lies in `1..k`. */
  lemma BinBounds(i: int, n: int, k: int)
    requires 0 <= i < n && 1 <= k
    ensures 1 <= Bin(i, n, k) <= k
  {
    if i > 0 {
      var d := n - 1;
      var a := i * k;
      MulMono(1, i, k);
      CeilAtLeast(a, d, 1);
      CeilAtMost(a, d, k);
      MulMono(i, d, k);
    }
  }

  /** Labels never decrease along the positions. */
  lemma BinMonotone(i: int, j: int, n: int, k: int)
    requires 0 <= i <= j < n && 1 <= k
    ensures Bin(i, n, k) <= Bin(j, n, k)
  {
    BinBounds(j, n, k);
    if i > 0 {
      var d := n - 1;
      var c := Bin(i, n, k);
      CeilAtMost(i * k, d, c - 1);
      CeilAtLeast(j * k, d, c);
      MulMono(i, j, k);
    }
  }

  /** `Hi(b)` stays inside `0..n-1` and reaches `n - 1` at `b == k`. */
  lemma HiBounds(b: int, n: int, k: int)
    requires 1 <= b <= k && n >= 1
    ensures 0 <= Hi(b, n, k) <= n - 1
    ensures b == k ==> Hi(b, n, k) == n - 1
  {
    var d := n - 1;
    MulMono(0, b, d);
    DivLe(0, b * d, k);
    DivLe(d, b * d, k);
    MulMono(b, k, d);
    DivLe(d + 1, b * d, k);
    assert (d + 1) * k == d * k + k;
  }

  /** Consecutive block ends differ by at least one when `k <= n`. */
  lemma HiStep(b: int, n: int, k: int)
    requires 2 <= b <= k <= n
    ensures Hi(b - 1, n, k) < Hi(b, n, k)
  {
    var d := n - 1;
    var q := (b - 1) * d / k;
    DivLe(q, (b - 1) * d, k);
    DivLe(q + 1, b * d, k);
    assert (q + 1) * k == q * k + k;
    assert b * d == (b - 1) * d + d;
    if k == d + 1 {
      DivLe(b - 1, (b - 1) * d, k);
      assert (b - 1) * k == (b - 1) * d + (b - 1);
      MulMono(q + 1, b - 1, k);
    }
  }

  /** The blocks are nonempty, lie inside `0..n-1`, start at 0, end at
      `n - 1` and follow one another: with at most one bin per position every
      label is used. */
  lemma BlockBounds(b: int, n: int, k: int)
    requires 1 <= b <= k <= n
    ensures 0 <= Lo(b, n, k) <= Hi(b, n, k) <= n - 1
    ensures b == 1 ==> Lo(b, n, k) == 0
    ensures b == k ==> Hi(b, n, k) == n - 1
    ensures b < k ==> Hi(b, n, k) + 1 == Lo(b + 1, n, k)
  {
    HiBounds(b, n, k);
    if b > 1 {
      HiBounds(b - 1, n, k);
      HiStep(b, n, k);
    }
  }

  /** The set of positions carrying label `b`. */
  function LabelSet(n: int, k: int, b: int): set<int>
    requires 1 <= k
  {
    set i | 0 <= i < n && Bin(i, n, k) == b
  }

  /** The integers `lo .. hi`. */
  function Span(lo: int, hi: int): (r: set<int>)
    requires lo <= hi + 1
    ensures |r| == hi - lo + 1
    ensures forall i :: i in r <==> lo <= i <= hi
    decreases hi - lo
  {
    if lo > hi then {} else Span(lo, hi - 1) + {hi}
  }

  /** Every label `1..k` is used, by the block `Lo(b)..Hi(b)` of positions. */
  lemma LabelSetIsBlock(n: int, k: int, b: int)
    requires 1 <= b <= k <= n
    ensures Lo(b, n, k) <= Hi(b, n, k)
    ensures LabelSet(n, k, b) == Span(Lo(b, n, k), Hi(b, n, k))
    ensures |LabelSet(n, k, b)| == Hi(b, n, k) - Lo(b, n, k) + 1
  {
    BlockBounds(b, n, k);
    forall i | Lo(b, n, k) <= i <= Hi(b, n, k) ensures i in LabelSet(n, k, b) {
      BinBlock(i, n, k, b);
    }
    forall i | i in LabelSet(n, k, b) ensures Lo(b, n, k) <= i <= Hi(b, n, k) {
      BinBlock(i, n, k, b);
    }
  }

  // ---------------------------------------------------------------------------
  // Batch names

  /** `chr(ord('@') + b)`. Dafny's `char` leaves out the surrogate code
      points that Python's `chr` accepts. */
  function BatchLetter(b: int): (r: Result<char>)
    ensures r.Ok? ==> r.value as int == 64 + b
    ensures 1 <= b <= 26 ==> r.Ok? && 'A' <= r.value <= 'Z'
  {
    var c := 64 + b;
    if 0 <= c < 0xD800 || 0xE000 <= c < 0x11_0000 then Ok(c as char) else Err("ValueError: chr() arg not in range")
  }

  /** `group_{g}_rp_{letter}`: the project id of an rp (raw processing) batch. */
  function RpName(g: int, b: int): Result<string> {
    match BatchLetter(b)
    case Err(e) => Err(e)
    case Ok(c) => Ok("group_" + IntToString(g) + "_rp_" + [c])
  }

  /** `group_{g}_fcc`: the project id of a group's flux computation run. */
  function FccName(g: int): string {
    "group_" + IntToString(g) + "_fcc"
  }

  lemma IntToStringChars(g: int)
    ensures forall j :: 0 <= j < |IntToString(g)| ==> IntToString(g)[j] == '-' || '0' <= IntToString(g)[j] <= '9'
    ensures |IntToString(g)| >= 1
  {
  }

  lemma {:induction false} IntToStringInjective(g: int, h: int)
    requires IntToString(g) == IntToString(h)
    ensures g == h
  {
    var a, b := IntToString(g), IntToString(h);
    assert (g < 0) == (a[0] == '-') && (h < 0) == (b[0] == '-');
    if g < 0 {
      assert a[1..] == NatToString(-g) && b[1..] == NatToString(-h);
      NatToStringInjective(-g, -h);
    } else {
      NatToStringInjective(g, h);
    }
  }

  /** The dictionary of rp batches is keyed by name: different groups or
      labels never share a name, and no rp name is an fcc name. */
  lemma RpNameInjective(g: int, b: int, h: int, c: int)
    requires RpName(g, b).Ok? && RpName(h, c).Ok?
    requires RpName(g, b) == RpName(h, c)
    ensures g == h && b == c
  {
    RpNameParts(g, b);
    RpNameParts(h, c);
    IntToStringInjective(g, h);
  }

  /** An rp name ends with its letter, and its group number sits between
      `group_` and `_rp_`. */
  lemma RpNameParts(g: int, b: int)
    requires RpName(g, b).Ok?
    ensures var x := RpName(g, b).value;
      |x| >= 11 && x[|x| - 1] as int == 64 + b && x[6..|x| - 5] == IntToString(g)
  {
    var x := RpName(g, b).value;
    assert x[|x| - 1] as int == 64 + b;
    assert x[6..|x| - 5] == IntToString(g);
  }

  lemma RpNotFcc(g: int, b: int, h: int)
    requires RpName(g, b).Ok?
    ensures RpName(g, b).value != FccName(h)
  {
    var x, y := RpName(g, b).value, FccName(h);
    assert x[|x| - 2] == '_' && y[|y| - 2] == 'c';
  }

  // ---------------------------------------------------------------------------
  // Batch windows

  /** One EddyPro project: its group, its id, the first and last instant of
      data it reads and the number of files it covers. */
  datatype Batch = Batch(group: int, projectId: string, start: int, end: int, count: int)

  /** Strictly increasing timestamps, as the sorted index of the inventory. */
  predicate Increasing(ts: seq<int>) {
    forall i, j :: 0 <= i < j < |ts| ==> ts[i] < ts[j]
  }

  /** The rp batch for label `b` of a group with timestamps `ts`: the window
      runs from the label's first timestamp to its last one plus one file
      duration (`dur`, minutes). */
  function RpBatch(g: int, ts: seq<int>, k: int, dur: int, b: int): Result<Batch>
    requires 1 <= b <= k <= |ts|
  {
    BlockBounds(b, |ts|, k);
    match RpName(g, b)
    case Err(e) => Err(e)
    case Ok(name) =>
      var lo, hi := Lo(b, |ts|, k), Hi(b, |ts|, k);
      Ok(Batch(g, name, ts[lo], ts[hi] + 60 * dur, hi - lo + 1))
  }

  /** The fcc batch covers the whole group. */
  function FccBatch(g: int, ts: seq<int>, dur: int): Batch
    requires ts != []
  {
    Batch(g, FccName(g), ts[0], Last(ts) + 60 * dur, |ts|)
  }

  /** Timestamp `t` lies in the span of batch `x` (its window without the
      trailing file duration). */
  predicate InSpan(x: Batch, t: int, dur: int) {
    x.start <= t <= x.end - 60 * dur
  }

  lemma InSpanIsLabel(g: int, ts: seq<int>, k: int, dur: int, b: int, i: int)
    requires Increasing(ts) && 1 <= b <= k <= |ts| && RpBatch(g, ts, k, dur, b).Ok? && 0 <= i < |ts|
    ensures InSpan(RpBatch(g, ts, k, dur, b).value, ts[i], dur) <==> Bin(i, |ts|, k) == b
  {
    var n := |ts|;
    var lo, hi := Lo(b, n, k), Hi(b, n, k);
    BlockBounds(b, n, k);
    BinBlock(i, n, k, b);
    var x := RpBatch(g, ts, k, dur, b).value;
    assert x.start == ts[lo] && x.end - 60 * dur == ts[hi];
    IncreasingOrder(ts, lo, i);
    IncreasingOrder(ts, i, hi);
  }

  /** Positions and timestamps of strictly increasing timestamps are in the
      same order. */
  lemma IncreasingOrder(ts: seq<int>, a: int, b: int)
    requires Increasing(ts) && 0 <= a < |ts| && 0 <= b < |ts|
    ensures a <= b <==> ts[a] <= ts[b]
  {
    if a < b {
      assert ts[a] < ts[b];
    } else if b < a {
      assert ts[b] < ts[a];
    }
  }

  /** The rp batch of label `b` is the minimum and maximum timestamp and the
      number of the group's files that `qcut` labels `b`: a timestamp lies
      in the batch's span exactly when its position carries label `b`. */
  lemma {:induction false} RpBatchIsLabel(g: int, ts: seq<int>, k: int, dur: int, b: int)
    requires Increasing(ts) && 1 <= b <= k <= |ts| && RpBatch(g, ts, k, dur, b).Ok?
    ensures forall i :: 0 <= i < |ts| ==>
              (InSpan(RpBatch(g, ts, k, dur, b).value, ts[i], dur) <==> Bin(i, |ts|, k) == b)
    ensures exists i :: 0 <= i < |ts| && Bin(i, |ts|, k) == b && ts[i] == RpBatch(g, ts, k, dur, b).value.start
    ensures exists i :: 0 <= i < |ts| && Bin(i, |ts|, k) == b && ts[i] + 60 * dur == RpBatch(g, ts, k, dur, b).value.end
    ensures RpBatch(g, ts, k, dur, b).value.count == |LabelSet(|ts|, k, b)|
  {
    var n := |ts|;
    var lo, hi := Lo(b, n, k), Hi(b, n, k);
    forall i | 0 <= i < n
      ensures InSpan(RpBatch(g, ts, k, dur, b).value, ts[i], dur) <==> Bin(i, n, k) == b
    {
      InSpanIsLabel(g, ts, k, dur, b, i);
    }
    BlockBounds(b, n, k);
    BinBlock(lo, n, k, b);
    BinBlock(hi, n, k, b);
    LabelSetIsBlock(n, k, b);
  }

  /** Consecutive rp batches: their spans follow one another, and when the
      gap to the next file is at most one file duration the window of one
      batch reaches the first timestamp of the next, so that file is read by
      both batches. */
  lemma NextBatchOverlaps(g: int, ts: seq<int>, k: int, dur: int, b: int)
    requires Increasing(ts) && 1 <= b < k <= |ts|
    requires RpBatch(g, ts, k, dur, b).Ok? && RpBatch(g, ts, k, dur, b + 1).Ok?
    ensures RpBatch(g, ts, k, dur, b).value.end - 60 * dur < RpBatch(g, ts, k, dur, b + 1).value.start
    ensures RpBatch(g, ts, k, dur, b + 1).value.start - (RpBatch(g, ts, k, dur, b).value.end - 60 * dur) <= 60 * dur ==>
              RpBatch(g, ts, k, dur, b + 1).value.start <= RpBatch(g, ts, k, dur, b).value.end
  {
    BlockBounds(b, |ts|, k);
    BlockBounds(b + 1, |ts|, k);
  }

  /** The rp batches for labels `b..k`, in ascending order as
      `batches.unique()` lists them. */
  function RpBatches(g: int, ts: seq<int>, k: int, dur: int, b: int): (r: Result<seq<Batch>>)
    requires 1 <= b <= k + 1 && k <= |ts|
    ensures r.Ok? ==> |r.value| == k - b + 1
    ensures r.Ok? ==> forall j :: 0 <= j < |r.value| ==> RpBatch(g, ts, k, dur, b + j) == Ok(r.value[j])
    decreases k - b
  {
    if b > k then Ok([])
    else
      match RpBatch(g, ts, k, dur, b)
      case Err(e) => Err(e)
      case Ok(x) =>
        match RpBatches(g, ts, k, dur, b + 1)
        case Err(e) => Err(e)
        case Ok(xs) => Ok([x] + xs)
  }

  /** The batches of one group: `k` rp batches, then the fcc batch. */
  function GroupBatches(g: int, ts: seq<int>, k: int, dur: int): (r: Result<seq<Batch>>)
    requires 1 <= |ts| && k <= |ts|
    ensures r.Err? <==> k < 1 || (|ts| == 1 && k > 1) || RpBatches(g, ts, k, dur, 1).Err?
    ensures r.Ok? ==> |r.value| == k + 1 && Last(r.value) == FccBatch(g, ts, dur)
  {
    match QcutLabels(|ts|, k)
    case Err(e) => Err(e)
    case Ok(_) =>
      match RpBatches(g, ts, k, dur, 1)
      case Err(e) => Err(e)
      case Ok(rp) => Ok(rp + [FccBatch(g, ts, dur)])
  }

  /** Every file of the group falls in the span of exactly one rp batch, the
      one of its label, and the rp batches together count every file once. */
  lemma {:induction false} RpBatchesPartition(g: int, ts: seq<int>, k: int, dur: int)
    requires Increasing(ts) && 1 <= k <= |ts| && RpBatches(g, ts, k, dur, 1).Ok?
    ensures |RpBatches(g, ts, k, dur, 1).value| == k
    ensures forall i, j :: 0 <= i < |ts| && 0 <= j < k ==>
              (InSpan(RpBatches(g, ts, k, dur, 1).value[j], ts[i], dur) <==> Bin(i, |ts|, k) == j + 1)
    ensures forall i :: 0 <= i < |ts| ==> 1 <= Bin(i, |ts|, k) <= k
    ensures Sum(RpBatches(g, ts, k, dur, 1).value) == |ts|
  {
    var rp := RpBatches(g, ts, k, dur, 1).value;
    RpBatchesAreLabels(g, ts, k, dur, rp);
    forall i | 0 <= i < |ts| ensures 1 <= Bin(i, |ts|, k) <= k {
      BinBounds(i, |ts|, k);
    }
    SumBlocks(g, ts, k, dur, rp, k);
    assert rp[..k] == rp;
  }

  lemma RpBatchesAreLabels(g: int, ts: seq<int>, k: int, dur: int, rp: seq<Batch>)
    requires Increasing(ts) && 1 <= k <= |ts| && RpBatches(g, ts, k, dur, 1) == Ok(rp)
    ensures |rp| == k
    ensures forall b :: 1 <= b <= k ==> RpBatch(g, ts, k, dur, b) == Ok(rp[b - 1])
    ensures forall i, j :: 0 <= i < |ts| && 0 <= j < k ==> (InSpan(rp[j], ts[i], dur) <==> Bin(i, |ts|, k) == j + 1)
  {
    RpBatchesAt(g, ts, k, dur, rp);
    LabelSpans(g, ts, k, dur, rp);
  }

  /** Batches that are the labels' batches cover exactly their labels' files. */
  lemma LabelSpans(g: int, ts: seq<int>, k: int, dur: int, rp: seq<Batch>)
    requires Increasing(ts) && 1 <= k <= |ts| && |rp| == k
    requires forall b :: 1 <= b <= k ==> RpBatch(g, ts, k, dur, b) == Ok(rp[b - 1])
    ensures forall i, j :: 0 <= i < |ts| && 0 <= j < k ==> (InSpan(rp[j], ts[i], dur) <==> Bin(i, |ts|, k) == j + 1)
  {
    forall i, j | 0 <= i < |ts| && 0 <= j < k
      ensures InSpan(rp[j], ts[i], dur) <==> Bin(i, |ts|, k) == j + 1
    {
      assert RpBatch(g, ts, k, dur, j + 1) == Ok(rp[j]);
      InSpanIsLabel(g, ts, k, dur, j + 1, i);
    }
  }

  /** Batch `b` of the list is the batch of label `b`. */
  lemma RpBatchesAt(g: int, ts: seq<int>, k: int, dur: int, rp: seq<Batch>)
    requires 1 <= k <= |ts| && RpBatches(g, ts, k, dur, 1) == Ok(rp)
    ensures |rp| == k
    ensures forall b :: 1 <= b <= k ==> RpBatch(g, ts, k, dur, b) == Ok(rp[b - 1])
  {
    forall b | 1 <= b <= k ensures RpBatch(g, ts, k, dur, b) == Ok(rp[b - 1]) {
      assert RpBatch(g, ts, k, dur, 1 + (b - 1)) == Ok(rp[b - 1]);
    }
  }

  /** Total number of files over a list of batches. */
  function Sum(xs: seq<Batch>): int {
    if xs == [] then 0 else Sum(xs[..|xs| - 1]) + Last(xs).count
  }

  lemma {:induction false} SumBlocks(g: int, ts: seq<int>, k: int, dur: int, rp: seq<Batch>, m: int)
    requires 1 <= k <= |ts| && 0 <= m <= k && |rp| == k
    requires forall b :: 1 <= b <= k ==> RpBatch(g, ts, k, dur, b) == Ok(rp[b - 1])
    ensures Sum(rp[..m]) == if m == 0 then 0 else Hi(m, |ts|, k) + 1
    ensures m == k ==> Sum(rp[..m]) == |ts|
    decreases m
  {
    if m > 0 {
      SumBlocks(g, ts, k, dur, rp, m - 1);
      assert rp[..m][..m - 1] == rp[..m - 1];
      BlockBounds(m, |ts|, k);
      assert RpBatch(g, ts, k, dur, m) == Ok(rp[m - 1]);
      assert rp[m - 1].count == Hi(m, |ts|, k) - Lo(m, |ts|, k) + 1;
      if m > 1 {
        BlockBounds(m - 1, |ts|, k);
      }
    }
  }

  // ---------------------------------------------------------------------------
  // Batch project files

  /** `int(groupInfo['Timing', 'file_duration', 'first'])`, in minutes. */
  function Duration(c: Cell): (r: Result<int>)
    ensures c.Str? ==> (r.Ok? <==> ParseNat(c.s).Some?)
    ensures c.Int? ==> r == Ok(c.n)
  {
    match c
    case Int(n) => Ok(n)
    case Stat(x) => Ok(if x >= 0.0 then x.Floor else -((-x).Floor))
    case Str(t) =>
      match ParseNat(t)
      case None => Err("ValueError: invalid literal for int(): " + t)
      case Some(v) => Ok(v)
  }

  /** The project file of a batch: `{tempDir}\{project_id}.eddypro`. */
  function BatchFile(tempDir: string, projectId: string): string {
    tempDir + "\\" + projectId + ".eddypro"
  }

  /** As written, a batch counts as an rp batch when `_rp_` occurs anywhere
      in its file path, the temporary directory included. */
  predicate IsRpFileAsWritten(tempDir: string, projectId: string) {
    Contains(BatchFile(tempDir, projectId), "_rp_")
  }

  /** The intended test looks at the project id only. */
  predicate IsRpProject(projectId: string) {
    Contains(projectId, "_rp_")
  }

  /** A temporary directory whose path contains `_rp_` makes the fcc batch of
      group 1 look like an rp batch, so it is never added to the fcc list. */
  lemma RpDirectoryMisroutesFcc()
    ensures IsRpFileAsWritten("C:\\eddy_rp_runs\\temp", FccName(1))
    ensures !IsRpProject(FccName(1))
  {
    var f := BatchFile("C:\\eddy_rp_runs\\temp", FccName(1));
    assert f[7..11] == "_rp_";
    assert OccursAt(f, "_rp_", 7);
    FccIsNotRp(1);
  }

  /** Corrected test: every rp name is classified rp, and no fcc name is,
      wherever the temporary directory lives. */
  lemma RpNamesClassified(g: int, b: int)
    ensures RpName(g, b).Ok? ==> IsRpProject(RpName(g, b).value)
    ensures !IsRpProject(FccName(g))
  {
    if RpName(g, b).Ok? {
      var x := RpName(g, b).value;
      var d := IntToString(g);
      assert x[6 + |d|..6 + |d| + 4] == "_rp_";
      assert OccursAt(x, "_rp_", 6 + |d|);
    }
    FccIsNotRp(g);
  }

  lemma FccIsNotRp(g: int)
    ensures !IsRpProject(FccName(g))
  {
    var s := FccName(g);
    var d := IntToString(g);
    IntToStringChars(g);
    assert s == "group_" + d + "_fcc";
    forall j | 0 <= j < |s| && j != 1 ensures s[j] != 'r' {
      if 6 <= j < 6 + |d| {
        assert s[j] == d[j - 6];
      }
    }
    forall i | 0 <= i <= |s| ensures !OccursAt(s, "_rp_", i) {
      if i + 4 <= |s| {
        assert s[i..i + 4][0] == s[i] && s[i..i + 4][1] == s[i + 1];
        if i == 0 {
          assert s[i] != '_';
        } else {
          assert s[i + 1] != 'r';
        }
      }
    }
  }

  /** The inventory rows an rp batch runs on: timestamps inside the window
      whose `groupID` is the group, with the `source` and `filename` columns. */
  function RpRows(inv: Table<string>, g: int, start: int, end: int): (r: Table<string>)
    ensures r.Keys == set t | t in inv && start <= t <= end && t in Filters.GroupRows(inv, g)
    ensures forall t :: t in r ==> r[t].Keys <= {"source", "filename"}
    ensures forall t, c :: t in r && c in r[t] ==> c in inv[t] && r[t][c] == inv[t][c]
  {
    map t | t in inv && start <= t <= end && t in Filters.GroupRows(inv, g) ::
      map c | c in inv[t] && c in {"source", "filename"} :: inv[t][c]
  }

  /** `file_type`: 0 for LI-COR `.ghg` archives, 1 for anything else. */
  function FileType(prototype: string): (r: string)
    ensures r == "0" || r == "1"
  {
    if EndsWith(prototype, ".ghg") then "0" else "1"
  }

  /** One option of a batch's EddyPro configuration: the user's setting beats
      the evaluated dynamic setting (with backslashes turned into slashes),
      which beats the column map, which beats the static template. */
  function BatchSetting(section: string, option: string, value: string,
                        cols: Settings, dynamic: Settings, user: Settings): string
  {
    if HasSetting(user, section, option) then user[section][option]
    else if HasSetting(dynamic, section, option) then ReplaceAll(dynamic[section][option], "\\", "/")
    else if HasSetting(cols, section, option) then cols[section][option]
    else value
  }

  /** The configuration written for a batch: only the static template's
      options are written (a template section without options is not written
      at all), and each takes the highest-ranked setting available. */
  function GroupConfig(defaults: Settings, cols: Settings, dynamic: Settings, user: Settings): (r: Settings)
    ensures r.Keys == set s | s in defaults && defaults[s] != map[]
    ensures forall s :: s in r ==> r[s].Keys == defaults[s].Keys
    ensures forall s, o :: s in r && o in r[s] && HasSetting(user, s, o) ==> r[s][o] == user[s][o]
    ensures forall s, o :: s in r && o in r[s] && !HasSetting(user, s, o) && HasSetting(dynamic, s, o) ==> '\\' !in r[s][o]
    ensures forall s, o :: s in r && o in r[s] && !HasSetting(user, s, o) && !HasSetting(dynamic, s, o) ==>
              r[s][o] == if HasSetting(cols, s, o) then cols[s][o] else defaults[s][o]
  {
    forall s, o | HasSetting(dynamic, s, o) ensures '\\' !in ReplaceAll(dynamic[s][o], "\\", "/") {
      ReplaceCharRemoves(dynamic[s][o], '\\', "/");
    }
    map s | s in defaults && defaults[s] != map[] ::
      map o | o in defaults[s] :: BatchSetting(s, o, defaults[s][o], cols, dynamic, user)
  }

  // ---------------------------------------------------------------------------
  // The batches of every group (`setupGroups`)

  /** The columns of a table: every column some row has. */
  function TableColumns(t: Table<string>): set<string> {
    set ts, c | ts in t && c in t[ts] :: c
  }

  /** `dropna()`: the rows that have a value in every column. */
  function DropNa(t: Table<string>): (r: Table<string>)
    ensures r.Keys <= t.Keys
    ensures forall ts :: ts in t ==> (ts in r <==> TableColumns(t) <= t[ts].Keys)
    ensures forall ts :: ts in r ==> r[ts] == t[ts]
  {
    map ts | ts in t && TableColumns(t) <= t[ts].Keys :: t[ts]
  }

  /** The parameters of `batchesPerGroup`: the minimum-data table, the user's
      and the static settings, and the batch size limits. */
  datatype Sizing = Sizing(req: MinDataReq, user: Settings, defaults: Settings, bmin: int, bmax: int)

  /** A group's timestamps inside the date range, in time order. */
  function GroupTimes(inv: Table<string>, g: int, lo: int, hi: int): (ts: seq<int>)
    ensures Increasing(ts)
    ensures forall t :: t in ts <==> t in Filters.GroupRows(inv, g) && lo <= t <= hi
  {
    Sorted(set t | t in Filters.GroupRows(inv, g) && lo <= t <= hi)
  }

  /** `('Timing', 'file_duration')` of `configurationGroups`. */
  const DurationColumn: Column := ("Timing", "file_duration")

  function FileDuration(info: GroupInfo): Result<int> {
    if DurationColumn in info.first then Duration(info.first[DurationColumn]) else Err("KeyError: file_duration")
  }

  /** `('Custom', 'file_prototype')` of `configurationGroups`. */
  const PrototypeColumn: Column := ("Custom", "file_prototype")

  /** The `file_type` of a group's batches. A group without a prototype
      string (a missing value has no `endswith`) raises. */
  function BatchFileType(info: GroupInfo): (r: Result<string>)
    ensures r.Ok? <==> PrototypeColumn in info.first && info.first[PrototypeColumn].Str?
    ensures r.Ok? ==> (r.value == "0" <==> EndsWith(info.first[PrototypeColumn].s, ".ghg"))
  {
    if PrototypeColumn in info.first && info.first[PrototypeColumn].Str?
    then Ok(FileType(info.first[PrototypeColumn].s))
    else Err("AttributeError: file_prototype")
  }

  /** The batches `setupGroups` makes for one group: none when the group has
      no timestamp in the range; otherwise its rp batches and its fcc batch,
      after the recommended minimum is looked up, the batch count computed
      and the group's file duration and prototype read. */
  function GroupPlan(inv: Table<string>, g: int, info: GroupInfo, lo: int, hi: int,
                     processes: int, sz: Sizing): (r: Result<seq<Batch>>)
  {
    TimesPlan(g, GroupTimes(inv, g, lo, hi), info, processes, sz)
  }

  /** The plan of group `g` whose timestamps in the range are `ts`. */
  function TimesPlan(g: int, ts: seq<int>, info: GroupInfo, processes: int, sz: Sizing): (r: Result<seq<Batch>>)
    ensures ts == [] ==> r == Ok([])
    ensures ts != [] ==> (r.Ok? <==> RecommendedMinimum(sz.req, sz.user, sz.defaults).Ok?
                                     && BatchCount(|ts|, processes, sz.bmin, sz.bmax).Ok?
                                     && CutPlan(g, ts, BatchCount(|ts|, processes, sz.bmin, sz.bmax).value, info).Ok?)
  {
    if ts == [] then Ok([])
    else
      match RecommendedMinimum(sz.req, sz.user, sz.defaults)
      case Err(e) => Err(e)
      case Ok(_) =>
        match BatchCount(|ts|, processes, sz.bmin, sz.bmax)
        case Err(e) => Err(e)
        case Ok(k) =>
          CutPlan(g, ts, k, info)
  }

  /** The batches of a sized group: its file duration and batch file type
      are read, then its `k` rp batches and its fcc batch are cut. */
  function CutPlan(g: int, ts: seq<int>, k: int, info: GroupInfo): (r: Result<seq<Batch>>)
    requires 1 <= |ts| && k <= |ts|
    ensures r.Err? <==> FileDuration(info).Err? || BatchFileType(info).Err?
                        || GroupBatches(g, ts, k, FileDuration(info).value).Err?
  {
    match FileDuration(info)
    case Err(e) => Err(e)
    case Ok(dur) =>
      if BatchFileType(info).Err? then Err(BatchFileType(info).error)
      else GroupBatches(g, ts, k, dur)
  }

  /** The batches of the groups `ids`, in order. */
  function Plan(inv: Table<string>, groups: map<int, GroupInfo>, ids: seq<int>, lo: int, hi: int,
                processes: int, sz: Sizing): (r: Result<seq<Batch>>)
    requires forall i :: 0 <= i < |ids| ==> ids[i] in groups
    decreases |ids|
  {
    if ids == [] then Ok([])
    else
      match Plan(inv, groups, ids[..|ids| - 1], lo, hi, processes, sz)
      case Err(e) => Err(e)
      case Ok(bs) =>
        match GroupPlan(inv, Last(ids), groups[Last(ids)], lo, hi, processes, sz)
        case Err(e) => Err(e)
        case Ok(more) => Ok(bs + more)
  }

  /** `rpBatches` after `makeBatch` ran on the batches `bs` in order: each rp
      batch's file maps to its inventory rows. */
  function RpMap(bs: seq<Batch>, inv: Table<string>, tempDir: string): map<string, Table<string>>
    decreases |bs|
  {
    if bs == [] then map[]
    else
      var m := RpMap(bs[..|bs| - 1], inv, tempDir);
      var b := Last(bs);
      if IsRpProject(b.projectId) then m[BatchFile(tempDir, b.projectId) := RpRows(inv, b.group, b.start, b.end)] else m
  }

  /** `fccList` after `makeBatch` ran on the batches `bs` in order. */
  function FccFiles(bs: seq<Batch>, tempDir: string): seq<string>
    decreases |bs|
  {
    if bs == [] then []
    else
      var fs := FccFiles(bs[..|bs| - 1], tempDir);
      var b := Last(bs);
      if IsRpProject(b.projectId) then fs else fs + [BatchFile(tempDir, b.projectId)]
  }

  // ---------------------------------------------------------------------------
  // What the plan leaves in `rpBatches` and `fccList`

  /** `makeBatch` on one more batch. */
  lemma Snoc(bs: seq<Batch>, x: Batch, inv: Table<string>, tempDir: string)
    ensures RpMap(bs + [x], inv, tempDir) ==
      if IsRpProject(x.projectId) then RpMap(bs, inv, tempDir)[BatchFile(tempDir, x.projectId) := RpRows(inv, x.group, x.start, x.end)]
      else RpMap(bs, inv, tempDir)
    ensures FccFiles(bs + [x], tempDir) ==
      if IsRpProject(x.projectId) then FccFiles(bs, tempDir) else FccFiles(bs, tempDir) + [BatchFile(tempDir, x.projectId)]
  {
    assert (bs + [x])[..|bs|] == bs;
  }

  /** `makeBatch` on the `j`-th batch of a group, after `done`. */
  lemma SnocPrefix(done: seq<Batch>, bs: seq<Batch>, j: int, inv: Table<string>, tempDir: string)
    requires 0 <= j < |bs|
    ensures RpMap(done + bs[..j + 1], inv, tempDir) ==
      if IsRpProject(bs[j].projectId)
      then RpMap(done + bs[..j], inv, tempDir)[BatchFile(tempDir, bs[j].projectId) := RpRows(inv, bs[j].group, bs[j].start, bs[j].end)]
      else RpMap(done + bs[..j], inv, tempDir)
    ensures FccFiles(done + bs[..j + 1], tempDir) ==
      if IsRpProject(bs[j].projectId) then FccFiles(done + bs[..j], tempDir)
      else FccFiles(done + bs[..j], tempDir) + [BatchFile(tempDir, bs[j].projectId)]
  {
    assert done + bs[..j + 1] == (done + bs[..j]) + [bs[j]];
    Snoc(done + bs[..j], bs[j], inv, tempDir);
  }

  /** The fcc files of the groups `ids`, one for each group with at least
      one timestamp in the range, in group order. */
  function FccPlan(inv: Table<string>, ids: seq<int>, lo: int, hi: int, tempDir: string): seq<string>
    decreases |ids|
  {
    if ids == [] then []
    else
      var fs := FccPlan(inv, ids[..|ids| - 1], lo, hi, tempDir);
      if GroupTimes(inv, Last(ids), lo, hi) == [] then fs else fs + [BatchFile(tempDir, FccName(Last(ids)))]
  }

  lemma {:induction false} FccFilesAppend(a: seq<Batch>, b: seq<Batch>, tempDir: string)
    ensures FccFiles(a + b, tempDir) == FccFiles(a, tempDir) + FccFiles(b, tempDir)
    decreases |b|
  {
    if b != [] {
      var n := |b| - 1;
      assert (a + b)[..|a + b| - 1] == a + b[..n];
      assert Last(a + b) == Last(b);
      FccFilesAppend(a, b[..n], tempDir);
    } else {
      assert a + b == a;
    }
  }

  /** The batches of one group add its fcc file and nothing else to the fcc
      list: every rp batch is recognised as one. */
  lemma {:induction false} GroupFcc(g: int, ts: seq<int>, k: int, dur: int, tempDir: string)
    requires 1 <= |ts| && k <= |ts| && GroupBatches(g, ts, k, dur).Ok?
    ensures FccFiles(GroupBatches(g, ts, k, dur).value, tempDir) == [BatchFile(tempDir, FccName(g))]
  {
    var rp := RpBatches(g, ts, k, dur, 1).value;
    RpFccFree(g, ts, k, dur, 1, rp, tempDir);
    FccFilesAppend(rp, [FccBatch(g, ts, dur)], tempDir);
    FccIsNotRp(g);
    assert FccFiles([FccBatch(g, ts, dur)], tempDir) == FccFiles([], tempDir) + [BatchFile(tempDir, FccName(g))];
  }

  lemma RpFccFree(g: int, ts: seq<int>, k: int, dur: int, b: int, rp: seq<Batch>, tempDir: string)
    requires 1 <= b <= k + 1 && k <= |ts| && RpBatches(g, ts, k, dur, b) == Ok(rp)
    ensures FccFiles(rp, tempDir) == []
  {
    RpFccFreePrefix(g, ts, k, dur, b, rp, |rp|, tempDir);
    assert rp[..|rp|] == rp;
  }

  lemma {:induction false} RpFccFreePrefix(g: int, ts: seq<int>, k: int, dur: int, b: int, rp: seq<Batch>, m: int, tempDir: string)
    requires 1 <= b <= k + 1 && k <= |ts| && RpBatches(g, ts, k, dur, b) == Ok(rp) && 0 <= m <= |rp|
    ensures FccFiles(rp[..m], tempDir) == []
    decreases m
  {
    if m > 0 {
      RpFccFreePrefix(g, ts, k, dur, b, rp, m - 1, tempDir);
      assert rp[..m][..m - 1] == rp[..m - 1];
      assert RpBatch(g, ts, k, dur, b + (m - 1)) == Ok(rp[m - 1]);
      RpNamesClassified(g, b + (m - 1));
    }
  }

  /** The plan of the first `i + 1` groups extends that of the first `i`
      with group `ids[i]`'s batches, or fails with it. */
  lemma PlanStep(inv: Table<string>, groups: map<int, GroupInfo>, ids: seq<int>, i: int,
                 lo: int, hi: int, processes: int, sz: Sizing, done: seq<Batch>)
    requires forall j :: 0 <= j < |ids| ==> ids[j] in groups
    requires 0 <= i < |ids| && Plan(inv, groups, ids[..i], lo, hi, processes, sz) == Ok(done)
    ensures var r := GroupPlan(inv, ids[i], groups[ids[i]], lo, hi, processes, sz);
      (r.Ok? ==> Plan(inv, groups, ids[..i + 1], lo, hi, processes, sz) == Ok(done + r.value))
      && (r.Err? ==> Plan(inv, groups, ids, lo, hi, processes, sz).Err?)
  {
    assert ids[..i + 1][..i] == ids[..i] && Last(ids[..i + 1]) == ids[i];
    if GroupPlan(inv, ids[i], groups[ids[i]], lo, hi, processes, sz).Err? {
      PlanErrPersists(inv, groups, ids, i + 1, lo, hi, processes, sz);
    }
  }

  /** A failed group makes the whole plan fail. */
  lemma {:induction false} PlanErrPersists(inv: Table<string>, groups: map<int, GroupInfo>, ids: seq<int>, m: int,
                                           lo: int, hi: int, processes: int, sz: Sizing)
    requires forall i :: 0 <= i < |ids| ==> ids[i] in groups
    requires 0 <= m <= |ids| && Plan(inv, groups, ids[..m], lo, hi, processes, sz).Err?
    ensures Plan(inv, groups, ids, lo, hi, processes, sz).Err?
    decreases |ids| - m
  {
    if m < |ids| {
      assert ids[..m + 1][..m] == ids[..m];
      PlanErrPersists(inv, groups, ids, m + 1, lo, hi, processes, sz);
    } else {
      assert ids[..m] == ids;
    }
  }

  /** `fccList` holds exactly one fcc file per group that has a timestamp in
      the date range, in group order; a group without one gets no batch at
      all. */
  lemma {:induction false} PlanFcc(inv: Table<string>, groups: map<int, GroupInfo>, ids: seq<int>, lo: int, hi: int,
                                   processes: int, sz: Sizing, tempDir: string)
    requires forall i :: 0 <= i < |ids| ==> ids[i] in groups
    requires Plan(inv, groups, ids, lo, hi, processes, sz).Ok?
    ensures FccFiles(Plan(inv, groups, ids, lo, hi, processes, sz).value, tempDir) == FccPlan(inv, ids, lo, hi, tempDir)
    decreases |ids|
  {
    if ids != [] {
      var g := Last(ids);
      var init := ids[..|ids| - 1];
      PlanFcc(inv, groups, init, lo, hi, processes, sz, tempDir);
      var bs := Plan(inv, groups, init, lo, hi, processes, sz).value;
      var more := GroupPlan(inv, g, groups[g], lo, hi, processes, sz).value;
      FccFilesAppend(bs, more, tempDir);
      var ts := GroupTimes(inv, g, lo, hi);
      if ts != [] {
        var k := BatchCount(|ts|, processes, sz.bmin, sz.bmax).value;
        GroupFcc(g, ts, k, FileDuration(groups[g]).value, tempDir);
      }
    }
  }

  /** Every rp batch has its project file in `rpBatches`, and nothing else
      does. */
  lemma {:induction false} RpMapKeys(bs: seq<Batch>, inv: Table<string>, tempDir: string)
    ensures forall f :: f in RpMap(bs, inv, tempDir) <==>
      exists j :: 0 <= j < |bs| && IsRpProject(bs[j].projectId) && f == BatchFile(tempDir, bs[j].projectId)
    decreases |bs|
  {
    if bs != [] {
      var n := |bs| - 1;
      RpMapKeys(bs[..n], inv, tempDir);
      assert forall j :: 0 <= j < n ==> bs[..n][j] == bs[j];
    }
  }

  /** The file of an rp batch whose id no later batch reuses maps to that
      batch's inventory rows. */
  lemma {:induction false} RpMapValue(bs: seq<Batch>, inv: Table<string>, tempDir: string, j: int)
    requires 0 <= j < |bs| && IsRpProject(bs[j].projectId)
    requires forall i :: j < i < |bs| ==> bs[i].projectId != bs[j].projectId
    ensures BatchFile(tempDir, bs[j].projectId) in RpMap(bs, inv, tempDir)
    ensures RpMap(bs, inv, tempDir)[BatchFile(tempDir, bs[j].projectId)] == RpRows(inv, bs[j].group, bs[j].start, bs[j].end)
    decreases |bs|
  {
    var n := |bs| - 1;
    if j < n {
      assert bs[..n][j] == bs[j];
      RpMapValue(bs[..n], inv, tempDir, j);
      BatchFileInjective(tempDir, bs[n].projectId, bs[j].projectId);
    }
  }

  lemma BatchFileInjective(tempDir: string, a: string, b: string)
    requires a != b
    ensures BatchFile(tempDir, a) != BatchFile(tempDir, b)
  {
    var fa, fb := BatchFile(tempDir, a), BatchFile(tempDir, b);
    var p := tempDir + "\\";
    if |a| == |b| {
      var i :| 0 <= i < |a| && a[i] != b[i];
      assert fa[|p| + i] == a[i] && fb[|p| + i] == b[i];
    } else {
      assert |fa| != |fb|;
    }
  }
}

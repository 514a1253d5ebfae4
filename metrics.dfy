/** The dashboard's row filters and the degradation-per-x bar chart: the
    sidebar selection, the inclusive age, odometer, daily-SOC and DC-ratio
    ranges, the rows the scatter plot shows, and the per-battery average of
    Degradation divided by the chosen x column. */
module Metrics {
  import opened Text
  import opened Seqs
  import opened Records

  // ---------------------------------------------------------------------------
  // Row filters

  /** The three sidebar multiselects; an empty choice selects everything. */
  datatype Selection = Selection(teslas: seq<string>, versions: seq<string>, batteries: seq<string>)

  predicate Selected(sel: Selection, r: Record) {
    && (sel.teslas == [] || r.tesla in sel.teslas)
    && (sel.versions == [] || r.version in sel.versions)
    && (sel.batteries == [] || r.battery in sel.batteries)
  }

  /** The rows matching every non-empty multiselect, in table order. */
  function SelectRows(rows: seq<Record>, sel: Selection): (r: seq<Record>)
    ensures forall x :: x in r <==> x in rows && Selected(sel, x)
    ensures forall x :: multiset(r)[x] == if Selected(sel, x) then multiset(rows)[x] else 0
  {
    Filter(rows, (x: Record) => Selected(sel, x))
  }

  /** With nothing selected the whole table is kept. */
  lemma NoSelectionKeepsAll(rows: seq<Record>)
    ensures SelectRows(rows, Selection([], [], [])) == rows
  {
    FilterKeepsAll(rows, x => Selected(Selection([], [], []), x));
  }

  /** An inclusive range on one numeric column. */
  datatype Bounds = Bounds(lo: real, hi: real)

  /** The age range, then the odometer range, both inclusive. */
  function AgeOdometerRows(rows: seq<Record>, age: Bounds, odometer: Bounds): (r: seq<Record>)
    ensures forall x :: x in r <==> (x in rows && InRange(x.age, age.lo, age.hi)
      && InRange(x.odometer, odometer.lo, odometer.hi))
    ensures forall x :: (multiset(r)[x] ==
      if InRange(x.age, age.lo, age.hi) && InRange(x.odometer, odometer.lo, odometer.hi)
      then multiset(rows)[x] else 0)
  {
    Filter(Filter(rows, (x: Record) => InRange(x.age, age.lo, age.hi)),
           (x: Record) => InRange(x.odometer, odometer.lo, odometer.hi))
  }

  /** An optional range on Daily SOC Limit and one on DC Ratio, applied only
      when their checkboxes are ticked. */
  function SocDcRows(rows: seq<Record>, soc: Option<Bounds>, dc: Option<Bounds>): (r: seq<Record>)
    ensures forall x :: x in r <==> (x in rows
      && (soc.Some? ==> InRange(x.dailySocLimit, soc.value.lo, soc.value.hi))
      && (dc.Some? ==> InRange(x.dcRatio, dc.value.lo, dc.value.hi)))
    ensures forall x :: (multiset(r)[x] ==
      if (soc.Some? ==> InRange(x.dailySocLimit, soc.value.lo, soc.value.hi))
        && (dc.Some? ==> InRange(x.dcRatio, dc.value.lo, dc.value.hi))
      then multiset(rows)[x] else 0)
  {
    var afterSoc := if soc.Some? then Filter(rows, (x: Record) => InRange(x.dailySocLimit, soc.value.lo, soc.value.hi)) else rows;
    if dc.Some? then Filter(afterSoc, (x: Record) => InRange(x.dcRatio, dc.value.lo, dc.value.hi)) else afterSoc
  }

  /** Everything the sidebar chooses. */
  datatype Settings = Settings(sel: Selection, age: Bounds, odometer: Bounds,
                               soc: Option<Bounds>, dc: Option<Bounds>)

  /** The filtered table: selection, age and odometer ranges, the optional
      SOC and DC ranges, and the age and odometer ranges once more. */
  function FilteredRows(rows: seq<Record>, s: Settings): (r: seq<Record>)
    ensures forall x :: x in r ==> x in rows && Selected(s.sel, x)
  {
    var selected := SelectRows(rows, s.sel);
    var ranged := AgeOdometerRows(selected, s.age, s.odometer);
    AgeOdometerRows(SocDcRows(ranged, s.soc, s.dc), s.age, s.odometer)
  }

  /** Applying the age and odometer ranges a second time changes nothing,
      and the filtered table holds exactly the rows meeting every condition. */
  lemma FilteredRowsSpec(rows: seq<Record>, s: Settings)
    ensures FilteredRows(rows, s) ==
      SocDcRows(AgeOdometerRows(SelectRows(rows, s.sel), s.age, s.odometer), s.soc, s.dc)
    ensures forall x :: x in FilteredRows(rows, s) <==> (x in rows && Selected(s.sel, x)
      && InRange(x.age, s.age.lo, s.age.hi) && InRange(x.odometer, s.odometer.lo, s.odometer.hi)
      && (s.soc.Some? ==> InRange(x.dailySocLimit, s.soc.value.lo, s.soc.value.hi))
      && (s.dc.Some? ==> InRange(x.dcRatio, s.dc.value.lo, s.dc.value.hi)))
  {
    var t := SocDcRows(AgeOdometerRows(SelectRows(rows, s.sel), s.age, s.odometer), s.soc, s.dc);
    FilterKeepsAll(t, (x: Record) => InRange(x.age, s.age.lo, s.age.hi));
    FilterKeepsAll(t, (x: Record) => InRange(x.odometer, s.odometer.lo, s.odometer.hi));
  }

  // ---------------------------------------------------------------------------
  // Axes

  datatype XAxis = AgeAxis | OdometerAxis | CyclesAxis
  datatype YAxis = DegradationAxis | CapacityAxis | RatedRangeAxis

  function XValue(r: Record, x: XAxis): Option<real> {
    match x
    case AgeAxis => r.age
    case OdometerAxis => r.odometer
    case CyclesAxis => r.cycles
  }

  function YValue(r: Record, y: YAxis): Option<real> {
    match y
    case DegradationAxis => r.degradation
    case CapacityAxis => r.capacity
    case RatedRangeAxis => r.ratedRange
  }

  /** The rows the scatter plot shows: a positive x value and a y value. */
  function PlotRows(rows: seq<Record>, x: XAxis, y: YAxis): (r: seq<Record>)
    ensures forall p :: p in r <==> (p in rows && XValue(p, x).Some? && XValue(p, x).value > 0.0
      && YValue(p, y).Some?)
    ensures |r| <= |rows|
  {
    Filter(rows, (p: Record) => XValue(p, x).Some? && XValue(p, x).value > 0.0 && YValue(p, y).Some?)
  }

  // ---------------------------------------------------------------------------
  // Degradation per x

  /** Odometer is counted in thousands of kilometres, Age and Cycles as is. */
  function Divisor(x: XAxis): (d: real)
    ensures d > 0.0
  {
    if x == OdometerAxis then 1000.0 else 1.0
  }

  /** Degradation / (x / divisor) for one row; null when either value is
      missing, when x is zero (an infinite or undefined quotient) or when the
      quotient is zero. */
  function RatioOf(r: Record, x: XAxis): (q: Option<real>)
    ensures q.Some? <==> (r.degradation.Some? && XValue(r, x).Some? && XValue(r, x).value != 0.0
      && r.degradation.value != 0.0)
    ensures q.Some? ==> q.value != 0.0 && q.value * (XValue(r, x).value / Divisor(x)) == r.degradation.value
  {
    match (r.degradation, XValue(r, x))
    case (Some(d), Some(v)) =>
      if v == 0.0 then None
      else
        var q := d / (v / Divisor(x));
        if q == 0.0 then None else Some(q)
    case _ => None
  }

  /** The (battery, ratio) pairs of the rows with a ratio, in table order. */
  function Ratios(rows: seq<Record>, x: XAxis): (ps: seq<(string, real)>)
    ensures |ps| <= |rows|
    ensures forall p :: p in ps <==> exists r :: r in rows && RatioOf(r, x) == Some(p.1) && r.battery == p.0
  {
    if rows == [] then []
    else
      var rest := Ratios(rows[1..], x);
      assert forall r :: r in rows <==> r == rows[0] || r in rows[1..];
      match RatioOf(rows[0], x)
      case None => rest
      case Some(q) => [(rows[0].battery, q)] + rest
  }

  /** Sum and number of the ratios of battery `b`. */
  function Total(ps: seq<(string, real)>, b: string): real {
    if ps == [] then 0.0 else (if ps[0].0 == b then ps[0].1 else 0.0) + Total(ps[1..], b)
  }

  function Count(ps: seq<(string, real)>, b: string): nat {
    if ps == [] then 0 else (if ps[0].0 == b then 1 else 0) + Count(ps[1..], b)
  }

  /** A battery has a ratio exactly when its count is positive. */
  lemma {:induction false} CountPositive(ps: seq<(string, real)>, b: string)
    ensures Count(ps, b) > 0 <==> exists p :: p in ps && p.0 == b
  {
    if ps != [] {
      assert forall p :: p in ps <==> p == ps[0] || p in ps[1..];
      CountPositive(ps[1..], b);
    }
  }

  /** The mean of the ratios of battery `b`. */
  function Mean(ps: seq<(string, real)>, b: string): real
    requires Count(ps, b) > 0
  {
    Total(ps, b) / Count(ps, b) as real
  }

  /** The number of rows of battery `b` that have a ratio. */
  function RowsWithRatio(rows: seq<Record>, x: XAxis, b: string): nat {
    if rows == [] then 0
    else (if rows[0].battery == b && RatioOf(rows[0], x).Some? then 1 else 0) + RowsWithRatio(rows[1..], x, b)
  }

  /** The sum of the ratios of the rows of battery `b`. */
  function RatioSum(rows: seq<Record>, x: XAxis, b: string): real {
    if rows == [] then 0.0
    else
      (if rows[0].battery == b && RatioOf(rows[0], x).Some? then RatioOf(rows[0], x).value else 0.0)
        + RatioSum(rows[1..], x, b)
  }

  /** The pairs hold one entry per row with a ratio: a battery's count and
      total over the pairs are its count and sum over the rows. */
  lemma {:induction false} RatiosPerRow(rows: seq<Record>, x: XAxis, b: string)
    ensures Count(Ratios(rows, x), b) == RowsWithRatio(rows, x, b)
    ensures Total(Ratios(rows, x), b) == RatioSum(rows, x, b)
  {
    if rows != [] {
      RatiosPerRow(rows[1..], x, b);
      var rest := Ratios(rows[1..], x);
      match RatioOf(rows[0], x)
      case None =>
      case Some(q) =>
        assert ([(rows[0].battery, q)] + rest)[1..] == rest;
    }
  }

  lemma AddOne(c: real, v: real)
    ensures (c + 1.0) * v == c * v + v
  {
  }

  /** A battery's total is at least count * lo when all its ratios are. */
  lemma {:induction false} TotalAtLeast(ps: seq<(string, real)>, b: string, lo: real)
    requires forall i :: 0 <= i < |ps| && ps[i].0 == b ==> lo <= ps[i].1
    ensures Count(ps, b) as real * lo <= Total(ps, b)
  {
    if ps != [] {
      TotalAtLeast(ps[1..], b, lo);
      if ps[0].0 == b {
        AddOne(Count(ps[1..], b) as real, lo);
      }
    }
  }

  /** A battery's total is at most count * hi when all its ratios are. */
  lemma {:induction false} TotalAtMost(ps: seq<(string, real)>, b: string, hi: real)
    requires forall i :: 0 <= i < |ps| && ps[i].0 == b ==> ps[i].1 <= hi
    ensures Total(ps, b) <= Count(ps, b) as real * hi
  {
    if ps != [] {
      TotalAtMost(ps[1..], b, hi);
      if ps[0].0 == b {
        AddOne(Count(ps[1..], b) as real, hi);
      }
    }
  }

  /** A battery whose ratios are all negative has a negative total. */
  lemma {:induction false} TotalNegative(ps: seq<(string, real)>, b: string)
    requires forall i :: 0 <= i < |ps| && ps[i].0 == b ==> ps[i].1 < 0.0
    ensures Total(ps, b) <= 0.0
    ensures Count(ps, b) > 0 ==> Total(ps, b) < 0.0
  {
    if ps != [] {
      TotalNegative(ps[1..], b);
    }
  }

  lemma QuotientBetween(t: real, n: real, lo: real, hi: real)
    requires n > 0.0 && n * lo <= t <= n * hi
    ensures lo <= t / n <= hi
  {
    var m := t / n;
    assert t == m * n;
    assert (m - lo) * n == t - n * lo;
    assert (hi - m) * n == n * hi - t;
  }

  /** A mean lies between the smallest and largest of its values. */
  lemma MeanBetween(ps: seq<(string, real)>, b: string, lo: real, hi: real)
    requires Count(ps, b) > 0
    requires forall p :: p in ps && p.0 == b ==> lo <= p.1 <= hi
    ensures lo <= Mean(ps, b) <= hi
  {
    assert forall i :: 0 <= i < |ps| ==> ps[i] in ps;
    TotalAtLeast(ps, b, lo);
    TotalAtMost(ps, b, hi);
    QuotientBetween(Total(ps, b), Count(ps, b) as real, lo, hi);
  }

  /** The batteries that have a ratio, in ascending order (groupby sorts its
      keys). */
  function Keys(ps: seq<(string, real)>): (ks: seq<string>)
    ensures StrictlySorted(ks)
    ensures forall b :: b in ks <==> exists p :: p in ps && p.0 == b
  {
    if ps == [] then []
    else
      assert forall p :: p in ps <==> p == ps[0] || p in ps[1..];
      Insert(Keys(ps[1..]), ps[0].0)
  }

  /** One (battery, mean) pair per battery, in key order. */
  function GroupMeans(ps: seq<(string, real)>): (g: seq<(string, real)>)
    ensures |g| == |Keys(ps)|
    ensures forall i :: 0 <= i < |g| ==> (g[i].0 == Keys(ps)[i] && Count(ps, g[i].0) > 0
      && g[i].1 == Mean(ps, g[i].0))
  {
    var ks := Keys(ps);
    assert forall k :: 0 <= k < |ks| ==> Count(ps, ks[k]) > 0 by {
      forall k | 0 <= k < |ks| ensures Count(ps, ks[k]) > 0 {
        assert ks[k] in ks;
        CountPositive(ps, ks[k]);
      }
    }
    seq(|ks|, i requires 0 <= i < |ks| => (ks[i], Mean(ps, ks[i])))
  }

  predicate SortedByValue(s: seq<(string, real)>) {
    forall i, j :: 0 <= i < j < |s| ==> s[i].1 <= s[j].1
  }

  /** An entry no larger than the head of a sorted list keeps it sorted. */
  lemma SortedCons(x: (string, real), t: seq<(string, real)>)
    requires SortedByValue(t) && (t == [] || x.1 <= t[0].1)
    ensures SortedByValue([x] + t)
  {
    var r := [x] + t;
    forall i, j | 0 <= i < j < |r| ensures r[i].1 <= r[j].1 {
      if i == 0 && j > 1 {
        assert r[1] == t[0] && r[j] == t[j - 1];
      }
    }
  }

  /** Inserts `p` before the first entry with a larger value. */
  function InsertByValue(s: seq<(string, real)>, p: (string, real)): (r: seq<(string, real)>)
    requires SortedByValue(s)
    ensures SortedByValue(r)
    ensures multiset(r) == multiset(s) + multiset{p}
    ensures r[0] == p || (s != [] && r[0] == s[0])
  {
    if s == [] then [p]
    else if p.1 <= s[0].1 then
      SortedCons(p, s);
      [p] + s
    else
      var t := InsertByValue(s[1..], p);
      assert s == [s[0]] + s[1..];
      assert t[0] == p || t[0] == s[1];
      SortedCons(s[0], t);
      [s[0]] + t
  }

  /** `sort_values` ascending: the same entries, ordered by value. */
  function SortByValue(s: seq<(string, real)>): (r: seq<(string, real)>)
    ensures SortedByValue(r)
    ensures multiset(r) == multiset(s)
  {
    if s == [] then []
    else
      assert s == [s[0]] + s[1..];
      InsertByValue(SortByValue(s[1..]), s[0])
  }

  /** The bar chart: per-battery mean degradation per x, ascending. */
  function AverageDegradation(rows: seq<Record>, x: XAxis): (bars: seq<(string, real)>)
    ensures SortedByValue(bars)
    ensures forall p :: p in bars ==> HasRatio(rows, x, p.0)
  {
    var g := GroupMeans(Ratios(rows, x));
    SortKeepsEntries(g);
    assert forall p :: p in g ==> HasBar(g, p.0);
    assert forall b :: HasBar(g, b) ==> HasRatio(rows, x, b) by {
      forall b | HasBar(g, b) ensures HasRatio(rows, x, b) {
        GroupIffRatio(rows, x, b);
      }
    }
    SortByValue(g)
  }

  predicate HasBar(bars: seq<(string, real)>, b: string) {
    exists p :: p in bars && p.0 == b
  }

  predicate HasRatio(rows: seq<Record>, x: XAxis, b: string) {
    exists r :: r in rows && r.battery == b && RatioOf(r, x).Some?
  }

  /** Sorting keeps the entries and their number. */
  lemma SortKeepsEntries(g: seq<(string, real)>)
    ensures |SortByValue(g)| == |g|
    ensures forall p :: p in SortByValue(g) <==> p in g
  {
    var bars := SortByValue(g);
    assert |bars| == |multiset(bars)| == |multiset(g)| == |g|;
    forall p ensures p in bars <==> p in g {
      assert p in bars <==> p in multiset(bars);
      assert p in g <==> p in multiset(g);
    }
  }

  /** A battery has a group exactly when one of its rows has a ratio. */
  lemma GroupIffRatio(rows: seq<Record>, x: XAxis, b: string)
    ensures HasBar(GroupMeans(Ratios(rows, x)), b) <==> HasRatio(rows, x, b)
  {
    var ps := Ratios(rows, x);
    var g := GroupMeans(ps);
    if HasBar(g, b) {
      var p :| p in g && p.0 == b;
      var i :| 0 <= i < |g| && g[i] == p;
      assert b in Keys(ps);
      var q :| q in ps && q.0 == b;
    }
    if HasRatio(rows, x, b) {
      var r :| r in rows && r.battery == b && RatioOf(r, x).Some?;
      assert (b, RatioOf(r, x).value) in ps;
      assert b in Keys(ps);
      var i :| 0 <= i < |Keys(ps)| && Keys(ps)[i] == b;
      assert g[i] in g;
    }
  }

  /** Every bar is one battery with at least one ratio and carries that
      battery's mean; every battery with a ratio has a bar; the bars ascend
      and there are exactly as many as there are such batteries. */
  lemma AverageDegradationSpec(rows: seq<Record>, x: XAxis)
    ensures SortedByValue(AverageDegradation(rows, x))
    ensures |AverageDegradation(rows, x)| == |Keys(Ratios(rows, x))|
    ensures forall b :: HasBar(AverageDegradation(rows, x), b) <==> HasRatio(rows, x, b)
    ensures forall p :: p in AverageDegradation(rows, x) ==>
      Count(Ratios(rows, x), p.0) > 0 && p.1 == Mean(Ratios(rows, x), p.0)
  {
    var ps := Ratios(rows, x);
    var g := GroupMeans(ps);
    var bars := SortByValue(g);
    SortKeepsEntries(g);
    forall p | p in bars ensures Count(ps, p.0) > 0 && p.1 == Mean(ps, p.0) {
      var i :| 0 <= i < |g| && g[i] == p;
    }
    forall b ensures HasBar(bars, b) <==> HasRatio(rows, x, b) {
      GroupIffRatio(rows, x, b);
      assert HasBar(bars, b) <==> HasBar(g, b);
    }
  }

  /** Each bar is the plain average over the battery's rows that have a
      ratio, every such row counted once. */
  lemma BarsAreRowMeans(rows: seq<Record>, x: XAxis)
    ensures forall p :: p in AverageDegradation(rows, x) ==>
      RowsWithRatio(rows, x, p.0) > 0
      && p.1 == RatioSum(rows, x, p.0) / RowsWithRatio(rows, x, p.0) as real
  {
    AverageDegradationSpec(rows, x);
    forall p | p in AverageDegradation(rows, x)
      ensures RowsWithRatio(rows, x, p.0) > 0
      ensures p.1 == RatioSum(rows, x, p.0) / RowsWithRatio(rows, x, p.0) as real
    {
      RatiosPerRow(rows, x, p.0);
    }
  }

  lemma NegativeFactor(q: real, v: real)
    requires v > 0.0 && q * v <= 0.0 && q != 0.0
    ensures q < 0.0
  {
  }

  /** A quotient of a non-positive degradation by a non-negative x is
      negative whenever it is kept. */
  lemma RatioNegative(r: Record, x: XAxis)
    requires r.degradation.Some? ==> r.degradation.value <= 0.0
    requires XValue(r, x).Some? ==> XValue(r, x).value >= 0.0
    ensures RatioOf(r, x).Some? ==> RatioOf(r, x).value < 0.0
  {
    if RatioOf(r, x).Some? {
      var v := XValue(r, x).value / Divisor(x);
      assert v > 0.0;
      NegativeFactor(RatioOf(r, x).value, v);
    }
  }

  lemma RatiosNegative(rows: seq<Record>, x: XAxis)
    requires forall r :: r in rows && r.degradation.Some? ==> r.degradation.value <= 0.0
    requires forall r :: r in rows && XValue(r, x).Some? ==> XValue(r, x).value >= 0.0
    ensures forall i :: 0 <= i < |Ratios(rows, x)| ==> Ratios(rows, x)[i].1 < 0.0
  {
    var ps := Ratios(rows, x);
    forall i | 0 <= i < |ps| ensures ps[i].1 < 0.0 {
      var p := ps[i];
      assert p in ps;
      var r :| r in rows && RatioOf(r, x) == Some(p.1) && r.battery == p.0;
      RatioNegative(r, x);
    }
  }

  /** The mean of negative ratios is negative. */
  lemma MeanNegative(ps: seq<(string, real)>, b: string)
    requires Count(ps, b) > 0
    requires forall i :: 0 <= i < |ps| ==> ps[i].1 < 0.0
    ensures Mean(ps, b) < 0.0
  {
    TotalNegative(ps, b);
    var n := Count(ps, b) as real;
    assert Mean(ps, b) * n == Total(ps, b);
  }

  /** With degradations never positive (as the Degradation cell conversion
      guarantees) and x values never negative, every bar is negative. */
  lemma AveragesNegative(rows: seq<Record>, x: XAxis)
    requires forall r :: r in rows && r.degradation.Some? ==> r.degradation.value <= 0.0
    requires forall r :: r in rows && XValue(r, x).Some? ==> XValue(r, x).value >= 0.0
    ensures forall p :: p in AverageDegradation(rows, x) ==> p.1 < 0.0
  {
    var ps := Ratios(rows, x);
    RatiosNegative(rows, x);
    AverageDegradationSpec(rows, x);
    forall p | p in AverageDegradation(rows, x) ensures p.1 < 0.0 {
      MeanNegative(ps, p.0);
    }
  }

  /** 10 % lost over 100 000 km is 0.1 % per 1000 km. */
  lemma RatioExample(r: Record)
    requires r.degradation == Some(-10.0) && r.odometer == Some(100000.0)
    ensures RatioOf(r, OdometerAxis) == Some(-0.1)
  {
  }
}

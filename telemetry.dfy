/** The per-file telemetry cleaning of the performance page: pandas' forward and
    backward fill, boolean row selection on a frame of columns, the range and
    speed filters and the plotted channels built from what survives. */
module Telemetry {
  import opened Text

  /** One column of a CSV log; None stands for NaN. */
  type Column = seq<Option<real>>

  // ---------------------------------------------------------------------------
  // ffill / bfill

  /** The last present value of `c`, or None when every cell is missing. */
  function LastPresent(c: Column): Option<real>
  {
    if c == [] then None
    else if c[|c| - 1].Some? then c[|c| - 1]
    else LastPresent(c[..|c| - 1])
  }

  /** The first present value of `c`, or None when every cell is missing. */
  function FirstPresent(c: Column): Option<real>
  {
    if c == [] then None
    else if c[0].Some? then c[0]
    else FirstPresent(c[1..])
  }

  /** `Series.ffill()`: a missing cell takes the value of the nearest present
      cell above it. */
  function FFill(c: Column): (r: Column)
    ensures |r| == |c|
  {
    if c == [] then []
    else
      var above := FFill(c[..|c| - 1]);
      var last := c[|c| - 1];
      above + [if last.Some? || above == [] then last else above[|above| - 1]]
  }

  /** `Series.bfill()`: a missing cell takes the value of the nearest present
      cell below it. */
  function BFill(c: Column): (r: Column)
    ensures |r| == |c|
  {
    if c == [] then []
    else
      var below := BFill(c[1..]);
      [if c[0].Some? || below == [] then c[0] else below[0]] + below
  }

  /** `ffill().bfill()`, as the page applies it to every column. */
  function Fill(c: Column): (r: Column)
    ensures |r| == |c|
  {
    BFill(FFill(c))
  }

  /** Row `i` of the forward fill is the last present value at or above it. */
  lemma {:induction false} FFillSpec(c: Column)
    ensures forall i :: 0 <= i < |c| ==> FFill(c)[i] == LastPresent(c[..i + 1])
  {
    if c != [] {
      var n := |c|;
      var p := c[..n - 1];
      FFillSpec(p);
      forall i | 0 <= i < n
        ensures FFill(c)[i] == LastPresent(c[..i + 1])
      {
        if i < n - 1 {
          assert p[..i + 1] == c[..i + 1];
        } else {
          assert c[..i + 1] == c;
          assert c[..i + 1][..i] == p;
          if n > 1 {
            assert p[..n - 1] == p;
          }
        }
      }
    }
  }

  /** Row `i` of the backward fill is the first present value at or below it. */
  lemma {:induction false} BFillSpec(c: Column)
    ensures forall i :: 0 <= i < |c| ==> BFill(c)[i] == FirstPresent(c[i..])
  {
    if c != [] {
      var t := c[1..];
      BFillSpec(t);
      forall i | 0 <= i < |c|
        ensures BFill(c)[i] == FirstPresent(c[i..])
      {
        if i > 0 {
          assert t[i - 1..] == c[i..];
        } else if |c| > 1 {
          assert t[0..] == t;
        }
      }
    }
  }

  /** Every cell of a prefix with no present value is missing. */
  lemma {:induction false} LastPresentNone(c: Column)
    ensures LastPresent(c) == None <==> forall i :: 0 <= i < |c| ==> c[i].None?
  {
    if c != [] {
      var p := c[..|c| - 1];
      LastPresentNone(p);
      assert forall i :: 0 <= i < |p| ==> p[i] == c[i];
    }
  }

  /** The first present value is found after any leading run of missing cells. */
  lemma {:induction false} FirstPresentSkip(c: Column, k: nat)
    requires k <= |c|
    requires forall i :: 0 <= i < k ==> c[i].None?
    ensures FirstPresent(c) == FirstPresent(c[k..])
  {
    if k > 0 {
      FirstPresentSkip(c[1..], k - 1);
      assert c[1..][k - 1..] == c[k..];
    }
  }

  /** A present value is found at the first present cell. */
  lemma {:induction false} FirstPresentAt(c: Column, k: nat)
    requires k < |c| && c[k].Some?
    requires forall i :: 0 <= i < k ==> c[i].None?
    ensures FirstPresent(c) == c[k]
  {
    FirstPresentSkip(c, k);
  }

  /** Where nothing is present, nothing is found. */
  lemma {:induction false} FirstPresentNone(c: Column)
    ensures FirstPresent(c) == None <==> forall i :: 0 <= i < |c| ==> c[i].None?
  {
    if c != [] {
      FirstPresentNone(c[1..]);
      assert forall i :: 1 <= i < |c| ==> c[1..][i - 1] == c[i];
    }
  }

  /** The forward fill leaves row `j` missing exactly when nothing is present
      at or above it. */
  lemma FFillMissing(c: Column, j: nat)
    requires j < |c|
    ensures FFill(c)[j].None? <==> forall m :: 0 <= m <= j ==> c[m].None?
  {
    FFillSpec(c);
    LastPresentNone(c[..j + 1]);
    assert forall m :: 0 <= m <= j ==> c[..j + 1][m] == c[m];
  }

  /** After `ffill().bfill()` row `i` holds the last present value at or above
      it; rows above the first present value take that first value; a column
      with nothing present stays empty. */
  lemma FillSpec(c: Column, i: nat)
    requires i < |c|
    ensures Fill(c)[i] ==
      (if LastPresent(c[..i + 1]).Some? then LastPresent(c[..i + 1]) else FirstPresent(c))
  {
    var f := FFill(c);
    FFillSpec(c);
    BFillSpec(f);
    assert Fill(c)[i] == FirstPresent(f[i..]);
    if LastPresent(c[..i + 1]).Some? {
      assert f[i..][0] == f[i];
    } else {
      FFillMissing(c, i);
      assert forall j :: 0 <= j <= i ==> f[j].None? by {
        forall j | 0 <= j <= i
          ensures f[j].None?
        {
          FFillMissing(c, j);
        }
      }
      FirstPresentSkip(f, i);
      FillFromFirst(c, f, i);
    }
  }

  /** The first present value of the forward fill is that of the column. */
  lemma FillFromFirst(c: Column, f: Column, i: nat)
    requires f == FFill(c) && i < |c|
    requires forall m :: 0 <= m <= i ==> c[m].None?
    ensures FirstPresent(f) == FirstPresent(c)
  {
    FirstPresentNone(c);
    if FirstPresent(c).Some? {
      FirstPresentExists(c);
      var k :| 0 <= k < |c| && c[k].Some? && FirstPresent(c) == c[k]
               && forall j :: 0 <= j < k ==> c[j].None?;
      forall j | 0 <= j < k
        ensures f[j].None?
      {
        FFillMissing(c, j);
      }
      FFillSpec(c);
      assert c[..k + 1][k] == c[k];
      FirstPresentAt(f, k);
    } else {
      forall j | 0 <= j < |c|
        ensures f[j].None?
      {
        FFillMissing(c, j);
      }
      FirstPresentNone(f);
    }
  }

  /** A column with a present value has a first present cell. */
  lemma {:induction false} FirstPresentExists(c: Column)
    requires FirstPresent(c).Some?
    ensures exists k :: 0 <= k < |c| && c[k].Some? && FirstPresent(c) == c[k]
                        && forall j :: 0 <= j < k ==> c[j].None?
  {
    if c[0].None? {
      FirstPresentExists(c[1..]);
      var k :| 0 <= k < |c| - 1 && c[1..][k].Some? && FirstPresent(c[1..]) == c[1..][k]
               && forall j :: 0 <= j < k ==> c[1..][j].None?;
      assert forall j :: 1 <= j < k + 1 ==> c[j] == c[1..][j - 1];
      assert c[k + 1].Some? && FirstPresent(c) == c[k + 1];
    } else {
      assert c[0].Some? && FirstPresent(c) == c[0];
    }
  }

  /** A present cell keeps its value through the fill. */
  lemma FillKeepsPresent(c: Column, i: nat)
    requires i < |c| && c[i].Some?
    ensures Fill(c)[i] == c[i]
  {
    FillSpec(c, i);
    assert c[..i + 1][i] == c[i];
  }

  /** After the fill a cell is present exactly when the column has any present
      value at all. */
  lemma FillComplete(c: Column, i: nat)
    requires i < |c|
    ensures Fill(c)[i].Some? <==> exists j :: 0 <= j < |c| && c[j].Some?
  {
    FillSpec(c, i);
    FirstPresentNone(c);
    LastPresentNone(c[..i + 1]);
    if LastPresent(c[..i + 1]).Some? {
      var j :| 0 <= j < i + 1 && c[..i + 1][j].Some?;
      assert c[j].Some?;
    }
  }

  // ---------------------------------------------------------------------------
  // Frames and boolean row selection

  /** A CSV log read into a frame: its header in order, its columns by name
      and the number of rows. */
  datatype Frame = Frame(names: seq<string>, columns: map<string, Column>, height: nat)

  /** Every column has one cell per row and the header names exactly the
      columns. */
  predicate Valid(f: Frame) {
    && (forall k :: k in f.columns ==> |f.columns[k]| == f.height)
    && f.columns.Keys == set k | k in f.names
  }

  /** The positions of the true entries of a row mask, in increasing order. */
  function Where(keep: seq<bool>): (idx: seq<nat>)
    ensures |idx| <= |keep|
    ensures forall j :: 0 <= j < |idx| ==> idx[j] < |keep| && keep[idx[j]]
    ensures forall j, m :: 0 <= j < m < |idx| ==> idx[j] < idx[m]
    ensures forall i :: 0 <= i < |keep| && keep[i] ==> i in idx
  {
    if keep == [] then []
    else
      var n := |keep| - 1;
      var w := Where(keep[..n]);
      assert forall i :: 0 <= i < n ==> keep[..n][i] == keep[i];
      w + (if keep[n] then [n] else [])
  }

  /** The cells of `c` at the rows `idx`. */
  function Pick(c: Column, idx: seq<nat>): (r: Column)
    ensures |r| == |idx|
    ensures forall j :: 0 <= j < |idx| && idx[j] < |c| ==> r[j] == c[idx[j]]
  {
    seq(|idx|, j requires 0 <= j < |idx| => if idx[j] < |c| then c[idx[j]] else None)
  }

  /** `df[mask]`: the rows whose mask entry is true, every column alike, in
      their original order; the header is unchanged. */
  function Keep(f: Frame, keep: seq<bool>): (g: Frame)
    ensures g.names == f.names && g.columns.Keys == f.columns.Keys
    ensures g.height == |Where(keep)|
    ensures forall k :: k in g.columns ==> g.columns[k] == Pick(f.columns[k], Where(keep))
    ensures Valid(f) && |keep| == f.height ==> Valid(g)
  {
    var idx := Where(keep);
    Frame(f.names, map k | k in f.columns :: Pick(f.columns[k], idx), |idx|)
  }

  /** The rows `inner` of rows `outer`, as rows of the original. */
  function Compose(outer: seq<nat>, inner: seq<nat>): (idx: seq<nat>)
    ensures |idx| == |inner|
    ensures forall j :: 0 <= j < |inner| && inner[j] < |outer| ==> idx[j] == outer[inner[j]]
  {
    seq(|inner|, j requires 0 <= j < |inner| => if inner[j] < |outer| then outer[inner[j]] else 0)
  }

  /** `g` consists of rows `idx` of `f`, in increasing order. */
  predicate RowsOf(g: Frame, f: Frame, idx: seq<nat>) {
    && |idx| == g.height
    && g.columns.Keys == f.columns.Keys
    && (forall j, m :: 0 <= j < m < |idx| ==> idx[j] < idx[m])
    && (forall j :: 0 <= j < |idx| ==> idx[j] < f.height)
    && (forall k, j :: k in g.columns && 0 <= j < |idx| && j < |g.columns[k]| && idx[j] < |f.columns[k]|
          ==> g.columns[k][j] == f.columns[k][idx[j]])
  }

  /** Row `j` of `g` holds the same cells as row `i` of `f`. */
  predicate SameRow(g: Frame, j: nat, f: Frame, i: nat) {
    forall k :: k in g.columns && k in f.columns && j < |g.columns[k]| && i < |f.columns[k]| ==>
      g.columns[k][j] == f.columns[k][i]
  }

  /** A mask selection keeps rows of the frame it selects from. */
  lemma KeepRows(f: Frame, keep: seq<bool>)
    requires |keep| == f.height
    ensures RowsOf(Keep(f, keep), f, Where(keep))
  {
  }

  /** Rows of rows of a frame are rows of that frame. */
  lemma RowsOfRows(h: Frame, g: Frame, f: Frame, outer: seq<nat>, inner: seq<nat>)
    requires Valid(g) && Valid(f)
    requires RowsOf(h, g, outer) && RowsOf(g, f, inner)
    ensures RowsOf(h, f, Compose(inner, outer))
  {
    var idx := Compose(inner, outer);
    forall j, m | 0 <= j < m < |idx|
      ensures idx[j] < idx[m]
    {
      assert outer[j] < outer[m];
    }
  }

  // ---------------------------------------------------------------------------
  // Cleaning one log

  const Soc := "SOC"
  const CellTemp := "Cell temp mid"
  const Speed := "Speed"

  /** `df.ffill().bfill()` over the whole frame. */
  function FillAll(f: Frame): (g: Frame)
    ensures g.names == f.names && g.height == f.height && g.columns.Keys == f.columns.Keys
    ensures forall k :: k in g.columns ==> g.columns[k] == Fill(f.columns[k])
    ensures Valid(f) ==> Valid(g)
  {
    Frame(f.names, map k | k in f.columns :: Fill(f.columns[k]), f.height)
  }

  /** SOC within [0, 101] and cell temperature within [0, 70]. */
  function RangeMask(f: Frame): (keep: seq<bool>)
    requires Valid(f) && Soc in f.columns && CellTemp in f.columns
    ensures |keep| == f.height
    ensures forall i :: 0 <= i < f.height ==>
      (keep[i] <==> InRange(f.columns[Soc][i], 0.0, 101.0) && InRange(f.columns[CellTemp][i], 0.0, 70.0))
  {
    seq(f.height, i requires 0 <= i < f.height =>
      InRange(f.columns[Soc][i], 0.0, 101.0) && InRange(f.columns[CellTemp][i], 0.0, 70.0))
  }

  /** Speed within [0, 210]. */
  function SpeedMask(s: Column): (keep: seq<bool>)
    ensures |keep| == |s|
    ensures forall i :: 0 <= i < |s| ==> (keep[i] <==> InRange(s[i], 0.0, 210.0))
  {
    seq(|s|, i requires 0 <= i < |s| => InRange(s[i], 0.0, 210.0))
  }

  /** `speed.diff().fillna(1) > 0`: the first row, and a row whose difference
      to the row just above it is NaN, count as rising. */
  function RiseMask(s: Column): (keep: seq<bool>)
    ensures |keep| == |s|
  {
    seq(|s|, i requires 0 <= i < |s| =>
      i == 0 || s[i].None? || s[i - 1].None? || s[i].value > s[i - 1].value)
  }

  /** The fill and the range filters; a log without SOC or cell temperature
      raises a KeyError, and the speed range applies only when Speed exists. */
  function RangeFiltered(f: Frame): (r: Option<Frame>)
    requires Valid(f)
    ensures r.Some? ==> Valid(r.value) && r.value.names == f.names
  {
    if Soc !in f.columns || CellTemp !in f.columns then None
    else
      var g := FillAll(f);
      var r := Keep(g, RangeMask(g));
      Some(if Speed in r.columns then Keep(r, SpeedMask(r.columns[Speed])) else r)
  }

  /** The whole per-file cleaning; the speed difference raises a KeyError when
      the log has no Speed column. */
  function CleanRows(f: Frame): (c: Option<Frame>)
    requires Valid(f)
    ensures c.Some? ==> Valid(c.value) && c.value.names == f.names
  {
    var r :- RangeFiltered(f);
    if Speed !in r.columns then None
    else Some(Keep(r, RiseMask(r.columns[Speed])))
  }

  /** Cleaning fails, as pandas' KeyError, exactly when SOC, cell
      temperature or Speed is not a column of the log. */
  lemma CleanRowsDefined(f: Frame)
    requires Valid(f)
    ensures CleanRows(f).Some? <==> Soc in f.columns && CellTemp in f.columns && Speed in f.columns
  {
  }

  /** A row of a mask selection is a row whose mask entry is true. */
  lemma KeptRow(f: Frame, keep: seq<bool>, j: nat)
    requires Valid(f) && |keep| == f.height && j < Keep(f, keep).height
    ensures Where(keep)[j] < f.height && keep[Where(keep)[j]]
    ensures forall k :: k in f.columns ==> Keep(f, keep).columns[k][j] == f.columns[k][Where(keep)[j]]
  {
  }

  /** Every kept row of a successful cleaning has SOC in [0, 101], cell
      temperature in [0, 70] and speed in [0, 210]. */
  lemma CleanRowsInRange(f: Frame, j: nat)
    requires Valid(f) && CleanRows(f).Some? && j < CleanRows(f).value.height
    ensures InRange(CleanRows(f).value.columns[Soc][j], 0.0, 101.0)
    ensures InRange(CleanRows(f).value.columns[CellTemp][j], 0.0, 70.0)
    ensures InRange(CleanRows(f).value.columns[Speed][j], 0.0, 210.0)
  {
    var g := FillAll(f);
    var r0 := Keep(g, RangeMask(g));
    var r := Keep(r0, SpeedMask(r0.columns[Speed]));
    var c := Keep(r, RiseMask(r.columns[Speed]));
    assert CleanRows(f).value == c;
    KeptRow(r, RiseMask(r.columns[Speed]), j);
    var i1 := Where(RiseMask(r.columns[Speed]))[j];
    KeptRow(r0, SpeedMask(r0.columns[Speed]), i1);
    var i0 := Where(SpeedMask(r0.columns[Speed]))[i1];
    KeptRow(g, RangeMask(g), i0);
  }

  /** Selecting with `m0` and then with `m1`, where `m1` reads on each
      selected row what `mg` reads on the original row, keeps exactly the rows
      both `m0` and `mg` accept. */
  lemma TwoMasks(m0: seq<bool>, m1: seq<bool>, mg: seq<bool>)
    requires |m1| == |Where(m0)| && |mg| == |m0|
    requires forall j :: 0 <= j < |m1| ==> (m1[j] <==> mg[Where(m0)[j]])
    ensures forall i :: 0 <= i < |m0| ==>
      (i in Compose(Where(m0), Where(m1)) <==> m0[i] && mg[i])
  {
    var w0 := Where(m0);
    var w1 := Where(m1);
    var idx := Compose(w0, w1);
    forall i | 0 <= i < |m0|
      ensures i in idx <==> m0[i] && mg[i]
    {
      if i in idx {
        var j :| 0 <= j < |idx| && idx[j] == i;
        assert m1[w1[j]];
      }
      if m0[i] && mg[i] {
        var j0 :| 0 <= j0 < |w0| && w0[j0] == i;
        assert m1[j0];
        var j1 :| 0 <= j1 < |w1| && w1[j1] == j0;
        assert idx[j1] == i;
      }
    }
  }

  /** The range conditions of row `i`: SOC and cell temperature always, speed
      when the log has a Speed column. */
  predicate InRanges(g: Frame, i: nat)
    requires Valid(g) && Soc in g.columns && CellTemp in g.columns && i < g.height
  {
    && InRange(g.columns[Soc][i], 0.0, 101.0)
    && InRange(g.columns[CellTemp][i], 0.0, 70.0)
    && (Speed in g.columns ==> InRange(g.columns[Speed][i], 0.0, 210.0))
  }

  /** The speed range of the filled log, read on its rows. */
  function SpeedMaskOf(g: Frame): (keep: seq<bool>)
    requires Valid(g)
    ensures |keep| == g.height
  {
    seq(g.height, i requires 0 <= i < g.height =>
      Speed !in g.columns || InRange(g.columns[Speed][i], 0.0, 210.0))
  }

  /** The range-filtered log holds exactly the filled rows whose SOC,
      cell temperature and (when present) speed are in range, in order. */
  lemma RangeFilteredSpec(f: Frame)
    requires Valid(f) && RangeFiltered(f).Some?
    ensures exists idx ::
      && RowsOf(RangeFiltered(f).value, FillAll(f), idx)
      && forall i :: 0 <= i < f.height ==> (i in idx <==> InRanges(FillAll(f), i))
  {
    var g := FillAll(f);
    var m0 := RangeMask(g);
    var r0 := Keep(g, m0);
    KeepRows(g, m0);
    if Speed in f.columns {
      var m1 := SpeedMask(r0.columns[Speed]);
      var idx := RangedWithSpeed(g, m0, m1, r0);
      assert RangeFiltered(f).value == Keep(r0, m1);
    } else {
      var w0 := Where(m0);
      forall i | 0 <= i < f.height
        ensures i in w0 <==> InRanges(g, i)
      {
        if i in w0 {
          var j :| 0 <= j < |w0| && w0[j] == i;
        }
      }
    }
  }

  /** The two range steps of a log with a Speed column. */
  lemma RangedWithSpeed(g: Frame, m0: seq<bool>, m1: seq<bool>, r0: Frame) returns (idx: seq<nat>)
    requires Valid(g) && Soc in g.columns && CellTemp in g.columns && Speed in g.columns
    requires m0 == RangeMask(g) && r0 == Keep(g, m0) && m1 == SpeedMask(r0.columns[Speed])
    ensures RowsOf(Keep(r0, m1), g, idx)
    ensures forall i :: 0 <= i < g.height ==> (i in idx <==> InRanges(g, i))
  {
    var w0 := Where(m0);
    KeepRows(g, m0);
    KeepRows(r0, m1);
    RowsOfRows(Keep(r0, m1), r0, g, Where(m1), w0);
    idx := Compose(w0, Where(m1));
    TwoMasks(m0, m1, SpeedMaskOf(g));
  }

  /** After the range filters every speed of the log is present. */
  lemma RangeFilteredSpeeds(f: Frame)
    requires Valid(f) && RangeFiltered(f).Some? && Speed in f.columns
    ensures forall i :: 0 <= i < RangeFiltered(f).value.height ==>
      InRange(RangeFiltered(f).value.columns[Speed][i], 0.0, 210.0)
  {
    var g := FillAll(f);
    var r0 := Keep(g, RangeMask(g));
    var m1 := SpeedMask(r0.columns[Speed]);
    forall i | 0 <= i < RangeFiltered(f).value.height
      ensures InRange(RangeFiltered(f).value.columns[Speed][i], 0.0, 210.0)
    {
      KeptRow(r0, m1, i);
    }
  }

  /** On a column of present speeds, a row passes the rise mask exactly when
      it is the first or its speed exceeds that of the row just above it. */
  lemma RiseMaskSpec(s: Column, i: nat)
    requires forall j :: 0 <= j < |s| ==> s[j].Some?
    requires i < |s|
    ensures i in Where(RiseMask(s)) <==> i == 0 || s[i].value > s[i - 1].value
  {
    var w := Where(RiseMask(s));
    if i in w {
      var j :| 0 <= j < |w| && w[j] == i;
    }
  }

  /** The speed filter keeps a row of the range-filtered log exactly when it is
      the first row or its speed exceeds that of the row just above it in the
      range-filtered log (not the last row kept). */
  lemma CleanRowsRise(f: Frame, i: nat)
    requires Valid(f) && CleanRows(f).Some?
    requires i < RangeFiltered(f).value.height
    ensures var s := RangeFiltered(f).value.columns[Speed];
      && s[i].Some? && (i > 0 ==> s[i - 1].Some?)
      && (i in Where(RiseMask(s)) <==> i == 0 || s[i].value > s[i - 1].value)
  {
    CleanRowsUnfold(f);
    RangeFilteredSpeeds(f);
    RiseAfterRange(RangeFiltered(f).value, i);
  }

  /** The rise mask on a log whose speeds all passed the speed range. */
  lemma RiseAfterRange(r: Frame, i: nat)
    requires Valid(r) && Speed in r.columns && i < r.height
    requires forall j :: 0 <= j < r.height ==> InRange(r.columns[Speed][j], 0.0, 210.0)
    ensures var s := r.columns[Speed];
      && s[i].Some? && (i > 0 ==> s[i - 1].Some?)
      && (i in Where(RiseMask(s)) <==> i == 0 || s[i].value > s[i - 1].value)
  {
    var s := r.columns[Speed];
    assert forall j :: 0 <= j < |s| ==> s[j].Some?;
    RiseMaskSpec(s, i);
  }

  /** A successful cleaning is the rise filter applied to the range-filtered
      log, which has a Speed column. */
  lemma CleanRowsUnfold(f: Frame)
    requires Valid(f) && CleanRows(f).Some?
    ensures RangeFiltered(f).Some? && Speed in f.columns && Speed in RangeFiltered(f).value.columns
    ensures CleanRows(f).value == Keep(RangeFiltered(f).value, RiseMask(RangeFiltered(f).value.columns[Speed]))
  {
  }

  /** Each cleaned row is a filled row of the original log, in order. */
  lemma CleanRowsAreFilledRows(f: Frame)
    requires Valid(f) && CleanRows(f).Some?
    ensures exists idx :: RowsOf(CleanRows(f).value, FillAll(f), idx)
  {
    RangeFilteredSpec(f);
    var r := RangeFiltered(f).value;
    var idx :| RowsOf(r, FillAll(f), idx);
    var m := RiseMask(r.columns[Speed]);
    KeepRows(r, m);
    RowsOfRows(CleanRows(f).value, r, FillAll(f), Where(m), idx);
  }

  /** The rows kept by the mask true, true, false, true. */
  lemma WhereExample()
    ensures Where([true, true, false, true]) == [0, 1, 3]
  {
    assert [true, true, false, true][..3] == [true, true, false];
    assert [true, true, false][..2] == [true, true];
    assert [true, true][..1] == [true];
    assert [true][..0] == [];
  }

  /** Speeds 10, 20, 15, 30: the dip to 15 is dropped. */
  lemma RiseExample()
    ensures var s := [Some(10.0), Some(20.0), Some(15.0), Some(30.0)];
      Pick(s, Where(RiseMask(s))) == [Some(10.0), Some(20.0), Some(30.0)]
  {
    var s := [Some(10.0), Some(20.0), Some(15.0), Some(30.0)];
    assert RiseMask(s) == [true, true, false, true];
    WhereExample();
  }

  /** Speeds 10, 20, 15, 18: 18 is kept although it is below the 20 kept before
      it, because it exceeds the 15 just above it; the kept speeds are not
      increasing. */
  lemma RiseComparesWithPreviousRow()
    ensures var s := [Some(10.0), Some(20.0), Some(15.0), Some(18.0)];
      Pick(s, Where(RiseMask(s))) == [Some(10.0), Some(20.0), Some(18.0)]
  {
    var s := [Some(10.0), Some(20.0), Some(15.0), Some(18.0)];
    assert RiseMask(s) == [true, true, false, true];
    WhereExample();
  }

  // ---------------------------------------------------------------------------
  // Plotted channels

  /** The y-axis choices of the page. */
  datatype Plot =
    | MaxDischargePower | BatteryPower | BatteryCurrent | BatteryVoltage
    | MotorPower | CombinedMotorPower | MotorTorque | CombinedMotorTorque

  /** The label of a choice, as the checkbox shows it. */
  function Label(p: Plot): string {
    match p
    case MaxDischargePower => "Max Discharge Power [kW]"
    case BatteryPower => "Battery Power [kW]"
    case BatteryCurrent => "Battery Current [A]"
    case BatteryVoltage => "Battery Voltage [V]"
    case MotorPower => "Front/Rear Motor Power [kW]"
    case CombinedMotorPower => "Combined Motor Power [kW]"
    case MotorTorque => "Front/Rear Motor Torque [Nm]"
    case CombinedMotorTorque => "Combined Motor Torque [Nm]"
  }

  /** Whether a choice reads a list of columns rather than one column. */
  predicate IsPair(p: Plot) {
    p.MotorPower? || p.CombinedMotorPower? || p.MotorTorque? || p.CombinedMotorTorque?
  }

  /** The columns a choice reads. */
  function Sources(p: Plot): (cols: seq<string>)
    ensures |cols| == if IsPair(p) then 2 else 1
  {
    match p
    case MaxDischargePower => ["Max discharge power"]
    case BatteryPower => ["Battery power"]
    case BatteryCurrent => ["Battery current"]
    case BatteryVoltage => ["Battery voltage"]
    case MotorPower => ["F power", "R power"]
    case CombinedMotorPower => ["F power", "R power"]
    case MotorTorque => ["F torque", "R torque"]
    case CombinedMotorTorque => ["F torque", "R torque"]
  }

  /** The dropna subset: Speed, then every column of every selected choice. */
  function Subset(selected: seq<Plot>): (cols: seq<string>)
    ensures |cols| > 0 && cols[0] == Speed
    ensures forall p, k :: p in selected && k in Sources(p) ==> k in cols
    ensures forall k :: k in cols ==> k == Speed || exists p :: p in selected && k in Sources(p)
  {
    if selected == [] then [Speed]
    else
      var rest := Subset(selected[..|selected| - 1]);
      assert forall p :: p in selected ==> p in selected[..|selected| - 1] || p == selected[|selected| - 1];
      assert forall p :: p in selected[..|selected| - 1] ==> p in selected;
      rest + Sources(selected[|selected| - 1])
  }

  /** Row `i` has a value in every column of `cols` the frame has. */
  predicate RowComplete(f: Frame, cols: seq<string>, i: nat)
    requires Valid(f) && i < f.height
  {
    forall k :: k in cols && k in f.columns ==> f.columns[k][i].Some?
  }

  /** The rows with a value in every column of `cols` the frame has, in
      increasing order. */
  function CompleteRows(f: Frame, cols: seq<string>): (idx: seq<nat>)
    requires Valid(f)
    ensures forall i :: 0 <= i < f.height ==> (i in idx <==> RowComplete(f, cols, i))
    ensures forall i :: i in idx ==> i < f.height
  {
    Where(seq(f.height, i requires 0 <= i < f.height => RowComplete(f, cols, i)))
  }

  /** `dropna(subset=cols)` with the subset restricted to existing columns:
      exactly the complete rows, in their original order. */
  function DropMissing(f: Frame, cols: seq<string>): (g: Frame)
    requires Valid(f)
    ensures Valid(g) && g.names == f.names
    ensures RowsOf(g, f, CompleteRows(f, cols))
  {
    Keep(f, seq(f.height, i requires 0 <= i < f.height => RowComplete(f, cols, i)))
  }

  /** Every row left by `dropna` has a value in every subset column. */
  lemma DropMissingComplete(f: Frame, cols: seq<string>, j: nat)
    requires Valid(f) && j < DropMissing(f, cols).height
    ensures RowComplete(DropMissing(f, cols), cols, j)
  {
    var keep := seq(f.height, i requires 0 <= i < f.height => RowComplete(f, cols, i));
    KeptRow(f, keep, j);
  }

  /** A plotted point: speed on x, the channel on y. */
  type Point = (Option<real>, Option<real>)

  /** One line of the chart: its legend label and its points in row order. */
  datatype Series = Series(name: string, points: seq<Point>)

  /** The points (x[i], y[i]) of the rows `idx`. */
  function Points(x: Column, y: Column, idx: seq<nat>): (pts: seq<Point>)
    ensures |pts| == |idx|
    ensures forall j :: 0 <= j < |idx| && idx[j] < |x| && idx[j] < |y| ==> pts[j] == (x[idx[j]], y[idx[j]])
  {
    seq(|idx|, j requires 0 <= j < |idx| =>
      (if idx[j] < |x| then x[idx[j]] else None, if idx[j] < |y| then y[idx[j]] else None))
  }

  /** `y >= t` on every row; a missing value compares false. */
  function AtLeast(y: Column, t: real): (keep: seq<bool>)
    ensures |keep| == |y|
    ensures forall i :: 0 <= i < |y| ==> (keep[i] <==> y[i].Some? && y[i].value >= t)
  {
    seq(|y|, i requires 0 <= i < |y| => y[i].Some? && y[i].value >= t)
  }

  /** `pts` holds (x[i], y[i]) for every row i, in row order. */
  predicate EveryRow(pts: seq<Point>, x: Column, y: Column) {
    |pts| == |y| && |x| == |y| && forall i :: 0 <= i < |y| ==> pts[i] == (x[i], y[i])
  }

  /** A mask that keeps every row selects the positions 0, 1, 2, ... */
  lemma {:induction false} WhereAllRows(n: nat)
    ensures |Where(AllRows(n))| == n
    ensures forall i :: 0 <= i < n ==> Where(AllRows(n))[i] == i
  {
    if n > 0 {
      WhereAllRows(n - 1);
      assert AllRows(n)[..n - 1] == AllRows(n - 1);
    }
  }

  /** Plotting every row of two equally long columns pairs them row by row. */
  lemma AllRowsPoints(x: Column, y: Column)
    requires |x| == |y|
    ensures EveryRow(Points(x, y, Where(AllRows(|y|))), x, y)
  {
    WhereAllRows(|y|);
  }

  /** A row the mask keeps contributes its point. */
  lemma KeptPoint(x: Column, y: Column, keep: seq<bool>, i: nat)
    requires |x| == |y| == |keep| && i < |keep| && keep[i]
    ensures (x[i], y[i]) in Points(x, y, Where(keep))
  {
    var idx := Where(keep);
    var j :| 0 <= j < |idx| && idx[j] == i;
    assert Points(x, y, idx)[j] == (x[i], y[i]);
  }

  /** Every row. */
  function AllRows(n: nat): (keep: seq<bool>)
    ensures |keep| == n && forall i :: 0 <= i < n ==> keep[i]
  {
    seq(n, i => true)
  }

  /** The columns of `cols` the frame has, in order. */
  function Available(f: Frame, cols: seq<string>): (av: seq<string>)
    ensures forall k :: k in av <==> k in cols && k in f.columns
    ensures |av| <= |cols|
  {
    if cols == [] then []
    else (if cols[0] in f.columns then [cols[0]] else []) + Available(f, cols[1..])
  }

  /** `df[cols].sum(axis=1, skipna=True)` on row `i`: the present values added,
      missing ones counting as nothing. */
  function RowSum(f: Frame, cols: seq<string>, i: nat): (r: real)
    requires Valid(f) && i < f.height
    ensures (forall k :: k in cols && k in f.columns ==> f.columns[k][i].None?) ==> r == 0.0
  {
    if cols == [] then 0.0
    else
      var c := cols[0];
      (if c in f.columns && f.columns[c][i].Some? then f.columns[c][i].value else 0.0)
        + RowSum(f, cols[1..], i)
  }

  /** The combined column over the available sources. */
  function CombinedColumn(f: Frame, cols: seq<string>): (c: Column)
    requires Valid(f)
    ensures |c| == f.height
    ensures forall i :: 0 <= i < f.height ==> c[i] == Some(RowSum(f, cols, i))
  {
    seq(f.height, i requires 0 <= i < f.height => Some(RowSum(f, cols, i)))
  }

  /** The lines one choice draws for one log: a single column (battery power
      only where it is at least 40), one line per available motor column, or
      their row sum (combined power only where it is at least 20). A choice
      whose columns are all absent draws nothing. */
  function SeriesFor(legend: string, d: Frame, p: Plot): (lines: seq<Series>)
    requires Valid(d) && Speed in d.columns
    ensures lines == [] <==> Available(d, Sources(p)) == []
    ensures |lines| <= |Sources(p)|
    ensures forall s :: s in lines ==> |s.points| <= d.height
  {
    var x := d.columns[Speed];
    var av := Available(d, Sources(p));
    if av == [] then []
    else if !IsPair(p) then
      var y := d.columns[av[0]];
      var keep := if p.BatteryPower? then AtLeast(y, 40.0) else AllRows(|y|);
      [Series(legend + " - " + Label(p), Points(x, y, Where(keep)))]
    else if p.CombinedMotorPower? || p.CombinedMotorTorque? then
      var y := CombinedColumn(d, av);
      var keep := if p.CombinedMotorPower? then AtLeast(y, 20.0) else AllRows(|y|);
      var name := if p.CombinedMotorPower? then "Power" else "Torque";
      [Series(legend + " - Combined Motor " + name, Points(x, y, Where(keep)))]
    else
      PerColumn(legend, d, av)
  }

  /** One line per available column, labelled with the column's name,
      holding every row's (speed, value) in row order. */
  function PerColumn(legend: string, d: Frame, av: seq<string>): (lines: seq<Series>)
    requires Valid(d) && Speed in d.columns
    ensures |lines| == |av|
    ensures forall m :: 0 <= m < |av| ==> lines[m].name == legend + " - " + av[m]
    ensures forall m :: 0 <= m < |av| && av[m] in d.columns ==>
      EveryRow(lines[m].points, d.columns[Speed], d.columns[av[m]])
  {
    if av == [] then []
    else
      var y := if av[0] in d.columns then d.columns[av[0]] else [];
      assert av[0] in d.columns ==>
        EveryRow(Points(d.columns[Speed], y, Where(AllRows(|y|))), d.columns[Speed], y) by {
        if av[0] in d.columns {
          AllRowsPoints(d.columns[Speed], y);
        }
      }
      [Series(legend + " - " + av[0], Points(d.columns[Speed], y, Where(AllRows(|y|))))]
        + PerColumn(legend, d, av[1..])
  }

  /** The lines of every selected choice, in selection order. */
  function SeriesForAll(legend: string, d: Frame, selected: seq<Plot>): (lines: seq<Series>)
    requires Valid(d) && Speed in d.columns
    ensures forall p, s :: p in selected && s in SeriesFor(legend, d, p) ==> s in lines
    ensures forall s :: s in lines ==> exists p :: p in selected && s in SeriesFor(legend, d, p)
  {
    if selected == [] then []
    else
      assert forall p :: p in selected ==> p in selected[..|selected| - 1] || p == selected[|selected| - 1];
      assert forall p :: p in selected[..|selected| - 1] ==> p in selected;
      SeriesForAll(legend, d, selected[..|selected| - 1])
        + SeriesFor(legend, d, selected[|selected| - 1])
  }

  /** One log's contribution to the chart: cleaning, `dropna` over the subset
      and the selected lines; None where pandas raises a KeyError, which the
      page does not catch, so that run stops and draws no chart at all. */
  function FileSeries(legend: string, f: Frame, selected: seq<Plot>): (r: Option<seq<Series>>)
    requires Valid(f)
    ensures r.None? <==> CleanRows(f).None?
  {
    var c :- CleanRows(f);
    var d := DropMissing(c, Subset(selected));
    Some(SeriesForAll(legend, d, selected))
  }

  /** `plot_df.dropna(subset=['X', 'Y'])` on one line. */
  function PlottedPoints(pts: seq<Point>): (r: seq<Point>)
    ensures forall pt :: pt in r <==> pt in pts && pt.0.Some? && pt.1.Some?
  {
    if pts == [] then []
    else (if pts[0].0.Some? && pts[0].1.Some? then [pts[0]] else []) + PlottedPoints(pts[1..])
  }

  /** Every row of `d` has a value in each of `cols` that `d` has. */
  predicate ColumnsComplete(d: Frame, cols: seq<string>)
    requires Valid(d)
  {
    forall i :: 0 <= i < d.height ==> RowComplete(d, cols, i)
  }

  /** Every point of every line has both coordinates. */
  predicate AllPlotted(lines: seq<Series>) {
    forall s, pt :: s in lines && pt in s.points ==> pt.0.Some? && pt.1.Some?
  }

  /** The final `dropna` keeps a line whose points are all complete. */
  lemma {:induction false} PlottedPointsKeepsAll(pts: seq<Point>)
    requires forall pt :: pt in pts ==> pt.0.Some? && pt.1.Some?
    ensures PlottedPoints(pts) == pts
  {
    if pts != [] {
      PlottedPointsKeepsAll(pts[1..]);
    }
  }

  /** Points drawn from columns present on the chosen rows are complete. */
  lemma PointsComplete(x: Column, y: Column, idx: seq<nat>)
    requires forall j :: 0 <= j < |idx| ==> idx[j] < |x| && idx[j] < |y|
    requires forall j :: 0 <= j < |idx| ==> x[idx[j]].Some? && y[idx[j]].Some?
    ensures forall pt :: pt in Points(x, y, idx) ==> pt.0.Some? && pt.1.Some?
  {
    var pts := Points(x, y, idx);
    forall pt | pt in pts
      ensures pt.0.Some? && pt.1.Some?
    {
      var j :| 0 <= j < |pts| && pts[j] == pt;
    }
  }

  /** The lines of one choice over rows with a value in Speed and in each of
      its columns are complete. */
  lemma PerColumnPlotted(legend: string, d: Frame, av: seq<string>)
    requires Valid(d) && Speed in d.columns
    requires forall k :: k in av ==> k in d.columns
    requires ColumnsComplete(d, [Speed] + av)
    ensures AllPlotted(PerColumn(legend, d, av))
  {
    if av != [] {
      var y := d.columns[av[0]];
      var idx := Where(AllRows(|y|));
      assert Speed in [Speed] + av && av[0] in [Speed] + av;
      forall i | 0 <= i < d.height
        ensures d.columns[Speed][i].Some? && y[i].Some?
      {
        assert RowComplete(d, [Speed] + av, i);
      }
      PointsComplete(d.columns[Speed], y, idx);
      assert ColumnsComplete(d, [Speed] + av[1..]) by {
        forall i | 0 <= i < d.height
          ensures RowComplete(d, [Speed] + av[1..], i)
        {
          assert RowComplete(d, [Speed] + av, i);
        }
      }
      PerColumnPlotted(legend, d, av[1..]);
    }
  }

  /** The points of the rows a mask keeps, from two columns with a value on
      every row, are complete. */
  lemma MaskedPointsComplete(x: Column, y: Column, keep: seq<bool>)
    requires |x| == |y| == |keep|
    requires forall i :: 0 <= i < |x| ==> x[i].Some? && y[i].Some?
    ensures forall pt :: pt in Points(x, y, Where(keep)) ==> pt.0.Some? && pt.1.Some?
  {
    PointsComplete(x, y, Where(keep));
  }

  /** The lines of one choice over complete rows are complete. */
  lemma SeriesForPlotted(legend: string, d: Frame, p: Plot)
    requires Valid(d) && Speed in d.columns
    requires ColumnsComplete(d, [Speed] + Sources(p))
    ensures AllPlotted(SeriesFor(legend, d, p))
  {
    var x := d.columns[Speed];
    var av := Available(d, Sources(p));
    assert Speed in [Speed] + Sources(p);
    forall i | 0 <= i < d.height
      ensures x[i].Some?
    {
      assert RowComplete(d, [Speed] + Sources(p), i);
    }
    if av != [] {
      if !IsPair(p) {
        var y := d.columns[av[0]];
        assert av[0] in [Speed] + Sources(p);
        forall i | 0 <= i < d.height
          ensures y[i].Some?
        {
          assert RowComplete(d, [Speed] + Sources(p), i);
        }
        MaskedPointsComplete(x, y, if p.BatteryPower? then AtLeast(y, 40.0) else AllRows(|y|));
      } else if p.CombinedMotorPower? || p.CombinedMotorTorque? {
        var y := CombinedColumn(d, av);
        MaskedPointsComplete(x, y, if p.CombinedMotorPower? then AtLeast(y, 20.0) else AllRows(|y|));
      } else {
        assert ColumnsComplete(d, [Speed] + av) by {
          forall i | 0 <= i < d.height
            ensures RowComplete(d, [Speed] + av, i)
          {
            assert RowComplete(d, [Speed] + Sources(p), i);
          }
        }
        PerColumnPlotted(legend, d, av);
      }
    }
  }

  /** Completeness over a list of columns carries over to any of its
      sublists. */
  lemma ColumnsCompleteWithin(d: Frame, big: seq<string>, small: seq<string>)
    requires Valid(d) && ColumnsComplete(d, big)
    requires forall k :: k in small ==> k in big
    ensures ColumnsComplete(d, small)
  {
    forall i | 0 <= i < d.height
      ensures RowComplete(d, small, i)
    {
      assert RowComplete(d, big, i);
    }
  }

  /** Two lists of complete lines together are complete. */
  lemma AllPlottedConcat(a: seq<Series>, b: seq<Series>)
    requires AllPlotted(a) && AllPlotted(b)
    ensures AllPlotted(a + b)
  {
    forall s, pt | s in a + b && pt in s.points
      ensures pt.0.Some? && pt.1.Some?
    {
      assert s in a || s in b;
    }
  }

  /** The lines of all selected choices over complete rows are complete. */
  lemma {:induction false} SeriesForAllPlotted(legend: string, d: Frame, selected: seq<Plot>)
    requires Valid(d) && Speed in d.columns
    requires ColumnsComplete(d, Subset(selected))
    ensures AllPlotted(SeriesForAll(legend, d, selected))
  {
    if selected != [] {
      var init := selected[..|selected| - 1];
      var p := selected[|selected| - 1];
      var all := Subset(selected);
      assert all == Subset(init) + Sources(p);
      ColumnsCompleteWithin(d, all, Subset(init));
      assert Speed == Subset(init)[0];
      ColumnsCompleteWithin(d, all, [Speed] + Sources(p));
      SeriesForAllPlotted(legend, d, init);
      SeriesForPlotted(legend, d, p);
      AllPlottedConcat(SeriesForAll(legend, d, init), SeriesFor(legend, d, p));
    }
  }

  /** Every point a log contributes has a speed and a value, so the chart's
      own `dropna` on X and Y removes nothing. */
  lemma FileSeriesPlotted(legend: string, f: Frame, selected: seq<Plot>)
    requires Valid(f) && FileSeries(legend, f, selected).Some?
    ensures AllPlotted(FileSeries(legend, f, selected).value)
    ensures forall s :: s in FileSeries(legend, f, selected).value ==> PlottedPoints(s.points) == s.points
  {
    var c := CleanRows(f).value;
    var d := DropMissing(c, Subset(selected));
    forall j | 0 <= j < d.height
      ensures RowComplete(d, Subset(selected), j)
    {
      DropMissingComplete(c, Subset(selected), j);
    }
    SeriesForAllPlotted(legend, d, selected);
    forall s | s in FileSeries(legend, f, selected).value
      ensures PlottedPoints(s.points) == s.points
    {
      PlottedPointsKeepsAll(s.points);
    }
  }

  /** Every battery-power point is at least 40. */
  lemma BatteryPowerAtLeast40(legend: string, d: Frame, pt: Point)
    requires Valid(d) && Speed in d.columns
    requires exists s :: s in SeriesFor(legend, d, BatteryPower) && pt in s.points
    ensures pt.1.Some? && pt.1.value >= 40.0
  {
    var s :| s in SeriesFor(legend, d, BatteryPower) && pt in s.points;
    var av := Available(d, Sources(BatteryPower));
    assert av != [] && av[0] in Sources(BatteryPower);
    var y := d.columns["Battery power"];
    var idx := Where(AtLeast(y, 40.0));
    var j :| 0 <= j < |s.points| && s.points[j] == pt;
    assert pt == (d.columns[Speed][idx[j]], y[idx[j]]);
  }

  /** Every combined-power point is the row sum of the available motor
      columns, and at least 20. */
  lemma CombinedPowerAtLeast20(legend: string, d: Frame, pt: Point)
    requires Valid(d) && Speed in d.columns
    requires exists s :: s in SeriesFor(legend, d, CombinedMotorPower) && pt in s.points
    ensures exists i :: (0 <= i < d.height
      && pt == (d.columns[Speed][i], Some(RowSum(d, Available(d, Sources(CombinedMotorPower)), i))))
    ensures pt.1.Some? && pt.1.value >= 20.0
  {
    var s :| s in SeriesFor(legend, d, CombinedMotorPower) && pt in s.points;
    var av := Available(d, Sources(CombinedMotorPower));
    var y := CombinedColumn(d, av);
    var idx := Where(AtLeast(y, 20.0));
    var j :| 0 <= j < |s.points| && s.points[j] == pt;
    assert pt == (d.columns[Speed][idx[j]], y[idx[j]]);
  }

  /** Every row whose battery power is at least 40 is plotted. */
  lemma BatteryPowerPlotsAtLeast40(legend: string, d: Frame, i: nat)
    requires Valid(d) && Speed in d.columns && "Battery power" in d.columns && i < d.height
    requires d.columns["Battery power"][i].Some? && d.columns["Battery power"][i].value >= 40.0
    ensures exists s :: (s in SeriesFor(legend, d, BatteryPower)
      && (d.columns[Speed][i], d.columns["Battery power"][i]) in s.points)
  {
    var y := d.columns["Battery power"];
    assert Available(d, Sources(BatteryPower)) == ["Battery power"];
    KeptPoint(d.columns[Speed], y, AtLeast(y, 40.0), i);
    assert SeriesFor(legend, d, BatteryPower)[0].points == Points(d.columns[Speed], y, Where(AtLeast(y, 40.0)));
  }

  /** Every row whose combined motor power is at least 20 is plotted. */
  lemma CombinedPowerPlotsAtLeast20(legend: string, d: Frame, i: nat)
    requires Valid(d) && Speed in d.columns && i < d.height
    requires Available(d, Sources(CombinedMotorPower)) != []
    requires RowSum(d, Available(d, Sources(CombinedMotorPower)), i) >= 20.0
    ensures exists s :: (s in SeriesFor(legend, d, CombinedMotorPower)
      && (d.columns[Speed][i], Some(RowSum(d, Available(d, Sources(CombinedMotorPower)), i))) in s.points)
  {
    var y := CombinedColumn(d, Available(d, Sources(CombinedMotorPower)));
    KeptPoint(d.columns[Speed], y, AtLeast(y, 20.0), i);
    assert SeriesFor(legend, d, CombinedMotorPower)[0].points == Points(d.columns[Speed], y, Where(AtLeast(y, 20.0)));
  }

  /** A single column other than battery power is drawn as one line that
      holds every row. */
  lemma SingleColumnEveryRow(legend: string, d: Frame, p: Plot)
    requires Valid(d) && Speed in d.columns && !IsPair(p) && !p.BatteryPower?
    requires Sources(p)[0] in d.columns
    ensures |SeriesFor(legend, d, p)| == 1
    ensures SeriesFor(legend, d, p)[0].name == legend + " - " + Label(p)
    ensures EveryRow(SeriesFor(legend, d, p)[0].points, d.columns[Speed], d.columns[Sources(p)[0]])
  {
    var y := d.columns[Sources(p)[0]];
    assert Sources(p) == [Sources(p)[0]];
    assert Available(d, Sources(p)) == [Sources(p)[0]];
    AllRowsPoints(d.columns[Speed], y);
  }

  /** Combined torque is drawn as one line holding every row's sum. */
  lemma CombinedTorqueEveryRow(legend: string, d: Frame)
    requires Valid(d) && Speed in d.columns
    requires Available(d, Sources(CombinedMotorTorque)) != []
    ensures |SeriesFor(legend, d, CombinedMotorTorque)| == 1
    ensures SeriesFor(legend, d, CombinedMotorTorque)[0].name == legend + " - Combined Motor Torque"
    ensures EveryRow(SeriesFor(legend, d, CombinedMotorTorque)[0].points, d.columns[Speed],
      CombinedColumn(d, Available(d, Sources(CombinedMotorTorque))))
  {
    var y := CombinedColumn(d, Available(d, Sources(CombinedMotorTorque)));
    var line := Series(legend + " - Combined Motor Torque", Points(d.columns[Speed], y, Where(AllRows(|y|))));
    assert legend + " - Combined Motor " + "Torque" == legend + " - Combined Motor Torque";
    assert SeriesFor(legend, d, CombinedMotorTorque) == [line];
    AllRowsPoints(d.columns[Speed], y);
  }

  /** The per-motor choices are drawn as one line per available column, each
      holding every row. */
  lemma MotorColumnsEveryRow(legend: string, d: Frame, p: Plot)
    requires Valid(d) && Speed in d.columns && (p.MotorPower? || p.MotorTorque?)
    ensures var av := Available(d, Sources(p));
      |SeriesFor(legend, d, p)| == |av|
      && forall m :: 0 <= m < |av| ==>
        SeriesFor(legend, d, p)[m].name == legend + " - " + av[m]
        && EveryRow(SeriesFor(legend, d, p)[m].points, d.columns[Speed], d.columns[av[m]])
  {
    var av := Available(d, Sources(p));
    if av != [] {
      assert SeriesFor(legend, d, p) == PerColumn(legend, d, av);
      assert forall m :: 0 <= m < |av| ==> av[m] in av;
    }
  }

  /** A complete row survives `dropna`: some row of the result is that row. */
  lemma DropMissingKeepsComplete(f: Frame, cols: seq<string>, i: nat)
    requires Valid(f) && i < f.height && RowComplete(f, cols, i)
    ensures exists j :: 0 <= j < DropMissing(f, cols).height && SameRow(DropMissing(f, cols), j, f, i)
  {
    var idx := CompleteRows(f, cols);
    var j :| 0 <= j < |idx| && idx[j] == i;
    assert SameRow(DropMissing(f, cols), j, f, i);
  }

  /** With both motor columns present the combined value is their sum; with
      one of them absent from the log it is the other alone. */
  lemma CombinedSum(d: Frame, front: string, rear: string, i: nat)
    requires Valid(d) && i < d.height && front in d.columns
    requires d.columns[front][i].Some?
    ensures rear in d.columns && d.columns[rear][i].Some? ==>
      RowSum(d, Available(d, [front, rear]), i) == d.columns[front][i].value + d.columns[rear][i].value
    ensures rear !in d.columns ==>
      RowSum(d, Available(d, [front, rear]), i) == d.columns[front][i].value
  {
    assert [front, rear][1..] == [rear];
    assert Available(d, [front, rear]) == [front] + Available(d, [rear]);
    if rear in d.columns {
      assert Available(d, [rear]) == [rear];
      assert [rear][1..] == [];
      if d.columns[rear][i].Some? {
        assert RowSum(d, [rear], i) == d.columns[rear][i].value + RowSum(d, [], i);
      }
    } else {
      assert Available(d, [rear]) == [];
    }
  }
}

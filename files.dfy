/** The performance page's handling of whole log files: the first plausible SOC
    and cell temperature of a log (rounded as Python's `round` does), the
    per-URL metadata cache, the list of usable files and the slider filter on
    that list. */
module Files {
  import opened Text
  import opened Seqs
  import opened Telemetry
  import opened Folders

  // ---------------------------------------------------------------------------
  // Python's round(): to the nearest integer, ties to the even one

  /** The nearest integer to `x`; of two equally near, the even one. */
  function Round(x: real): (n: int)
    ensures -0.5 <= n as real - x <= 0.5
    ensures (n as real - x == 0.5 || x - n as real == 0.5) ==> n % 2 == 0
  {
    var fl := x.Floor;
    var d := x - fl as real;
    if d < 0.5 then fl
    else if d > 0.5 then fl + 1
    else if fl % 2 == 0 then fl
    else fl + 1
  }

  /** Those two properties leave no choice: Round is the only such integer. */
  lemma RoundUnique(x: real, m: int)
    requires -0.5 <= m as real - x <= 0.5
    requires (m as real - x == 0.5 || x - m as real == 0.5) ==> m % 2 == 0
    ensures m == Round(x)
  {
  }

  /** 2.5 rounds to 2, 3.5 to 4 and -0.5 to 0. */
  lemma RoundTies()
    ensures Round(2.5) == 2 && Round(3.5) == 4 && Round(-0.5) == 0
  {
    RoundUnique(2.5, 2);
    RoundUnique(3.5, 4);
    RoundUnique(-0.5, 0);
  }

  // ---------------------------------------------------------------------------
  // First plausible sample of a log

  /** What the page records about one log URL: its header and the rounded
      first plausible SOC and cell temperature (None when there is none). */
  datatype Metadata = Metadata(headers: seq<string>, soc: Option<int>, temp: Option<int>)

  /** The log has both columns the scan reads. */
  predicate HasRequired(f: Frame) {
    Soc in f.columns && CellTemp in f.columns
  }

  /** Row `i` of the filled SOC and cell temperature lies in the scan's
      plausibility window: SOC in [-5, 101], temperature in [-30, 70]. */
  predicate Plausible(f: Frame, i: nat)
    requires Valid(f) && HasRequired(f) && i < f.height
  {
    && InRange(Fill(f.columns[Soc])[i], -5.0, 101.0)
    && InRange(Fill(f.columns[CellTemp])[i], -30.0, 70.0)
  }

  /** What the scan promises: the header as read; values exactly when the log
      has both columns and some plausible row, and then those of the first
      plausible row, rounded. */
  predicate ScanPromise(f: Frame, m: Metadata)
    requires Valid(f)
  {
    && m.headers == f.names
    && (m.soc.Some? <==> m.temp.Some?)
    && (m.soc.Some? <==> HasRequired(f) && exists i :: 0 <= i < f.height && Plausible(f, i))
    && (m.soc.Some? ==> exists i ::
          && 0 <= i < f.height && Plausible(f, i)
          && (forall j :: 0 <= j < i ==> !Plausible(f, j))
          && m.soc == Some(Round(Fill(f.columns[Soc])[i].value))
          && m.temp == Some(Round(Fill(f.columns[CellTemp])[i].value)))
  }

  /** The scan of a freshly read log: fill SOC and cell temperature, drop the
      implausible rows, and return the rounded values of the first remaining
      row with both present. */
  method ScanFirstValid(f: Frame) returns (m: Metadata)
    requires Valid(f)
    ensures ScanPromise(f, m)
  {
    if Soc !in f.columns || CellTemp !in f.columns {
      return Metadata(f.names, None, None);
    }
    var soc := Fill(f.columns[Soc]);
    var temp := Fill(f.columns[CellTemp]);
    var i := 0;
    while i < f.height
      invariant 0 <= i <= f.height
      invariant forall j :: 0 <= j < i ==> !Plausible(f, j)
    {
      if InRange(soc[i], -5.0, 101.0) && InRange(temp[i], -30.0, 70.0) {
        if soc[i].Some? && temp[i].Some? {
          assert Plausible(f, i);
          return Metadata(f.names, Some(Round(soc[i].value)), Some(Round(temp[i].value)));
        }
      }
      i := i + 1;
    }
    return Metadata(f.names, None, None);
  }

  /** The per-URL cache of scan results, kept for the whole session. */
  class MetadataCache {
    var entries: map<string, Metadata>
    /** The log each cached URL served when it was first scanned. */
    ghost var logs: map<string, Frame>

    /** Every entry is the scan of the log its URL first served. */
    ghost predicate Valid()
      reads this
    {
      && entries.Keys == logs.Keys
      && forall u :: u in entries ==> Telemetry.Valid(logs[u]) && ScanPromise(logs[u], entries[u])
    }

    constructor()
      ensures Valid() && entries == map[]
    {
      entries := map[];
      logs := map[];
    }

    /** The metadata of `url`: the cached entry when there is one (whatever
      `served` now holds), else the scan of `served`, which is then cached. */
    method Fetch(url: string, served: Frame) returns (m: Metadata)
      requires Valid() && Telemetry.Valid(served)
      modifies this
      ensures Valid()
      ensures url in old(entries) ==> m == old(entries)[url] && entries == old(entries)
      ensures url !in old(entries) ==> ScanPromise(served, m) && entries == old(entries)[url := m]
    {
      if url in entries {
        return entries[url];
      }
      m := ScanFirstValid(served);
      entries := entries[url := m];
      logs := logs[url := served];
    }
  }

  // ---------------------------------------------------------------------------
  // Usable files

  /** A log file offered to the chart: its URL, its rounded first SOC and
      temperature, the href it was listed under and the folder it came from. */
  datatype FileInfo = FileInfo(path: string, soc: int, temp: int, href: string, folder: Folder)

  /** `s.split('/')[-1]`: what follows the last slash. */
  function AfterLastSlash(s: string): (r: string)
    ensures '/' !in r
    ensures |r| <= |s| && r == s[|s| - |r|..]
  {
    if s == [] || s[|s| - 1] == '/' then []
    else AfterLastSlash(s[..|s| - 1]) + [s[|s| - 1]]
  }

  /** The file's short name: its href without directories and with ".csv"
      removed. */
  function ShortName(fi: FileInfo): string {
    ReplaceAll(AfterLastSlash(fi.href), ".csv", "")
  }

  /** A listed file is used when its header has SOC and cell temperature and
      its scan found values for both. */
  predicate Usable(m: Metadata) {
    Soc in m.headers && CellTemp in m.headers && m.soc.Some? && m.temp.Some?
  }

  /** The usable files of one folder, in listing order; each listed href comes
      with the metadata fetched for its URL. */
  function CollectFolder(folder: Folder, listed: seq<(string, Metadata)>): (r: seq<FileInfo>)
    ensures |r| <= |listed|
  {
    if listed == [] then []
    else
      var e := listed[0];
      var rest := CollectFolder(folder, listed[1..]);
      if Usable(e.1) then
        [Entry(folder, e)] + rest
      else rest
  }

  /** The entry a listed, usable file becomes. */
  function Entry(folder: Folder, e: (string, Metadata)): FileInfo
    requires Usable(e.1)
  {
    FileInfo(folder.path + e.0, e.1.soc.value, e.1.temp.value, e.0, folder)
  }

  /** Every collected file is the entry of a usable listed file of that
      folder. */
  lemma {:induction false} CollectFolderSound(folder: Folder, listed: seq<(string, Metadata)>, fi: FileInfo)
    requires fi in CollectFolder(folder, listed)
    ensures exists k :: 0 <= k < |listed| && Usable(listed[k].1) && fi == Entry(folder, listed[k])
  {
    if !(Usable(listed[0].1) && fi == Entry(folder, listed[0])) {
      CollectFolderSound(folder, listed[1..], fi);
      var k :| 0 <= k < |listed| - 1 && Usable(listed[1..][k].1) && fi == Entry(folder, listed[1..][k]);
      assert listed[1..][k] == listed[k + 1];
    }
  }

  /** Every usable listed file is collected. */
  lemma {:induction false} CollectFolderComplete(folder: Folder, listed: seq<(string, Metadata)>, k: nat)
    requires k < |listed| && Usable(listed[k].1)
    ensures Entry(folder, listed[k]) in CollectFolder(folder, listed)
  {
    if k > 0 {
      CollectFolderComplete(folder, listed[1..], k - 1);
      assert listed[1..][k - 1] == listed[k];
    }
  }

  /** A scan that found values came from a log with both columns, so its file
      is usable. */
  lemma ScannedValuesUsable(f: Frame, m: Metadata)
    requires Valid(f) && ScanPromise(f, m) && m.soc.Some?
    ensures Usable(m)
  {
  }

  // ---------------------------------------------------------------------------
  // The SOC and temperature sliders

  function MinOf(s: seq<int>): (m: int)
    requires |s| > 0
    ensures m in s && forall x :: x in s ==> m <= x
  {
    if |s| == 1 then s[0]
    else
      var r := MinOf(s[1..]);
      assert forall x :: x in s ==> x == s[0] || x in s[1..];
      if s[0] <= r then s[0] else r
  }

  function MaxOf(s: seq<int>): (m: int)
    requires |s| > 0
    ensures m in s && forall x :: x in s ==> x <= m
  {
    if |s| == 1 then s[0]
    else
      var r := MaxOf(s[1..]);
      assert forall x :: x in s ==> x == s[0] || x in s[1..];
      if s[0] >= r then s[0] else r
  }

  function Socs(files: seq<FileInfo>): (r: seq<int>)
    ensures |r| == |files| && forall i :: 0 <= i < |files| ==> r[i] == files[i].soc
  {
    seq(|files|, i requires 0 <= i < |files| => files[i].soc)
  }

  function Temps(files: seq<FileInfo>): (r: seq<int>)
    ensures |r| == |files| && forall i :: 0 <= i < |files| ==> r[i] == files[i].temp
  {
    seq(|files|, i requires 0 <= i < |files| => files[i].temp)
  }

  /** A slider's range: fixed at (lo, hi) when only one value exists, else
      what the user chose. */
  function SliderRange(lo: int, hi: int, chosen: (int, int)): (int, int) {
    if lo == hi then (lo, hi) else chosen
  }

  /** The file passes the selected closed SOC and temperature ranges. (Every
      collected file has a temperature, so the page's `min_temp is None`
      alternative never holds.) */
  predicate InSelection(fi: FileInfo, socRange: (int, int), tempRange: (int, int)) {
    && socRange.0 <= fi.soc <= socRange.1
    && tempRange.0 <= fi.temp <= tempRange.1
  }

  /** The files within both selected ranges, in order. */
  function FilterFiles(files: seq<FileInfo>, socRange: (int, int), tempRange: (int, int)): (r: seq<FileInfo>)
    ensures forall fi :: fi in r <==> fi in files && InSelection(fi, socRange, tempRange)
  {
    Filter(files, (fi: FileInfo) => InSelection(fi, socRange, tempRange))
  }

  /** Ranges spanning from the smallest to the largest value keep every file. */
  lemma FullRangesKeepAll(files: seq<FileInfo>)
    requires |files| > 0
    ensures FilterFiles(files, (MinOf(Socs(files)), MaxOf(Socs(files))),
                        (MinOf(Temps(files)), MaxOf(Temps(files)))) == files
  {
    var socRange := (MinOf(Socs(files)), MaxOf(Socs(files)));
    var tempRange := (MinOf(Temps(files)), MaxOf(Temps(files)));
    forall fi | fi in files
      ensures InSelection(fi, socRange, tempRange)
    {
      var i :| 0 <= i < |files| && files[i] == fi;
      assert Socs(files)[i] in Socs(files) && Temps(files)[i] in Temps(files);
    }
    FilterKeepsAll(files, (fi: FileInfo) => InSelection(fi, socRange, tempRange));
  }
}

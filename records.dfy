/** The dashboard's sheet fetch after the header clean-up: every column
    conversion the fetch applies to the raw text cells, and the assembly of
    typed battery records from the header row and the data rows. */
module Records {
  import opened Text
  import opened Seqs
  import opened Headers

  // ---------------------------------------------------------------------------
  // Cell conversions, each the composition of the column expressions the
  // fetch applies to that column, in the order it applies them.

  /** The blanket `str.replace(',', '.')` applied to every text column. */
  function CommaToDot(s: string): string {
    ReplaceAll(s, ",", ".")
  }

  /** `.replace('', nan).astype(float)`: a blank cell is null, anything else
      must parse as a number or the conversion raises. */
  function StrictFloat(t: string): Result<Option<real>, string> {
    if t == [] then Success(None)
    else match ParseDecimal(t)
      case Some(v) => Success(Some(v))
      case None => Failure(t)
  }

  /** Age: " Months" removed, comma to dot, blank to null, strict float. */
  function AgeCell(raw: string): (r: Result<Option<real>, string>)
    ensures r.Success? && r.value.Some? ==> !NoDigits(raw)
  {
    var t := CommaToDot(ReplaceAll(raw, " Months", ""));
    assert NoDigits(raw) ==> ParseDecimal(t) == None by {
      if NoDigits(raw) {
        ReplaceKeepsNoDigits(raw, " Months", "");
        ReplaceKeepsNoDigits(ReplaceAll(raw, " Months", ""), ",", ".");
        NoDigitsUnparseable(t);
      }
    }
    StrictFloat(t)
  }

  /** Daily SOC Limit and DC Ratio: comma to dot (the blanket pass), "%"
      removed, blank to null, strict float. */
  function PercentCell(raw: string): (r: Result<Option<real>, string>)
    ensures r.Success? && r.value.Some? ==> !NoDigits(raw)
  {
    var t := ReplaceAll(CommaToDot(raw), "%", "");
    assert NoDigits(raw) ==> ParseDecimal(t) == None by {
      if NoDigits(raw) {
        ReplaceKeepsNoDigits(raw, ",", ".");
        ReplaceKeepsNoDigits(CommaToDot(raw), "%", "");
        NoDigitsUnparseable(t);
      }
    }
    StrictFloat(t)
  }

  /** The position of the first digit, or |s| when there is none. */
  function FirstDigitIndex(s: string): (i: nat)
    ensures i <= |s| && (i < |s| ==> IsDigit(s[i]))
    ensures forall j :: 0 <= j < i ==> !IsDigit(s[j])
  {
    if s == [] || IsDigit(s[0]) then 0 else 1 + FirstDigitIndex(s[1..])
  }

  /** s[i..j] is a non-empty run of digits with no digit before it and
      none right after it. */
  predicate LeftmostRun(s: string, i: nat, j: nat) {
    && i < j <= |s|
    && (forall k :: 0 <= k < i ==> !IsDigit(s[k]))
    && AllDigits(s[i..j]) && (j == |s| || !IsDigit(s[j]))
  }

  /** `str.extract('(\d+)')`: the leftmost maximal run of digits. */
  function FirstDigitRun(s: string): (r: Option<string>)
    ensures r.None? <==> forall j :: 0 <= j < |s| ==> !IsDigit(s[j])
    ensures r.Some? ==> exists i: nat, j: nat :: LeftmostRun(s, i, j) && r.value == s[i..j]
  {
    var i := FirstDigitIndex(s);
    if i == |s| then None
    else
      var k := DigitPrefix(s[i..]);
      assert s[i..][0] == s[i];
      assert s[i..][..k] == s[i..i + k];
      assert i + k < |s| ==> s[i..][k] == s[i + k];
      Some(s[i..i + k])
  }

  /** Odometer: all commas removed, first run of digits, as a float. */
  function OdometerCell(raw: string): (r: Option<real>)
    ensures r.None? <==> NoDigits(ReplaceAll(raw, ",", ""))
    ensures r.Some? ==> r.value >= 0.0 && r.value == r.value.Floor as real
  {
    match FirstDigitRun(ReplaceAll(raw, ",", ""))
    case None => None
    case Some(d) => Some(DigitsValue(d) as real)
  }

  /** Degradation: comma to dot, a "-" prefixed, the exact text "-0.0%"
      folded to null, then "%" removed and coerced (unparseable is null). */
  function DegradationCell(raw: string): (r: Option<real>)
    ensures r.Some? ==> r.value <= 0.0 && !NoDigits(raw)
  {
    var d := "-" + CommaToDot(raw);
    if d == "-0.0%" then None
    else
      assert NoDigits(raw) ==> ParseDecimal(ReplaceAll(d, "%", "")) == None by {
        if NoDigits(raw) {
          ReplaceKeepsNoDigits(raw, ",", ".");
          DegradationWithoutDigits(CommaToDot(raw));
        }
      }
      ReplaceAfterPrefix('-', CommaToDot(raw), "%", "");
      assert d == ['-'] + CommaToDot(raw);
      NegatedNeverPositive(ReplaceAll(CommaToDot(raw), "%", ""));
      ParseDecimal(ReplaceAll(d, "%", ""))
  }

  /** Rated Range: comma to dot, " km" removed, coerced. */
  function RatedRangeCell(raw: string): (r: Option<real>)
    ensures r.Some? ==> !NoDigits(raw)
  {
    var t := ReplaceAll(CommaToDot(raw), " km", "");
    assert NoDigits(raw) ==> ParseDecimal(t) == None by {
      if NoDigits(raw) {
        ReplaceKeepsNoDigits(raw, ",", ".");
        ReplaceKeepsNoDigits(CommaToDot(raw), " km", "");
        NoDigitsUnparseable(t);
      }
    }
    ParseDecimal(t)
  }

  /** Capacity Net Now: comma to dot, " kWh" removed, comma to dot again,
      coerced. */
  function CapacityCell(raw: string): (r: Option<real>)
    ensures r.Some? ==> !NoDigits(raw)
  {
    var t := CommaToDot(ReplaceAll(CommaToDot(raw), " kWh", ""));
    assert NoDigits(raw) ==> ParseDecimal(t) == None by {
      if NoDigits(raw) {
        ReplaceKeepsNoDigits(raw, ",", ".");
        ReplaceKeepsNoDigits(CommaToDot(raw), " kWh", "");
        ReplaceKeepsNoDigits(ReplaceAll(CommaToDot(raw), " kWh", ""), ",", ".");
        NoDigitsUnparseable(t);
      }
    }
    ParseDecimal(t)
  }

  /** Cycles: comma to dot, coerced when the page picks it as the x axis. */
  function CyclesCell(raw: string): (r: Option<real>)
    ensures r.Some? ==> !NoDigits(raw)
  {
    assert NoDigits(raw) ==> ParseDecimal(CommaToDot(raw)) == None by {
      if NoDigits(raw) {
        ReplaceKeepsNoDigits(raw, ",", ".");
        NoDigitsUnparseable(CommaToDot(raw));
      }
    }
    ParseDecimal(CommaToDot(raw))
  }

  // ---------------------------------------------------------------------------
  // Properties of the conversions

  /** The value of a Degradation cell is the negated percentage, except that
      the literal zero percentage "0.0%" (after comma conversion) is null. */
  lemma DegradationIsNegatedPercentage(raw: string)
    ensures DegradationCell(raw) ==
      if CommaToDot(raw) == "0.0%" then None
      else match ParseUnsigned(ReplaceAll(CommaToDot(raw), "%", ""))
        case None => None
        case Some(v) => Some(-v)
  {
    var d := CommaToDot(raw);
    assert "-" + d == ['-'] + d;
    ReplaceAfterPrefix('-', d, "%", "");
    ParseNegated(ReplaceAll(d, "%", ""));
    assert ("-" + d)[1..] == d;
    assert "-0.0%"[1..] == "0.0%";
  }

  /** A whole percentage reads back negated, zero included: only the
      literal "0,0%" (or "0.0%") is folded to null. */
  lemma DegradationRoundTrip(n: nat)
    ensures DegradationCell(NatToString(n) + "%") == Some(-(n as real))
  {
    var d := NatToString(n);
    CommaFreeDigits(d, "%");
    DegradationIsNegatedPercentage(d + "%");
    ReplaceTrailingUnit(d, "%", "");
    assert d + "" == d;
    DigitsPrefixAll(d);
    assert d[..|d|] == d;
    NatToStringRoundTrip(n);
  }

  lemma DegradationZeroIsNull()
    ensures DegradationCell("0,0%") == None
  {
    ReplaceCharConcat("0", ",0%", ',', ".");
    ReplaceCharConcat(",", "0%", ',', ".");
    ReplaceCharAbsent("0", ',', ".");
    ReplaceCharAbsent("0%", ',', ".");
    assert "0" + ",0%" == "0,0%" && "," + "0%" == ",0%";
  }

  /** The run of digits at the front of `d + rest` is exactly `d` when
      `rest` does not start with a digit. */
  lemma {:induction false} DigitPrefixOf(d: string, rest: string)
    requires AllDigits(d) && (rest == [] || !IsDigit(rest[0]))
    ensures DigitPrefix(d + rest) == |d|
    decreases |d|
  {
    if d == [] {
      assert d + rest == rest;
    } else {
      assert (d + rest)[1..] == d[1..] + rest;
      DigitPrefixOf(d[1..], rest);
    }
  }

  /** A reading that starts with digits once the separators are removed
      reads as those digits, whatever unit text follows them. */
  lemma {:induction false} OdometerReadsLeadingDigits(raw: string, d: string, rest: string)
    requires ReplaceAll(raw, ",", "") == d + rest
    requires d != [] && AllDigits(d) && (rest == [] || !IsDigit(rest[0]))
    ensures OdometerCell(raw) == Some(DigitsValue(d) as real)
  {
    var t := d + rest;
    assert IsDigit(t[0]);
    assert FirstDigitIndex(t) == 0;
    DigitPrefixOf(d, rest);
    assert t[0..] == t;
    assert t[0..|d|] == d;
  }

  /** A lone comma is dropped entirely. */
  lemma CommaAlone()
    ensures ReplaceAll(",", ",", "") == []
  {
    assert ","[..1] == "," && ","[1..] == [];
  }

  /** Dropping the commas from "<a>,<rest>" where neither part holds one. */
  lemma SeparatorDropped(a: string, rest: string)
    requires ',' !in a && ',' !in rest
    ensures ReplaceAll(a + "," + rest, ",", "") == a + rest
  {
    var tail := "," + rest;
    assert a + "," + rest == a + tail;
    ReplaceCharConcat(a, tail, ',', "");
    ReplaceCharConcat(",", rest, ',', "");
    ReplaceCharAbsent(a, ',', "");
    ReplaceCharAbsent(rest, ',', "");
    CommaAlone();
    calc {
      ReplaceAll(a + tail, ",", "");
      ReplaceAll(a, ",", "") + ReplaceAll(tail, ",", "");
      a + (ReplaceAll(",", ",", "") + ReplaceAll(rest, ",", ""));
      a + ([] + rest);
    }
    assert [] + rest == rest;
  }

  lemma AllDigitsConcat(a: string, b: string)
    requires AllDigits(a) && AllDigits(b)
    ensures AllDigits(a + b)
  {
    forall i | 0 <= i < |a + b| ensures IsDigit((a + b)[i]) {
      if i >= |a| { assert (a + b)[i] == b[i - |a|]; }
    }
  }

  /** A reading written with one thousands separator, "<a>,<b>" followed by
      a unit that has no comma and does not start with a digit, reads as the
      digits of a and b run together. */
  lemma OdometerWithSeparator(a: string, b: string, unit: string)
    requires a != [] && AllDigits(a) && AllDigits(b)
    requires ',' !in unit && (unit == [] || !IsDigit(unit[0]))
    ensures OdometerCell(a + "," + b + unit) == Some(DigitsValue(a + b) as real)
  {
    var raw := a + "," + b + unit;
    var rest := b + unit;
    assert ',' !in a && ',' !in rest;
    assert raw == a + "," + rest;
    SeparatorDropped(a, rest);
    assert a + rest == (a + b) + unit;
    AllDigitsConcat(a, b);
    OdometerReadsLeadingDigits(raw, a + b, unit);
  }

  /** An odometer cell is null exactly when its text has no digit. */
  lemma OdometerNullIffNoDigits(raw: string)
    ensures OdometerCell(raw).None? <==> NoDigits(raw)
  {
    if NoDigits(raw) {
      ReplaceKeepsNoDigits(raw, ",", "");
    } else {
      var i :| 0 <= i < |raw| && IsDigit(raw[i]);
      ReplaceCharKeepsOthers(raw, ',', "", raw[i]);
      var t := ReplaceAll(raw, ",", "");
      var m :| 0 <= m < |t| && t[m] == raw[i];
      assert !NoDigits(t);
    }
  }

  /** A digit string containing no comma is unchanged by the comma pass. */
  lemma CommaFreeDigits(digits: string, unit: string)
    requires AllDigits(digits) && ',' !in unit
    ensures CommaToDot(digits + unit) == digits + unit
  {
    assert ',' !in digits;
    ReplaceCharAbsent(digits + unit, ',', ".");
  }

  /** A range written as "<n> km" reads back as n. */
  lemma RatedRangeRoundTrip(n: nat)
    ensures RatedRangeCell(NatToString(n) + " km") == Some(n as real)
  {
    var d := NatToString(n);
    CommaFreeDigits(d, " km");
    ReplaceTrailingUnit(d, " km", "");
    assert d + "" == d;
    ParseNatToString(n);
  }

  /** A capacity written as "<n> kWh" reads back as n. */
  lemma CapacityRoundTrip(n: nat)
    ensures CapacityCell(NatToString(n) + " kWh") == Some(n as real)
  {
    var d := NatToString(n);
    CommaFreeDigits(d, " kWh");
    ReplaceTrailingUnit(d, " kWh", "");
    assert d + "" == d;
    CommaFreeDigits(d, "");
    assert d + "" == d;
    ParseNatToString(n);
  }

  /** An age written as "<n> Months" reads back as n; a blank age is null. */
  lemma AgeRoundTrip(n: nat)
    ensures AgeCell(NatToString(n) + " Months") == Success(Some(n as real))
    ensures AgeCell("") == Success(None)
  {
    var d := NatToString(n);
    ReplaceTrailingUnit(d, " Months", "");
    assert d + "" == d;
    CommaFreeDigits(d, "");
    assert d + "" == d;
    ParseNatToString(n);
  }

  /** A percentage written as "<n>%" reads back as n. */
  lemma PercentRoundTrip(n: nat)
    ensures PercentCell(NatToString(n) + "%") == Success(Some(n as real))
  {
    var d := NatToString(n);
    CommaFreeDigits(d, "%");
    ReplaceTrailingUnit(d, "%", "");
    assert d + "" == d;
    ParseNatToString(n);
  }

  /** Text without a digit is never a number: the coerced columns read it
      as null, and the strict columns read it as null when it is blank after
      the unit and comma passes and raise on it otherwise. */
  lemma UnparseableCells(raw: string)
    requires NoDigits(raw)
    ensures RatedRangeCell(raw) == None && CapacityCell(raw) == None
    ensures CyclesCell(raw) == None && DegradationCell(raw) == None
    ensures var t := CommaToDot(ReplaceAll(raw, " Months", ""));
      AgeCell(raw) == if t == [] then Success(None) else Failure(t)
    ensures var t := ReplaceAll(CommaToDot(raw), "%", "");
      PercentCell(raw) == if t == [] then Success(None) else Failure(t)
  {
  }

  lemma DegradationWithoutDigits(c: string)
    requires NoDigits(c)
    ensures ParseDecimal(ReplaceAll("-" + c, "%", "")) == None && "-" + c != "-0.0%"
  {
    var d := "-" + c;
    assert d == ['-'] + c;
    assert d != "-0.0%" by {
      if c != [] {
        assert d[1] == c[0];
      }
    }
    assert NoDigits(d);
    ReplaceKeepsNoDigits(d, "%", "");
    NoDigitsUnparseable(ReplaceAll(d, "%", ""));
  }

  // ---------------------------------------------------------------------------
  // Records

  /** One sheet row after conversion; the numeric cells are null where
      pandas holds NaN. */
  datatype Record = Record(
    tesla: string, version: string, battery: string,
    age: Option<real>, odometer: Option<real>, cycles: Option<real>,
    degradation: Option<real>, ratedRange: Option<real>, capacity: Option<real>,
    dailySocLimit: Option<real>, dcRatio: Option<real>)

  datatype SheetError =
    | EmptySheet                             // the sheet has no header row
    | ShortRow(row: nat)                     // a kept column index is past the end of a row
    | MissingColumn(name: string)            // a column the dashboard reads is absent
    | NotAFloat(column: string, row: nat)    // a strict float conversion raised

  /** The position of the column named `name`. */
  function ColumnOf(header: seq<string>, name: string): (r: Result<nat, SheetError>)
    ensures r.Success? <==> name in header
    ensures r.Success? ==> r.value < |header| && header[r.value] == name
    ensures r.Failure? ==> r.error == MissingColumn(name)
  {
    if header == [] then Failure(MissingColumn(name))
    else if header[0] == name then Success(0)
    else match ColumnOf(header[1..], name)
      case Failure(e) => Failure(e)
      case Success(k) => Success(k + 1)
  }

  /** Applies a strict conversion to column `col` of every row; the first row
      whose cell does not convert makes the whole column fail. */
  function StrictColumn(rows: seq<seq<string>>, col: nat, name: string, row0: nat,
                        convert: string -> Result<Option<real>, string>): (r: Result<seq<Option<real>>, SheetError>)
    requires forall i :: 0 <= i < |rows| ==> col < |rows[i]|
    ensures r.Success? ==> (|r.value| == |rows|
      && forall i :: 0 <= i < |rows| ==> convert(rows[i][col]) == Success(r.value[i]))
    ensures r.Failure? ==>
      exists i :: 0 <= i < |rows| && convert(rows[i][col]).Failure? && r.error == NotAFloat(name, row0 + i)
    ensures (forall i :: 0 <= i < |rows| ==> convert(rows[i][col]).Success?) <==> r.Success?
  {
    if rows == [] then Success([])
    else match convert(rows[0][col])
      case Failure(_) => Failure(NotAFloat(name, row0))
      case Success(v) =>
        match StrictColumn(rows[1..], col, name, row0 + 1, convert)
        case Failure(e) => Failure(e)
        case Success(vs) => Success([v] + vs)
  }

  predicate Rectangular(rows: seq<seq<string>>, width: nat) {
    forall i :: 0 <= i < |rows| ==> |rows[i]| == width
  }

  /** The columns the dashboard reads unconditionally (Cycles is optional). */
  predicate HasRequiredColumns(header: seq<string>) {
    && "Age" in header && "Odometer" in header && "Degradation" in header
    && "Rated Range" in header && "Capacity Net Now" in header
    && "Daily SOC Limit" in header && "DC Ratio" in header
    && "Tesla" in header && "Version" in header && "Battery" in header
  }

  /** The strictly converted cells of one row all convert. */
  predicate StrictCellsConvert(header: seq<string>, row: seq<string>)
    requires HasRequiredColumns(header) && |row| == |header|
  {
    && AgeCell(row[ColumnOf(header, "Age").value]).Success?
    && PercentCell(row[ColumnOf(header, "Daily SOC Limit").value]).Success?
    && PercentCell(row[ColumnOf(header, "DC Ratio").value]).Success?
  }

  /** `rec` holds the converted cells of `row`, each taken from the column of
      its name. */
  predicate ConvertedRow(header: seq<string>, row: seq<string>, rec: Record)
    requires HasRequiredColumns(header) && |row| == |header|
  {
    && Success(rec.age) == AgeCell(row[ColumnOf(header, "Age").value])
    && rec.odometer == OdometerCell(row[ColumnOf(header, "Odometer").value])
    && rec.degradation == DegradationCell(row[ColumnOf(header, "Degradation").value])
    && rec.ratedRange == RatedRangeCell(row[ColumnOf(header, "Rated Range").value])
    && rec.capacity == CapacityCell(row[ColumnOf(header, "Capacity Net Now").value])
    && Success(rec.dailySocLimit) == PercentCell(row[ColumnOf(header, "Daily SOC Limit").value])
    && Success(rec.dcRatio) == PercentCell(row[ColumnOf(header, "DC Ratio").value])
    && rec.tesla == CommaToDot(row[ColumnOf(header, "Tesla").value])
    && rec.version == CommaToDot(row[ColumnOf(header, "Version").value])
    && rec.battery == CommaToDot(row[ColumnOf(header, "Battery").value])
    && rec.cycles == (if "Cycles" in header then CyclesCell(row[ColumnOf(header, "Cycles").value]) else None)
  }

  /** Builds the records from the de-duplicated header and the projected
      rows, converting the columns in the order the fetch does; the first
      absent column or strict conversion that raises decides the error. */
  function ParseTable(header: seq<string>, rows: seq<seq<string>>): (r: Result<seq<Record>, SheetError>)
    requires Rectangular(rows, |header|)
    ensures "Age" !in header ==> r == Failure(MissingColumn("Age"))
    ensures r.Success? ==> |r.value| == |rows|
    ensures r.Failure? ==> r.error.MissingColumn? || r.error.NotAFloat?
  {
    var ageAt :- ColumnOf(header, "Age");
    var ages :- StrictColumn(rows, ageAt, "Age", 1, AgeCell);
    var odometerAt :- ColumnOf(header, "Odometer");
    var degradationAt :- ColumnOf(header, "Degradation");
    var rangeAt :- ColumnOf(header, "Rated Range");
    var capacityAt :- ColumnOf(header, "Capacity Net Now");
    var socAt :- ColumnOf(header, "Daily SOC Limit");
    var socs :- StrictColumn(rows, socAt, "Daily SOC Limit", 1, PercentCell);
    var dcAt :- ColumnOf(header, "DC Ratio");
    var dcs :- StrictColumn(rows, dcAt, "DC Ratio", 1, PercentCell);
    var teslaAt :- ColumnOf(header, "Tesla");
    var versionAt :- ColumnOf(header, "Version");
    var batteryAt :- ColumnOf(header, "Battery");
    var cyclesAt := ColumnOf(header, "Cycles");
    Success(seq(|rows|, i requires 0 <= i < |rows| =>
      Record(
        CommaToDot(rows[i][teslaAt]), CommaToDot(rows[i][versionAt]), CommaToDot(rows[i][batteryAt]),
        ages[i], OdometerCell(rows[i][odometerAt]),
        if cyclesAt.Success? then CyclesCell(rows[i][cyclesAt.value]) else None,
        DegradationCell(rows[i][degradationAt]), RatedRangeCell(rows[i][rangeAt]),
        CapacityCell(rows[i][capacityAt]), socs[i], dcs[i])))
  }

  /** The records are built exactly when every column the dashboard reads is
      present and every strictly converted cell converts. */
  lemma ParseTableSucceeds(header: seq<string>, rows: seq<seq<string>>)
    requires Rectangular(rows, |header|)
    ensures ParseTable(header, rows).Success? <==> (HasRequiredColumns(header)
      && forall i :: 0 <= i < |rows| ==> StrictCellsConvert(header, rows[i]))
  {
  }

  /** Each built record holds the converted cells of its row. */
  lemma ParseTableRecords(header: seq<string>, rows: seq<seq<string>>)
    requires Rectangular(rows, |header|) && ParseTable(header, rows).Success?
    ensures HasRequiredColumns(header)
    ensures forall i :: 0 <= i < |rows| ==> ConvertedRow(header, rows[i], ParseTable(header, rows).value[i])
  {
    ParseTableSucceeds(header, rows);
  }

  /** `[row[i] for i in keep]` for every data row; a row too short for a kept
      index raises. Row numbers count the header row as row 0. */
  function ProjectRows(rows: seq<seq<string>>, keep: seq<nat>, row0: nat): (r: Result<seq<seq<string>>, SheetError>)
    ensures r.Success? ==> (|r.value| == |rows| && Rectangular(r.value, |keep|)
      && forall i, k :: 0 <= i < |rows| && 0 <= k < |keep| ==>
           keep[k] < |rows[i]| && r.value[i][k] == rows[i][keep[k]])
    ensures r.Failure? <==> exists i, k :: 0 <= i < |rows| && 0 <= k < |keep| && keep[k] >= |rows[i]|
  {
    if rows == [] then Success([])
    else if exists k :: 0 <= k < |keep| && keep[k] >= |rows[0]| then Failure(ShortRow(row0))
    else
      var first := seq(|keep|, k requires 0 <= k < |keep| => rows[0][keep[k]]);
      match ProjectRows(rows[1..], keep, row0 + 1)
      case Failure(e) => Failure(e)
      case Success(rest) =>
        assert forall i :: 1 <= i < |rows| ==> rows[i] == rows[1..][i - 1];
        Success([first] + rest)
  }

  /** The header names the filter keeps, stripped. */
  function KeptNames(header: seq<string>, keep: seq<nat>): (r: seq<string>)
    requires forall k :: 0 <= k < |keep| ==> keep[k] < |header|
    ensures |r| == |keep|
  {
    seq(|keep|, k requires 0 <= k < |keep| => Strip(header[keep[k]]))
  }

  /** The sheet fetch after the download: header filter, row projection,
      header de-duplication and column conversions. Returns the kept column
      positions and the final header alongside the records. */
  method FetchData(data: seq<seq<string>>) returns (keep: seq<nat>, header: seq<string>, r: Result<seq<Record>, SheetError>)
    ensures data == [] ==> r == Failure(EmptySheet)
    ensures data != [] ==>
      && (forall k :: 0 <= k < |keep| ==> keep[k] < ScanEnd(data[0]) && Keepable(Strip(data[0][keep[k]])))
      && (forall k, l :: 0 <= k < l < |keep| ==> keep[k] < keep[l])
      && (forall i :: 0 <= i < ScanEnd(data[0]) && Keepable(Strip(data[0][i])) ==> i in keep)
      && IsDedupOf(KeptNames(data[0], keep), header)
      && match ProjectRows(data[1..], keep, 1)
         case Failure(e) => r == Failure(e)
         case Success(rows) => r == ParseTable(header, rows)
  {
    if data == [] {
      keep, header, r := [], [], Failure(EmptySheet);
      return;
    }
    var kept;
    kept, keep := FilterHeader(data[0]);
    assert kept == KeptNames(data[0], keep);
    var projected := ProjectRows(data[1..], keep, 1);
    header := Dedup(kept);
    match projected {
      case Failure(e) => r := Failure(e);
      case Success(rows) => r := ParseTable(header, rows);
    }
  }
}

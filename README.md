# teslatechapp data core in Dafny

This project models the data-cleaning core of teslatechapp. It has two Streamlit pages.

**The battery dashboard, `Dashboard.py`.** It downloads a crowd-sourced
spreadsheet of Tesla battery reports and processes it as follows:
- It filters and de-duplicates the header row.
- It turns locale-formatted text cells into numbers: "1.234 km", "12,5 kWh", "-3,1%", "24 Months".
- It filters the rows by the sidebar selections.
- It draws a scatter plot of degradation, capacity or range against age, odometer or cycles.
- It draws a bar chart of the mean degradation per month, per 1000 km or per cycle, for each battery type, in ascending order.

**The performance page, `pages/01_Performance.py`.** It works on a web directory of CSV drive logs:
- It classifies the log folders by their names, decoding percent-escapes.
- It offers the distinct folder attributes as filters.
- For each log it reads and caches the first plausible SOC and cell temperature, rounded as Python's `round` does.
- It keeps the logs within the chosen SOC and temperature ranges.
- It cleans each log: forward and backward fill, plausibility ranges, speed range, and a speed-must-rise filter.
- It turns the selected power, current, voltage and torque channels into lines against speed, each with a legend colour taken round-robin from a fixed palette.

The Dafny modules follow those steps:

| module | file | models |
|---|---|---|
| `Text` | text.dfy | `Option`/`Result`, `str.strip`, `str.replace`, `str(n)`, the decimal literals `pd.to_numeric` accepts |
| `Seqs` | seqs.dfy | boolean-mask selection, string order, `sorted` of a set |
| `Headers` | headers.dfy | the header filter loop and the de-duplication loop (imperative, as in the page's code) |
| `Records` | records.dfy | the per-column cell conversions and the assembly of the records table |
| `Metrics` | metrics.dfy | the sidebar row filters, the scatter-plot rows, degradation per x, group means and the ascending sort |
| `Folders` | folders.dfy | `classify_folder`, `urllib.parse.unquote`, the folder catalogue, `get_unique_values`, the folder filter |
| `Telemetry` | telemetry.dfy | `ffill`/`bfill`, the log cleaning, `dropna`, and the plotted channels |
| `Files` | files.dfy | Python `round`, the first-valid-values scan, the metadata cache, file collection, the slider filter |
| `LegendColors` | colors.dfy | the `folder_colors` dictionary filled round-robin from the ten-colour palette |

Where the code mutates state it is modelled imperatively:
- The header loops are methods with loop invariants.
- The metadata cache and the colour dictionary are classes with a `map` field.
- `get_unique_values` and the folder scan are methods with loops.

Everything else is pure functions, each specified by lemmas.

Data the program fetches over the network or reads from files is passed in as parameters. This covers the spreadsheet rows, the directory links, the hrefs of a folder and the parsed CSV logs. A missing value (NaN or None) is `Option.None`. A pandas `KeyError` or a failing `astype(float)` is a `Result` failure or `None`.

In four places the code behaves differently from what one might expect, and the model follows the code:
- **Header suffixes.** Repeated headers get the suffixes `_1`, `_2`, … (`Dashboard.py:94-98`), not `_2`, `_3`, ….
- **Speed filter.** It compares each speed with the previous row of the range-filtered log (`pages/01_Performance.py:357`), not with the previous kept row. So after a dip, a speed below the last kept one can be kept (`Telemetry.RiseComparesWithPreviousRow`).
- **Missing Speed column.** The speed filter runs whether or not the log has a Speed column. A log without one raises, and is modelled as `None`.
- **Column policy.** Only the "stop at DC Ratio" policy exists in `Dashboard.py`. A column-exclusion list by spreadsheet position is not part of this code.

## Model

| member | source | states |
|---|---|---|
| Text.TrimLeftShape | Dashboard.py:72 | the left trim of `strip` returns a suffix that starts with a kept character, and everything it removed is a dropped character |
| Text.TrimRightShape | Dashboard.py:72 | the right trim of `strip` returns a prefix that ends with a kept character, and everything it removed is a dropped character |
| Text.StripShape | Dashboard.py:72 | `strip()` returns an infix whose ends are not whitespace; everything cut off on either side is whitespace |
| Text.StripIdempotent | Dashboard.py:89 | stripping again (the de-duplication loop strips a second time) changes nothing |
| Text.ReplaceAbsent | Dashboard.py:123 | `str.replace` leaves a string in which the pattern never occurs unchanged |
| Text.ReplaceCharRemovesIt | Dashboard.py:108 | after replacing a character with text that does not contain it, the character no longer occurs |
| Text.ReplaceCharAbsent | Dashboard.py:111 | replacing a character that does not occur changes nothing |
| Text.ReplaceCharKeepsOthers | Dashboard.py:108 | replacing one character keeps every other character that occurs |
| Text.ReplaceKeepsNoDigits | Dashboard.py:105-134 | replacing text by digit-free text never brings a digit in |
| Text.ReplaceCharConcat | Dashboard.py:111 | a one-character replace distributes over concatenation |
| Text.ReplaceAfterPrefix | Dashboard.py:123 | a leading character that cannot start the pattern passes through the replace |
| Text.ReplaceTrailingUnit | Dashboard.py:123 | a unit text that starts with a non-digit and follows digits is replaced exactly once, at the end |
| Text.NatToString | Dashboard.py:95 | `str(n)` is a non-empty string of digits |
| Text.NatToStringRoundTrip | Dashboard.py:95 | reading back the digits of `str(n)` gives n |
| Text.NatToStringInjective | Dashboard.py:95 | different suffix numbers spell different suffixes |
| Text.DigitPrefix | Dashboard.py:108 | the leading digit run is all digits and is followed by a non-digit or the end |
| Text.ParseUnsigned | Dashboard.py:124 | an unsigned literal never parses to a negative value |
| Text.ParseNatToString | Dashboard.py:124 | a number written out in decimal converts back to itself |
| Text.DigitsPrefixAll | Dashboard.py:108 | a string of digits is its own leading digit run |
| Text.ParseNegated | Dashboard.py:117 | a minus sign in front negates an unsigned literal, and makes anything else, even an already signed literal, unparseable |
| Text.NegatedNeverPositive | Dashboard.py:117 | whatever text follows a prepended minus sign, the converted value is never positive |
| Text.NoDigitsUnparseable | Dashboard.py:105-134 | text without a digit is never a number, signed or not |
| Text.UnsignedNeedsDigit | Dashboard.py:105-134 | an unsigned literal needs a digit |
| Seqs.Filter | Dashboard.py:262 | mask selection keeps exactly the elements meeting the condition, with their multiplicities, and never lengthens the list |
| Seqs.FilterKeepsAll | Dashboard.py:373-374 | selecting with a condition every row already meets returns the same rows |
| Seqs.FilterIdempotent | Dashboard.py:373-374 | selecting twice with the same condition equals selecting once |
| Seqs.CardinalityOfElements | pages/01_Performance.py:89-94 | a sequence has at least as many elements as distinct values, and exactly as many when it has no repeats |
| Seqs.BelowIrreflexive | pages/01_Performance.py:94 | the string order used by `sorted` is irreflexive |
| Seqs.BelowTransitive | pages/01_Performance.py:94 | the string order is transitive |
| Seqs.BelowTotal | pages/01_Performance.py:94 | any two different strings are ordered one way or the other |
| Seqs.Insert | pages/01_Performance.py:93 | adding a value to the sorted set keeps it strictly ascending, and adds that value and nothing else |
| Seqs.StrictlySortedDistinct | pages/01_Performance.py:94 | a strictly ascending list has no repeats |
| Seqs.SortedUnique | pages/01_Performance.py:94 | `sorted(values)` depends only on the set: two strictly ascending lists with the same elements are equal |
| Headers.SentinelIndex | Dashboard.py:76-78 | the first header that strips to "DC Ratio", if any; none before it does |
| Headers.ScanEnd | Dashboard.py:71-78 | the number of headers the loop looks at never exceeds the header's length (Headers.SentinelAt says where it ends) |
| Headers.ScanHeader | Dashboard.py:66-78 | the loop reports the sentinel position and, up to the end of its scan, keeps exactly the keepable stripped names, at their increasing positions, with "DC Ratio" last when present |
| Headers.ScanStep | Dashboard.py:72-75 | one iteration keeps the loop invariant: a keepable header is appended with its position, any other is skipped |
| Headers.SentinelAt | Dashboard.py:76-78 | a loop exit at position i means the first "DC Ratio" is at i and the scan ends after it; running off the end means there is none |
| Headers.FilterHeader | Dashboard.py:66-81 | kept names are the stripped, non-empty headers that do not start with "_", up to the first "DC Ratio"; positions are increasing and none is missed; the truncation at `stop_index + 1` changes nothing |
| Headers.Dedup | Dashboard.py:86-99 | each header becomes its stripped name if not yet emitted, else that name with the smallest free suffix `_1`, `_2`, …; the output has no duplicates |
| Headers.SuffixedInjective | Dashboard.py:95-98 | different suffix numbers give different candidate names |
| Headers.TakenSuffixesFit | Dashboard.py:96-98 | the suffix search stops by suffix \|emitted\|+1, so the `while` loop terminates |
| Headers.StripAll | Dashboard.py:89 | every header stripped, position by position |
| Headers.SuffixedDiffers | Dashboard.py:95 | a suffixed name never equals the name it came from |
| Headers.KeptNameIffFree | Dashboard.py:90-91 | a header keeps its own name exactly when that name has not been emitted before it |
| Headers.DistinctNotBefore | Dashboard.py:90 | in a list without repeats, no element occurs before its own position |
| Headers.DedupOfUniqueIsIdentity | Dashboard.py:86-99 | headers that are already distinct after stripping come out unchanged |
| Headers.RenamedAsUnique | Dashboard.py:90-99 | the name chosen for one header is determined by the names emitted before it |
| Headers.DedupDeterministic | Dashboard.py:86-99 | de-duplication is deterministic: re-parsing the same headers gives the same names |
| Headers.DedupExample | Dashboard.py:86-99 | ["A","B","A","A"] becomes ["A","B","A_1","A_2"] |
| Headers.DedupRenamesCollidingOriginal | Dashboard.py:86-99 | ["A","A","A_1"] becomes ["A","A_1","A_1_1"]: a generated name can force a later original to be renamed |
| Records.FirstDigitIndex | Dashboard.py:108 | the position of the first digit; nothing before it is a digit |
| Records.FirstDigitRun | Dashboard.py:108 | `extract('(\d+)')` is absent exactly when there is no digit; otherwise it is the leftmost maximal digit run |
| Records.DegradationCell | Dashboard.py:111-130 | a converted Degradation cell is never positive, and text without a digit never converts to a value |
| Records.DegradationIsNegatedPercentage | Dashboard.py:111-130 | Degradation is the negated unsigned percentage after comma-to-dot; only the exact text "0.0%" becomes null |
| Records.DegradationRoundTrip | Dashboard.py:111-130 | "n%" reads back as -n, including 0 for "0%" |
| Records.DegradationZeroIsNull | Dashboard.py:120 | "0,0%" becomes null |
| Records.DigitPrefixOf | Dashboard.py:108 | the leading digit run of digits followed by a non-digit is those digits |
| Records.OdometerReadsLeadingDigits | Dashboard.py:108 | an odometer cell whose comma-free text starts with digits reads as those digits, whatever unit follows |
| Records.CommaAlone | Dashboard.py:108 | a lone comma is removed |
| Records.SeparatorDropped | Dashboard.py:108 | removing the commas from "a,rest", where neither part has a comma, gives a + rest |
| Records.AllDigitsConcat | Dashboard.py:108 | two digit strings joined are a digit string |
| Records.OdometerWithSeparator | Dashboard.py:108 | "a,b" followed by a unit reads as the number with digits a then b (the thousands separator is dropped) |
| Records.OdometerCell | Dashboard.py:108 | the odometer is null exactly when the comma-free text has no digit; otherwise it is a non-negative whole number |
| Records.OdometerNullIffNoDigits | Dashboard.py:108 | an odometer cell is null exactly when its text has no digit |
| Records.CommaFreeDigits | Dashboard.py:111 | digits with a comma-free unit are untouched by the comma-to-dot pass |
| Records.RatedRangeRoundTrip | Dashboard.py:123-124 | "n km" reads back as n |
| Records.CapacityRoundTrip | Dashboard.py:126-127 | "n kWh" reads back as n |
| Records.AgeRoundTrip | Dashboard.py:105 | "n Months" reads back as n, and a blank age is null |
| Records.PercentRoundTrip | Dashboard.py:133-134 | "n%" in Daily SOC Limit or DC Ratio reads back as n |
| Records.UnparseableCells | Dashboard.py:105-134 | any text without a digit is null in the coerced columns (Rated Range, Capacity Net Now, Degradation, Cycles); in Age, Daily SOC Limit and DC Ratio it is null when blank after the unit and comma passes and makes `astype(float)` fail on that text otherwise |
| Records.DegradationWithoutDigits | Dashboard.py:114-130 | a digit-free Degradation text is never the "-0.0%" marker and does not convert |
| Records.AgeCell | Dashboard.py:105 | an Age value comes only from text with a digit (round trip and failures: Records.AgeRoundTrip, Records.UnparseableCells) |
| Records.PercentCell | Dashboard.py:133-134 | a Daily SOC Limit or DC Ratio value comes only from text with a digit (round trip: Records.PercentRoundTrip) |
| Records.RatedRangeCell | Dashboard.py:123-124 | a Rated Range value comes only from text with a digit (round trip: Records.RatedRangeRoundTrip) |
| Records.CapacityCell | Dashboard.py:126-127 | a Capacity Net Now value comes only from text with a digit (round trip: Records.CapacityRoundTrip) |
| Records.CyclesCell | Dashboard.py:436-437 | a Cycles value comes only from text with a digit |
| Records.ColumnOf | Dashboard.py:105 | a column lookup succeeds exactly when the name is in the header, at its position, else it fails with that name (`KeyError`) |
| Records.StrictColumn | Dashboard.py:105 | `astype(float)` on a column succeeds exactly when every cell converts, giving those values, else fails naming a row whose cell does not |
| Records.ParseTable | Dashboard.py:102-134 | without "Age" the table fails on it; a success has one record per row; the only errors are a missing column or a failed float conversion |
| Records.ParseTableSucceeds | Dashboard.py:102-134 | the records are built exactly when every column read is present and every strictly converted cell converts |
| Records.ParseTableRecords | Dashboard.py:102-134 | each record holds its row's converted cells, each taken from the column of its name |
| Records.ProjectRows | Dashboard.py:84 | the projection keeps the kept positions of every row in order, and fails exactly when some row is too short |
| Records.KeptNames | Dashboard.py:74 | one kept name per kept position |
| Records.FetchData | Dashboard.py:60-136 | an empty sheet fails; otherwise the kept positions are exactly the keepable ones up to "DC Ratio", the header is the de-duplication of their names, and the records are those of the projected rows |
| Metrics.SelectRows | Dashboard.py:275-290 | keeps exactly the rows matching every non-empty multiselect, with their multiplicities |
| Metrics.NoSelectionKeepsAll | Dashboard.py:275-276 | with nothing selected the whole table is kept |
| Metrics.AgeOdometerRows | Dashboard.py:314-315 | keeps exactly the rows whose age and odometer lie in the closed ranges (null never does), each as often as it occurs in the table |
| Metrics.SocDcRows | Dashboard.py:350-370 | keeps exactly the rows meeting the ticked Daily SOC Limit and DC Ratio ranges, each as often as it occurs in the table |
| Metrics.FilteredRows | Dashboard.py:275-374 | every row of the filtered table is a row of the table matching the multiselects (the full condition: Metrics.FilteredRowsSpec) |
| Metrics.FilteredRowsSpec | Dashboard.py:275-374 | applying the age and odometer ranges again changes nothing; a row survives exactly when it meets every condition |
| Metrics.PlotRows | Dashboard.py:437-440 | the scatter plot shows exactly the rows with a positive x and a present y |
| Metrics.Divisor | Dashboard.py:534-546 | the divisor is positive (1000 for odometer, 1 otherwise) |
| Metrics.RatioOf | Dashboard.py:548-558 | a row has a ratio exactly when degradation and x are present, x is non-zero and degradation is non-zero; the ratio times x/divisor is the degradation |
| Metrics.Ratios | Dashboard.py:548-558 | the (battery, ratio) pairs are exactly those of rows with a ratio |
| Metrics.CountPositive | Dashboard.py:561 | a battery has a group exactly when it has a ratio |
| Metrics.TotalAtLeast | Dashboard.py:561 | a battery's total is at least count × the lower bound of its ratios |
| Metrics.TotalAtMost | Dashboard.py:561 | a battery's total is at most count × the upper bound of its ratios |
| Metrics.TotalNegative | Dashboard.py:561 | negative ratios give a negative total |
| Metrics.MeanBetween | Dashboard.py:561 | a group mean lies between the group's smallest and largest ratio |
| Metrics.Keys | Dashboard.py:561 | the group keys are the batteries with a ratio, strictly ascending |
| Metrics.GroupMeans | Dashboard.py:561 | one (battery, mean) pair per key, in key order |
| Metrics.SortedCons | Dashboard.py:564 | an entry no larger than the head of a sorted list keeps it sorted |
| Metrics.InsertByValue | Dashboard.py:564 | inserting into an ascending list keeps it ascending and adds exactly that entry |
| Metrics.SortByValue | Dashboard.py:564 | `sort_values(ascending=True)` is ascending and a permutation of its input |
| Metrics.SortKeepsEntries | Dashboard.py:564 | sorting keeps the number of entries and the entries themselves |
| Metrics.GroupIffRatio | Dashboard.py:561 | a battery has a group exactly when one of its rows has a ratio |
| Metrics.AverageDegradationSpec | Dashboard.py:534-564 | the bars ascend, there is one per battery with a ratio and no other, and each carries that battery's mean ratio |
| Metrics.AverageDegradation | Dashboard.py:554-564 | the bars ascend and each belongs to a battery that has a ratio |
| Metrics.RatiosPerRow | Dashboard.py:548-561 | the pairs hold one entry per row with a ratio: a battery's count and total over the pairs are its number of such rows and the sum of their ratios |
| Metrics.BarsAreRowMeans | Dashboard.py:548-564 | each bar is the sum of its battery's row ratios divided by the number of its rows that have a ratio |
| Metrics.RatioNegative | Dashboard.py:554-558 | with degradation never positive and x never negative, every kept ratio is negative |
| Metrics.RatiosNegative | Dashboard.py:554-558 | the same for every pair of the table |
| Metrics.MeanNegative | Dashboard.py:561 | the mean of negative ratios is negative |
| Metrics.AveragesNegative | Dashboard.py:114-564 | with stored degradations (never positive) and non-negative x, every bar is negative |
| Metrics.RatioExample | Dashboard.py:542-554 | 10 % lost over 100 000 km is -0.1 per 1000 km |
| Folders.HexDigit | pages/01_Performance.py:60-61 | the hex digit for v reads back as v |
| Folders.Unquote | pages/01_Performance.py:60-61 | decoding never lengthens the text |
| Folders.UnquotePlain | pages/01_Performance.py:60-61 | text without "%" decodes to itself |
| Folders.UnquoteEscape | pages/01_Performance.py:60-61 | a percent-encoded character decodes to that character |
| Folders.UnquoteQuote | pages/01_Performance.py:60-61 | decoding undoes the model's per-character percent-encoding (codes up to 255 as one byte) |
| Folders.UnquotePlainPrefix | pages/01_Performance.py:60-61 | a "%"-free prefix passes through decoding |
| Folders.UnquoteSpace | pages/01_Performance.py:60-61 | "%20" decodes to a space |
| Folders.UnderscoreAt | pages/01_Performance.py:48-55 | the first "_" and no "_" before it |
| Folders.SlashAt | pages/01_Performance.py:56 | the first "/" and no "/" before it |
| Folders.TakeField | pages/01_Performance.py:48-55 | a `([^_]+)_` match is a non-empty field without "_" followed by "_" and the rest |
| Folders.TakeFieldOf | pages/01_Performance.py:48-55 | a plain field followed by "_" is matched as that field |
| Folders.TakeFields | pages/01_Performance.py:48-55 | n matched groups are n plain fields that rebuild the text |
| Folders.TakeFieldsOf | pages/01_Performance.py:48-55 | n plain fields joined by "_" are matched as those fields |
| Folders.SlashAtMode | pages/01_Performance.py:56 | `[^/]+` stops at the slash after the last group |
| Folders.ClassifySpelled | pages/01_Performance.py:47-62 | every well-formed folder name, with or without a trailing path, classifies to its decoded groups |
| Folders.ClassifySound | pages/01_Performance.py:47-64 | every name that classifies is a well-formed name followed by nothing or by "/…" |
| Folders.ClassifyRejectsYear | pages/01_Performance.py:51 | a model year that is not all digits does not match |
| Folders.ClassifyLink | pages/01_Performance.py:66-74 | a link yields a folder exactly when its slash-stripped name classifies; the folder carries that classification and the link resolved against the base |
| Folders.Classified | pages/01_Performance.py:66-74 | no more folders than links |
| Folders.ClassifiedMembers | pages/01_Performance.py:66-74 | a folder is catalogued exactly when some link classifies to it |
| Folders.ScanAndClassify | pages/01_Performance.py:66-74 | the loop appends the classified links, with their joined paths, in link order |
| Folders.FilterFolders | pages/01_Performance.py:233-234 | keeps exactly the folders matching every selection whose key they have |
| Folders.NoFiltersKeepAll | pages/01_Performance.py:233-234 | without selections every folder is kept |
| Folders.UniqueValues | pages/01_Performance.py:88-94 | strictly ascending, and exactly the values under the key of the folders matching the filters |
| Telemetry.FFill | pages/01_Performance.py:213 | forward fill keeps the length |
| Telemetry.BFill | pages/01_Performance.py:213 | backward fill keeps the length |
| Telemetry.Fill | pages/01_Performance.py:213 | `ffill().bfill()` keeps the length |
| Telemetry.FFillSpec | pages/01_Performance.py:213 | row i of the forward fill is the last present value at or above i |
| Telemetry.BFillSpec | pages/01_Performance.py:213 | row i of the backward fill is the first present value at or below i |
| Telemetry.LastPresentNone | pages/01_Performance.py:213 | nothing is found exactly when every cell is missing |
| Telemetry.FirstPresentSkip | pages/01_Performance.py:213 | leading missing cells are skipped |
| Telemetry.FirstPresentAt | pages/01_Performance.py:213 | the first present cell is what is found |
| Telemetry.FirstPresentNone | pages/01_Performance.py:213 | nothing is found exactly when every cell is missing |
| Telemetry.FFillMissing | pages/01_Performance.py:213 | the forward fill is missing at j exactly when nothing at or above j is present |
| Telemetry.FillSpec | pages/01_Performance.py:213 | after the fill, row i holds the last present value at or above it, else the column's first present value |
| Telemetry.FillFromFirst | pages/01_Performance.py:213 | above the first present value, the forward fill finds the column's first value |
| Telemetry.FirstPresentExists | pages/01_Performance.py:213 | a found value sits at some present cell |
| Telemetry.FillKeepsPresent | pages/01_Performance.py:213 | the fill never changes a present cell |
| Telemetry.FillComplete | pages/01_Performance.py:213 | after the fill, a cell is present exactly when the column has any present value |
| Telemetry.Where | pages/01_Performance.py:350 | the row indices a mask keeps: increasing, each marked true, none missed |
| Telemetry.Pick | pages/01_Performance.py:350 | the cells at the chosen rows |
| Telemetry.Keep | pages/01_Performance.py:350 | `df[mask]` keeps the header and takes, in every column, the rows marked true |
| Telemetry.Compose | pages/01_Performance.py:350-357 | rows of rows are the original rows at the composed indices |
| Telemetry.KeepRows | pages/01_Performance.py:350 | a mask selection consists of rows of the frame it selects from |
| Telemetry.RowsOfRows | pages/01_Performance.py:350-357 | a selection of a selection is a selection of the original |
| Telemetry.FillAll | pages/01_Performance.py:347 | `df.ffill().bfill()` fills every column and keeps the header and height |
| Telemetry.RangeMask | pages/01_Performance.py:350 | marks the rows with SOC in [0, 101] and cell temperature in [0, 70] |
| Telemetry.SpeedMask | pages/01_Performance.py:353-354 | marks the rows with speed in [0, 210] |
| Telemetry.RiseMask | pages/01_Performance.py:357 | one mark per row |
| Telemetry.RangeFiltered | pages/01_Performance.py:347-354 | a well-formed log with the same header |
| Telemetry.CleanRows | pages/01_Performance.py:347-357 | a well-formed log with the same header |
| Telemetry.CleanRowsDefined | pages/01_Performance.py:350-357 | cleaning fails (`KeyError`) exactly when SOC, cell temperature or Speed is missing |
| Telemetry.KeptRow | pages/01_Performance.py:350 | a kept row is the original row its mask entry selected |
| Telemetry.CleanRowsInRange | pages/01_Performance.py:350-357 | every cleaned row has SOC, cell temperature and speed in their ranges |
| Telemetry.TwoMasks | pages/01_Performance.py:350-354 | two successive mask selections equal one selection with the combined mask |
| Telemetry.SpeedMaskOf | pages/01_Performance.py:353-354 | the speed range read on the filled log's rows |
| Telemetry.RangeFilteredSpec | pages/01_Performance.py:347-354 | the range-filtered log holds exactly the filled rows meeting the SOC, temperature and (if present) speed ranges, in order |
| Telemetry.RangedWithSpeed | pages/01_Performance.py:350-354 | the two range steps keep exactly the rows meeting both |
| Telemetry.RangeFilteredSpeeds | pages/01_Performance.py:353-354 | after the range filters every speed is present and in [0, 210] |
| Telemetry.RiseMaskSpec | pages/01_Performance.py:357 | on present speeds, a row passes exactly when it is the first or its speed exceeds the previous row's |
| Telemetry.CleanRowsRise | pages/01_Performance.py:357 | a range-filtered row survives cleaning exactly when it is the first or faster than the row before it |
| Telemetry.RiseAfterRange | pages/01_Performance.py:357 | the same, on any log whose speeds all passed the speed range |
| Telemetry.CleanRowsUnfold | pages/01_Performance.py:347-357 | a successful cleaning is the rise filter applied to the range-filtered log |
| Telemetry.CleanRowsAreFilledRows | pages/01_Performance.py:347-357 | every cleaned row is a filled row of the original log, in order |
| Telemetry.WhereExample | pages/01_Performance.py:350 | the mask true, true, false, true keeps rows 0, 1, 3 |
| Telemetry.RiseExample | pages/01_Performance.py:357 | speeds 10, 20, 15, 30: the dip to 15 is dropped |
| Telemetry.RiseComparesWithPreviousRow | pages/01_Performance.py:357 | speeds 10, 20, 15, 18: 18 is kept although the last kept speed was 20 |
| Telemetry.Sources | pages/01_Performance.py:304-313 | a pair choice reads two columns, the others one |
| Telemetry.Subset | pages/01_Performance.py:360-368 | the `dropna` subset starts with Speed and holds every column of every selected choice, and nothing else |
| Telemetry.CompleteRows | pages/01_Performance.py:371-376 | a row is listed exactly when it has a value in every subset column the log has |
| Telemetry.DropMissing | pages/01_Performance.py:371-376 | `dropna` returns a well-formed log with the same header, made of exactly the complete rows in their original order |
| Telemetry.DropMissingComplete | pages/01_Performance.py:371-376 | every row left by `dropna` has a value in each subset column the log has |
| Telemetry.DropMissingKeepsComplete | pages/01_Performance.py:371-376 | every complete row survives `dropna` as some row of the result |
| Telemetry.Points | pages/01_Performance.py:401 | the (speed, value) pairs at the chosen rows |
| Telemetry.AtLeast | pages/01_Performance.py:398 | marks the rows whose value is present and at least the threshold |
| Telemetry.AllRows | pages/01_Performance.py:411 | marks every row |
| Telemetry.WhereAllRows | pages/01_Performance.py:411 | selecting every row selects the positions 0, 1, 2, … |
| Telemetry.AllRowsPoints | pages/01_Performance.py:411-417 | plotting every row pairs the two columns row by row |
| Telemetry.KeptPoint | pages/01_Performance.py:396-402 | a row the mask keeps contributes its point |
| Telemetry.Available | pages/01_Performance.py:388 | exactly the listed columns the log has, no more of them than listed |
| Telemetry.RowSum | pages/01_Performance.py:395 | with `skipna`, a row whose available columns are all missing sums to 0 |
| Telemetry.CombinedColumn | pages/01_Performance.py:395 | each row holds the sum of the present values of the available columns |
| Telemetry.PerColumn | pages/01_Performance.py:409-417 | one line per available column, labelled with the column's name and holding every row's (speed, value) in row order |
| Telemetry.PlottedPoints | pages/01_Performance.py:440 | the final `dropna` keeps exactly the points with both coordinates |
| Telemetry.PlottedPointsKeepsAll | pages/01_Performance.py:440 | points that all have both coordinates are all kept |
| Telemetry.PointsComplete | pages/01_Performance.py:401-402 | points taken from present cells have both coordinates |
| Telemetry.PerColumnPlotted | pages/01_Performance.py:409-417 | per-column lines over complete rows have only complete points |
| Telemetry.MaskedPointsComplete | pages/01_Performance.py:396-402 | a threshold selection over complete rows gives complete points |
| Telemetry.SeriesForPlotted | pages/01_Performance.py:383-433 | the lines of one choice over rows complete in its columns have only complete points |
| Telemetry.ColumnsCompleteWithin | pages/01_Performance.py:371-376 | completeness over a list of columns holds for any sub-list |
| Telemetry.AllPlottedConcat | pages/01_Performance.py:437 | concatenating complete lines gives complete lines |
| Telemetry.SeriesForAllPlotted | pages/01_Performance.py:383-433 | all selected lines over rows complete in the subset are complete |
| Telemetry.FileSeriesPlotted | pages/01_Performance.py:342-440 | every point a log contributes has a speed and a value, so the final `dropna` removes nothing |
| Telemetry.BatteryPowerAtLeast40 | pages/01_Performance.py:426-427 | every battery-power point has a value of at least 40 |
| Telemetry.CombinedPowerAtLeast20 | pages/01_Performance.py:395-398 | every combined-power point is the row sum of the available motor columns and at least 20 |
| Telemetry.BatteryPowerPlotsAtLeast40 | pages/01_Performance.py:424-433 | every row whose battery power is at least 40 is plotted with its speed |
| Telemetry.CombinedPowerPlotsAtLeast20 | pages/01_Performance.py:391-405 | every row whose combined motor power is at least 20 is plotted with its speed |
| Telemetry.SingleColumnEveryRow | pages/01_Performance.py:420-433 | a single column other than battery power is one line, labelled with the choice, holding every row |
| Telemetry.CombinedTorqueEveryRow | pages/01_Performance.py:391-405 | combined torque is one line holding every row's sum |
| Telemetry.MotorColumnsEveryRow | pages/01_Performance.py:407-417 | the per-motor choices give one line per available column, each holding every row |
| Telemetry.SeriesFor | pages/01_Performance.py:383-433 | a choice draws nothing exactly when none of its columns is in the log, never more lines than it has columns, and no line longer than the log |
| Telemetry.SeriesForAll | pages/01_Performance.py:383-433 | the lines are exactly the lines of the selected choices |
| Telemetry.FileSeries | pages/01_Performance.py:342-433 | the result is None exactly when cleaning raises its uncaught `KeyError`, which stops the page run so that no chart is drawn at all |
| Telemetry.CombinedSum | pages/01_Performance.py:395 | with both motor columns present the combined value is their sum; with one absent it is the other |
| Files.Round | pages/01_Performance.py:225-226 | `round` gives an integer within 0.5 of x, the even one on a tie |
| Files.RoundUnique | pages/01_Performance.py:225-226 | those two properties determine the result |
| Files.RoundTies | pages/01_Performance.py:225-226 | 2.5 rounds to 2, 3.5 to 4, -0.5 to 0 |
| Files.ScanFirstValid | pages/01_Performance.py:202-230 | the header as read; values exactly when both columns exist and some filled row is plausible, and then the rounded values of the first such row |
| Files.MetadataCache.constructor | pages/01_Performance.py:33 | an empty cache |
| Files.MetadataCache.Fetch | pages/01_Performance.py:197-230 | a cached URL returns its entry and changes nothing; otherwise the scan of the served log is returned and stored under the URL |
| Files.AfterLastSlash | pages/01_Performance.py:252 | `split('/')[-1]` is the slash-free end of the href |
| Files.CollectFolder | pages/01_Performance.py:244-259 | at most one entry per listed file |
| Files.CollectFolderSound | pages/01_Performance.py:245-259 | every collected file is the entry of a usable listed file |
| Files.CollectFolderComplete | pages/01_Performance.py:245-259 | every usable listed file is collected |
| Files.ScannedValuesUsable | pages/01_Performance.py:207-250 | a scan that found values makes its file usable |
| Files.MinOf | pages/01_Performance.py:274-276 | the minimum is a member and no member is below it |
| Files.MaxOf | pages/01_Performance.py:275-277 | the maximum is a member and no member is above it |
| Files.Socs | pages/01_Performance.py:274-275 | the SOC of each file, in order |
| Files.Temps | pages/01_Performance.py:276-277 | the temperature of each file, in order |
| Files.FilterFiles | pages/01_Performance.py:292-296 | keeps exactly the files inside both closed slider ranges |
| Files.FullRangesKeepAll | pages/01_Performance.py:274-296 | the full ranges from minimum to maximum keep every file |
| LegendColors.PaletteDistinct | pages/01_Performance.py:332 | the palette holds ten different colours |
| LegendColors.FirstSeen | pages/01_Performance.py:336-340 | the labels in first-seen order: no repeats, and exactly the labels met |
| LegendColors.ColorsForSpec | pages/01_Performance.py:339-340 | the label at first-seen position i gets palette colour i mod 10; the keys are exactly those labels |
| LegendColors.SameColorIff | pages/01_Performance.py:339-340 | two labels share a colour exactly when their first-seen positions are equal mod 10 |
| LegendColors.FirstSeenStep | pages/01_Performance.py:339 | one more label extends the first-seen order exactly when it is new |
| LegendColors.ColorMap.constructor | pages/01_Performance.py:335 | an empty colour map |
| LegendColors.ColorMap.Assign | pages/01_Performance.py:339-340 | a new label gets colour (number of labels so far) mod 10; a known label keeps its colour; no other entry changes |
| LegendColors.ColoredStep | pages/01_Performance.py:336-340 | colouring one more file keeps the earlier files' colours |
| LegendColors.AssignEach | pages/01_Performance.py:336-340 | after the loop the map is the colouring of the labels in first-seen order, and each file's colour is its label's entry |
| LegendColors.AssignAll | pages/01_Performance.py:335-340 | starting from an empty map, the same |

## Left out

- The network and file I/O are parameters: gspread, `requests`, BeautifulSoup link scraping (including its `.csv` and trailing-"/" href filters), `pd.read_csv`, and the JSON load and save of the metadata cache.
  - The cache starts empty.
  - A directory that cannot be fetched appears as an empty link list.
- Streamlit, Plotly and their layout, widgets and messages are not modelled. The sidebar choices enter as parameters, as the settings and filter maps and the slider ranges. The label shown to the user and the `(95, 100)` slider default are not part of the model.
- Trend lines (scikit-learn polynomial regression), `uniform_filter1d` smoothing, the plot's colour map by label and its sorting by x are drawing only; they are not modelled.
- Floating point is modelled as exact reals. pandas float conversion is modelled on the decimal subset `[+-]?(digits[.digits] | .digits)`: exponents, "inf"/"nan", surrounding whitespace and underscores are not modelled.
- Text.StripShape and `Headers` strip only ASCII whitespace. Python's `str.strip()` also removes Unicode spaces.
- Folders.Unquote works per character. The decoding of multi-byte UTF-8 escapes is not modelled. `\d` in the folder pattern is ASCII digits only.
- Records.FirstDigitRun matches ASCII digits only. The `\d` of the Odometer `str.extract` (Dashboard.py:108) also matches other Unicode decimal digits.
- `urllib.parse.urljoin` is modelled as base + href, which is what it gives for the relative hrefs of a directory listing.
- Metrics.SortByValue does not fix the order of equal ratios. pandas' default sort is not stable either.
- A missing "Cycles" column is treated as null cells.
- A pandas `KeyError` in cleaning or plotting is modelled as `None`. An error in the sheet assembly is a `Result` failure.
- Telemetry.SeriesFor models `'Battery power' in y_cols` as the Battery Power choice. That is the only choice whose column name contains that text.
- Files.InSelection drops the `min_temp is None` alternative. It can never hold, because every collected file has a temperature.
- The file's short name is used only in warning messages, so it has no contract.


# MicroSIP marker exporter, modelled in Dafny

This project models the core of `stamppy.py`, a desktop tool that takes a
MicroSIP call log and turns it into audio-editor markers. The tool does
four things, and the model covers each:

- It reads a show window typed in GMT as `"%a, %d %b %Y %H:%M:%S"`.
- It keeps the answered calls inside that window: status exactly
  "Call Ended", or a status containing "Voicemail".
- It sorts them by call time.
- It renders them as one of two tab-separated tables: an Adobe Audition
  cue list or an Audacity label track.

Around that pipeline sits the app's state. That state is:

- the loaded log `df`;
- the rendered table `out_df`;
- whether the Export button is enabled;
- the two window fields, the chosen format and the duration label.

The state is changed by `process_data`, `load_csv`, `_on_format_change`,
`reset`, and the guard of `export_csv`.

The files:

- `wrappers.dfy`: the `Option` and `Result` types.
- `text.dfy` (module `Text`):
  - decimal digits and zero padding;
  - Python's `str.strip()` over the `str.isspace()` characters;
  - substring search.
- `time_format.dfy` (module `TimeFormat`):
  - `secs_to_hms`, with its truncation toward zero and the `timedelta.seconds`
    wrap at one day;
  - `human_duration`;
  - the `f"{x:.3f}"` rendering of the label track, with a reader for each
    rendering.
- `gmt_parse.dfy` (module `GmtParse`):
  - `parse_gmt_to_local`, as a `strptime` scanner over the fixed format,
    plus the writer it inverts;
  - the ranges `datetime` enforces;
  - the instant as seconds since the Epoch, by Python's proleptic Gregorian
    ordinal, which equals the formula of section 4.16 of the POSIX.1-2017
    Base Definitions.
- `markers.dfy` (module `Markers`):
  - the call records and the status and window filters;
  - the sort;
  - marker numbering and offsets, and the two row schemas;
  - the row-building loop;
  - window validation;
  - `Pipeline`, the whole run as one function.
- `app.dfy` (module `App`): the class `MarkerExporterApp` with the fields
  above and one method per transition, plus the shape of the lines
  `to_csv` writes.

Units. Call times and durations are integer milliseconds: the log's `Time`
and `Duration` seconds times 1000. Window bounds are whole seconds since
the Epoch, since the pattern has no fraction. Both the window bounds and
the call times are converted to America/Detroit before they are compared
or subtracted, so the model compares and subtracts the UTC instants
directly.

`sort_values('call_dt')` does not promise an order for equal call times,
so `SelectionSpec` promises order by time and a permutation, and nothing
about ties.

## Model

| member | source | states |
|---|---|---|
| TimeFormat.TruncSeconds | stamppy.py:29 | `int(sec)` truncates toward zero: for a non-negative input, the largest whole second not above it; for a negative input, the smallest whole second not below it |
| TimeFormat.DaySeconds | stamppy.py:29-30 | `timedelta(seconds=t).seconds` lies in [0, 86400) and differs from `t` by whole days, so a negative `t` borrows a day |
| TimeFormat.SplitHms | stamppy.py:30-31 | the two `divmod`s give minutes and seconds in [0, 59] that recombine with the hours to the input; hours are below 24 for less than a day |
| TimeFormat.SecsToHms | stamppy.py:28-32 | `secs_to_hms`; what it promises is stated by `SecsToHmsRoundTrip` and the three examples below |
| TimeFormat.SecsToHmsRoundTrip | stamppy.py:28-32 | `secs_to_hms` always reads back as "H:MM:SS" with H in [0, 23] and MM, SS in [0, 59], and H·3600+MM·60+SS is the truncated seconds modulo one day |
| TimeFormat.ParseHmsRejectsPaddedHour | stamppy.py:31-32 | the reader of `secs_to_hms` text refuses a zero-padded hour such as "00:02:05", which `f"{hrs}"` never writes |
| TimeFormat.SecsToHmsOfZero | stamppy.py:28-32 | zero renders as "0:00:00" |
| TimeFormat.SecsToHmsOfWholeSeconds | stamppy.py:28-32 | 125 seconds renders as "0:02:05" |
| TimeFormat.SecsToHmsOfNegative | stamppy.py:28-32 | one second before zero renders as "23:59:59", the wrap of `timedelta.seconds` |
| TimeFormat.HumanDuration | stamppy.py:41-44 | `human_duration`; what it promises is stated by `HumanDurationSplit` |
| TimeFormat.HumanDurationSplit | stamppy.py:41-44 | the label names hours, minutes and seconds with minutes and seconds in [0, 59]; they recombine to the span, and the hours are the span's whole hours with no day wrap |
| TimeFormat.FixedMillis | stamppy.py:203-204 | the `f"{x:.3f}"` cells of the label track; what they promise is stated by `FixedMillisRoundTrip` and the three examples below |
| TimeFormat.FixedMillisRoundTrip | stamppy.py:203-204 | the three-decimal rendering reads back as exactly the millisecond value, including its sign |
| TimeFormat.ParseFixedMillisRejectsNonCanonical | stamppy.py:203-204 | the reader of the three-decimal cells refuses padded whole seconds ("00.500") and a negative zero ("-0.000"), which no integer millisecond value renders as |
| TimeFormat.FixedMillisOfZero | stamppy.py:203 | zero renders as "0.000" |
| TimeFormat.FixedMillisOfWholeSeconds | stamppy.py:204 | 125 seconds renders as "125.000" |
| TimeFormat.FixedMillisOfNegative | stamppy.py:203 | -1.5 seconds renders as "-1.500" |
| Text.Strip | stamppy.py:153 | `str.strip()`; what it promises is stated by `StripIsTrimmedInfix` and `StripEmptyIffBlank` |
| Text.StripIsTrimmedInfix | stamppy.py:153 | `strip()` removes exactly a whitespace prefix and a whitespace suffix and keeps a middle part that neither starts nor ends with whitespace |
| Text.StripEmptyIffBlank | stamppy.py:153-154 | a field is empty after `strip()` exactly when every character of it is whitespace |
| Text.Contains | stamppy.py:182 | the `str.contains` test; what it promises is stated by `ContainsIff` |
| Text.ContainsIff | stamppy.py:182 | the substring test holds exactly when the pattern occurs at some index |
| GmtParse.IndexFromFinds | stamppy.py:23 | the name lookup of `%a` and `%b` finds a position holding the name, or no position holds it |
| GmtParse.MonthNumberFinds | stamppy.py:23 | a `%b` month number is in [1, 12] and names the month it was read from; a name with no number is not a month name |
| GmtParse.MonthNumberOfName | stamppy.py:23 | every month name reads back as its own number |
| GmtParse.ParseCivil | stamppy.py:36 | whatever `strptime` accepts is a valid `datetime`: year 1..9999, a day inside its month, and a time of day inside the day |
| GmtParse.ParseGmtToLocal | stamppy.py:35-38 | `parse_gmt_to_local`; what it promises is stated by `ParseGmtToLocalSpec` |
| GmtParse.ParsedWeekdayName | stamppy.py:23 | the `%a` name of an accepted string is one of the seven weekday names |
| GmtParse.ParseGmtToLocalSpec | stamppy.py:23-38 | a string is accepted if and only if it is the pattern written out for some valid civil time and some weekday name, whether or not the name matches the date; the result is then that civil time's seconds since the Epoch, read as UTC |
| GmtParse.ScanWritten | stamppy.py:23 | scanning text written by the same format succeeds and reads back every field the format names |
| GmtParse.WriteScanned | stamppy.py:23 | writing out what a scan read gives back the scanned text, when no field is read twice |
| GmtParse.InputTimeFormatDistinct | stamppy.py:23 | the pattern reads no field twice |
| GmtParse.InputTimeFormatReadsCivil | stamppy.py:23 | the pattern reads every civil field: day, month, year, hour, minute and second |
| GmtParse.ScanWrittenCivil | stamppy.py:36 | a format that reads every civil field gets back the civil time it wrote |
| GmtParse.ParseFormatRoundTrip | stamppy.py:23-36 | parsing undoes formatting for any valid civil time and any weekday name, whether or not the name matches the date |
| GmtParse.FormatParseRoundTrip | stamppy.py:23-36 | formatting undoes parsing: an accepted string is exactly the pattern written out for its fields and its own weekday name |
| GmtParse.FormatCivilSpelledOut | stamppy.py:23 | the pattern written out is "Www, DD Mmm YYYY HH:MM:SS" with the numbers zero-padded |
| GmtParse.StripFormatted | stamppy.py:153-159 | a well-formed boundary has no surrounding whitespace, so `strip()` leaves it as typed |
| GmtParse.EpochSeconds | stamppy.py:37 | the UTC instant of a civil time; what it promises is stated by `EpochMatchesPosix` and `EpochExample` |
| GmtParse.EpochMatchesPosix | stamppy.py:37 | for years from 1970 on, the seconds since the Epoch equal the formula of section 4.16 of the POSIX.1-2017 Base Definitions |
| GmtParse.EpochExample | stamppy.py:37 | 2023-11-14 22:13:20 UTC is instant 1700000000 and 23:00:00 that day is 1700002800 |
| GmtParse.ParseExample | stamppy.py:35-38 | "Tue, 14 Nov 2023 22:13:20" parses to 1700000000 and "Tue, 14 Nov 2023 23:00:00" to 1700002800 |
| Markers.IsAnswered | stamppy.py:180-183 | the status filter; what it keeps is stated by `FilterQualifyingCounts` and `StatusScenario` |
| Markers.InWindow | stamppy.py:184-187 | the inclusive window filter; what it keeps is stated by `FilterQualifyingCounts` and `OffsetsWithinWindow` |
| Markers.FilterQualifying | stamppy.py:180-187 | the two `.loc` filters; what they keep is stated by `FilterQualifyingCounts` |
| Markers.FilterQualifyingCounts | stamppy.py:180-187 | the two filters keep each answered in-window record as often as the log holds it and drop every other record |
| Markers.InsertByTimeSorted | stamppy.py:188 | inserting into a sorted sequence keeps it sorted by call time |
| Markers.InsertByTimePermutes | stamppy.py:188 | inserting adds exactly the one record |
| Markers.SortByTime | stamppy.py:188 | `sort_values('call_dt')`; what it promises is stated by `SortByTimeSorted` and `SortByTimePermutes` |
| Markers.SortByTimeSorted | stamppy.py:188 | `sort_values('call_dt')` orders by call time, non-decreasing |
| Markers.SortByTimePermutes | stamppy.py:188 | the sort only reorders: same records, same multiplicities |
| Markers.Selection | stamppy.py:174-188 | `df2`, the filtered and sorted calls; what it holds is stated by `SelectionSpec` |
| Markers.SelectionSpec | stamppy.py:174-188 | the selection is sorted by call time and is a permutation of exactly the qualifying records; a record is in it if and only if it is answered and inside the window |
| Markers.MarkerName | stamppy.py:205-208 | the `f"Marker {idx}"` cell; what it promises is stated by `MarkerNameRoundTrip` |
| Markers.MarkerNameRoundTrip | stamppy.py:205 | "Marker n" reads back as n |
| Markers.RenderRow | stamppy.py:199-215 | one row of either schema; what it promises is stated by `AudacityRowsSpec`, `AuditionRowsSpec` and `ScenarioRows` |
| Markers.RenderRows | stamppy.py:196-215 | the rows of a selection; what they promise is stated by `BuildRows`, `RenderedTableShape`, `AudacityRowsSpec` and `AuditionRowsSpec` |
| Markers.BuildRows | stamppy.py:196-215 | the `enumerate(..., start=1)` loop appends, for the i-th selected call, the row of marker i in the chosen schema, so the rows are the selection rendered in order |
| Markers.ValidateWindow | stamppy.py:153-166 | a blank field is an input error, and only then; an accepted window has both stripped fields parsed to its bounds, and its end is strictly after its start |
| Markers.ValidateWindowAccepts | stamppy.py:158-166 | once both fields are non-blank, the window is accepted if and only if both parse and the end is later; every other case is the parse error |
| Markers.Pipeline | stamppy.py:145-216 | the whole `process_data` run as a value; what it promises is stated by `PipelineOutcome` and `CsvLinesShape` |
| Markers.PipelineOutcome | stamppy.py:153-193 | a run is an input error exactly when a field is blank, and a parse error exactly when validation refuses the window. It is "No Calls" exactly when no record qualifies, and a rendered table exactly when some record does. The reported span is the positive window length |
| Markers.RenderedTableShape | stamppy.py:196-216 | one row per selected call, each with one cell per column of its format and of its format's shape, numbered "Marker 1" .. "Marker n" in order |
| Markers.OffsetsWithinWindow | stamppy.py:184-187 | every selected call lies between zero and the window length from the start |
| Markers.AudacityRowsSpec | stamppy.py:201-206 | Start reads back as the call's offset and End as the offset plus its duration, so End minus Start is the duration |
| Markers.AuditionRowsSpec | stamppy.py:207-215 | Start is the "H:MM:SS" of the offset and Duration Time that of the duration, both modulo one day; Format, Type and Description are "decimal", "Cue" and "" |
| Markers.EqualBoundsRejected | stamppy.py:161-162 | an end equal to the start is a parse error, before any filtering |
| Markers.SelectionOfOne | stamppy.py:174-189 | a log holding one qualifying call selects just that call |
| Markers.PipelineOfOne | stamppy.py:174-216 | a log holding one qualifying call renders as exactly that call's row, as marker 1 |
| Markers.StatusScenario | stamppy.py:180-183 | a "Missed Call" inside the window is dropped and a "Voicemail Left" inside it is kept |
| Markers.ScenarioStartText | stamppy.py:23 | the scenario's start boundary is the string "Tue, 14 Nov 2023 22:13:20" |
| Markers.ScenarioEndText | stamppy.py:23 | the scenario's end boundary is the string "Tue, 14 Nov 2023 23:00:00" |
| Markers.ScenarioWindow | stamppy.py:153-166 | the window from "Tue, 14 Nov 2023 22:13:20" to "Tue, 14 Nov 2023 23:00:00" is accepted as 2800 seconds from 1700000000, and a call at its start qualifies |
| Markers.ScenarioRows | stamppy.py:198-215 | that call, lasting 125 seconds, renders as cue "Marker 1, 0:00:00, 0:02:05, decimal, Cue, ''" and as label "0.000, 125.000, Marker 1" |
| Markers.ScenarioAudition | stamppy.py:145-216 | the whole Audition run over that log and window gives exactly that one cue, with a span of 2800 seconds |
| Markers.ScenarioAudacity | stamppy.py:145-216 | the whole Audacity run over that log and window gives exactly that one label |
| App.DurationText | stamppy.py:169-171 | the duration label's text; its fields are stated by `TimeFormat.HumanDurationSplit` |
| App.CsvLines | stamppy.py:248 | the lines `to_csv` writes, as cells; their shape is stated by `RenderedCsvLines` and `CsvLinesShape` |
| App.RenderedCsvLines | stamppy.py:248 | `to_csv(index=False)` writes the header line and then one line per selected call, each as wide as the header |
| App.CsvLinesShape | stamppy.py:248 | the table a run renders is written as its format's header and one line per selected call, each as wide as the header |
| App.MarkerExporterApp.constructor | stamppy.py:51-105 | no log is loaded, nothing is rendered, Export is disabled, the fields are empty, the format is Audition, and the duration label shows its placeholder |
| App.MarkerExporterApp.SetWindowText | stamppy.py:76-86 | typing into the two entry fields sets exactly the window text |
| App.MarkerExporterApp.ProcessData | stamppy.py:145-223 | the outcome is the `Pipeline` run over the loaded log, the fields and the format. The table is set exactly when the outcome is rendered, and Export is enabled exactly then. The duration label changes only once the window is valid |
| App.MarkerExporterApp.RenderSelection | stamppy.py:174-223 | with a valid window, an empty selection leaves the table cleared and Export disabled; otherwise the rows of the selection become the table and Export is enabled |
| App.MarkerExporterApp.LoadCsv | stamppy.py:131-143 | a cancelled dialog or a read error changes nothing; a log that was read replaces `df` and is processed at once, and the duration label reports the window's span whenever the window is valid |
| App.MarkerExporterApp.OnFormatChange | stamppy.py:254-256 | the new format is recorded; the log is processed again in it only when a log is loaded, with the duration label reporting the window's span whenever the window is valid; otherwise nothing else changes |
| App.MarkerExporterApp.Reset | stamppy.py:258-265 | both fields are emptied, the duration label returns to its placeholder, the table is dropped and Export is disabled; the log and the format stay |
| App.MarkerExporterApp.ExportCsv | stamppy.py:225-238 | nothing happens unless Export is enabled; otherwise the request carries the current table, which is never empty, and the dialog title and extension of the current format |

## Left out

- The Tk window is not modelled: styles, widgets, the Treeview preview and `main`. Each message box is modelled as the outcome value a transition returns.
- File dialogs, `pd.read_csv` and the bytes `to_csv` writes are left out. The open dialog and the read are one `CsvRead` parameter. Export stops at the request it would hand to the save dialog. What is written is modelled only as lines of cells.
- The America/Detroit zone tables (pytz) are left out. Every comparison and subtraction in the pipeline has both sides in that zone, so it gives the same result on UTC instants, for every instant the conversion accepts.
- GmtParse.ParseGmtToLocal: does not model the overflow of `astimezone(TZ)` (stamppy.py:38). Before its first transition pytz applies Detroit's local mean time, about five and a half hours behind UTC, so a boundary in the first hours of 0001-01-01 UTC overflows and `process_data` reports "Parse Error". The model accepts such a boundary as an ordinary instant, because the zone tables are not part of it.
- Floating-point seconds are left out. `Time` and `Duration` are integer milliseconds, and `f"{x:.3f}"` is an integer part and three fraction digits, so a value finer than a millisecond, NaN or rounding in the last digit are not modelled.
- Rows whose `Time` cell is missing or not a number are not modelled: every record has an integer time and duration.
- Markers.Pipeline: does not model the logs on which `process_data` raises an uncaught exception after clearing the table. `pd.to_datetime(..., unit='s')` (stamppy.py:176) converts the whole `Time` column before filtering, and raises OutOfBoundsDatetime when any `Time` lies outside pandas' datetime64[ns] range (about the years 1677 to 2262). A log with no `Time` or no `Info` column raises KeyError (stamppy.py:176, 181). A log with no `Duration` column raises AttributeError at stamppy.py:200 once a call is selected. The model accepts any integer time and has every column, so it returns an `Outcome` for all of these.
- Markers.Pipeline: does not model a log whose `Info` column is empty in every row. `read_csv` then gives a float column, `d['Info'].str.contains` (stamppy.py:182) raises an uncaught AttributeError, and `process_data` stops after updating the duration label, with no "No Calls" box. The model treats an empty `Info` cell as `None`, which is not answered, and reports `NoCalls`.
- `strptime` leniency is left out. The model refuses these inputs, which `strptime` accepts:
  - one-digit day, hour, minute and second fields;
  - a run of whitespace (two spaces, a tab) where the pattern has one space, since `_strptime` turns each space into `\s+`;
  - non-ASCII decimal digits, which `\d` matches and `int()` reads;
  - month and weekday names in another case or another locale.
  The model reads exactly two ASCII digits (four for the year), exactly one space per space of the pattern, and the C-locale names. As in `strptime`, nothing may follow the seconds, and the `%a` name is read but not checked against the date.
- Markers.SortByTime: the model keeps log order for calls with equal times, which is one order pandas' default `sort_values` may produce. The source promises no tie order, so the `Pipeline`, `ProcessData` and `RenderSelection` contracts, which are stated through `SortByTime`, fix an order the source does not promise. `SelectionSpec` states only order by time and a permutation.
- App.MarkerExporterApp.ProcessData: requires a loaded log. Its two callers, `load_csv` and `_on_format_change`, only call it with one.
- App.MarkerExporterApp.ProcessData: the duration label is modelled by the span it reports, not by its text. `DurationText` gives the text, and `TimeFormat.HumanDurationSplit` states its fields.
- `str.strip()` uses the `str.isspace()` characters of the Basic Multilingual Plane. There is no Unicode normalisation.
- `convert_to_ico.py` is not part of this model: it is an image conversion script with no logic of its own.

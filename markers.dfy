/** The selection and rendering pipeline of the marker exporter: which
    calls of a loaded log become markers, in what order, and the rows of
    the two output schemas (Audition cue list, Audacity label track).

    Call times and durations are integer milliseconds (the log's `Time`
    in seconds since the Epoch, times 1000); window bounds are whole
    seconds since the Epoch. */
module Markers {
  import opened Wrappers
  import opened Text
  import opened TimeFormat
  import opened GmtParse

  /** One row of the loaded call log: `Time`, `Info` (missing cells are
      None) and `Duration`. */
  datatype CallRecord = CallRecord(timeMs: int, info: Option<string>, durationMs: int)

  /** The two export formats of the format radio buttons. */
  datatype ExportFormat = Audition | Audacity

  /** A validated recording window, in seconds since the Epoch. */
  datatype Window = Window(start: int, end: int)

  const CallEndedInfo: string := "Call Ended"
  const VoicemailInfo: string := "Voicemail"

  /** The status test: exactly "Call Ended", or containing "Voicemail";
      a missing `Info` never qualifies. */
  predicate IsAnswered(info: Option<string>)
  {
    info.Some? && (info.value == CallEndedInfo || Contains(info.value, VoicemailInfo))
  }

  /** The window test, inclusive at both ends. */
  predicate InWindow(r: CallRecord, w: Window)
  {
    w.start * 1000 <= r.timeMs <= w.end * 1000
  }

  predicate Qualifies(r: CallRecord, w: Window)
  {
    IsAnswered(r.info) && InWindow(r, w)
  }

  /** The two `.loc` filters, keeping the log's order. */
  function FilterQualifying(records: seq<CallRecord>, w: Window): seq<CallRecord>
    decreases |records|
  {
    if records == [] then []
    else (if Qualifies(records[0], w) then [records[0]] else []) + FilterQualifying(records[1..], w)
  }

  /** The filters keep each qualifying record as often as the log holds
      it and drop every other record. */
  lemma {:induction false} FilterQualifyingCounts(records: seq<CallRecord>, w: Window)
    ensures forall r ::
      multiset(FilterQualifying(records, w))[r] == (if Qualifies(r, w) then multiset(records)[r] else 0)
    decreases |records|
  {
    if records != [] {
      assert records == [records[0]] + records[1..];
      FilterQualifyingCounts(records[1..], w);
    }
  }

  predicate SortedByTime(s: seq<CallRecord>)
  {
    forall i, j :: 0 <= i < j < |s| ==> s[i].timeMs <= s[j].timeMs
  }

  lemma ConsSorted(x: CallRecord, s: seq<CallRecord>)
    requires SortedByTime(s)
    requires forall j :: 0 <= j < |s| ==> x.timeMs <= s[j].timeMs
    ensures SortedByTime([x] + s)
  {
    var out := [x] + s;
    forall i, j | 0 <= i < j < |out| ensures out[i].timeMs <= out[j].timeMs {
      assert out[j] == s[j - 1];
      if i > 0 {
        assert out[i] == s[i - 1];
      }
    }
  }

  /** Inserts `r` before the first record of `s` that is not earlier than
      it. */
  function InsertByTime(r: CallRecord, s: seq<CallRecord>): seq<CallRecord>
    decreases |s|
  {
    if s == [] || r.timeMs <= s[0].timeMs then [r] + s
    else [s[0]] + InsertByTime(r, s[1..])
  }

  /** Inserting into a sorted sequence keeps it sorted, and every record of
      the result is no earlier than `r` or than the old first record. */
  lemma {:induction false} InsertByTimeSorted(r: CallRecord, s: seq<CallRecord>)
    requires SortedByTime(s)
    ensures SortedByTime(InsertByTime(r, s))
    ensures forall j :: 0 <= j < |InsertByTime(r, s)| ==>
      r.timeMs <= InsertByTime(r, s)[j].timeMs || (s != [] && s[0].timeMs <= InsertByTime(r, s)[j].timeMs)
    decreases |s|
  {
    if s == [] || r.timeMs <= s[0].timeMs {
      ConsSorted(r, s);
    } else {
      InsertByTimeSorted(r, s[1..]);
      ConsSorted(s[0], InsertByTime(r, s[1..]));
    }
  }

  lemma {:induction false} InsertByTimePermutes(r: CallRecord, s: seq<CallRecord>)
    ensures multiset(InsertByTime(r, s)) == multiset(s) + multiset{r}
    decreases |s|
  {
    if s != [] && r.timeMs > s[0].timeMs {
      assert s == [s[0]] + s[1..];
      InsertByTimePermutes(r, s[1..]);
    }
  }

  /** `sort_values('call_dt')`: an insertion sort by call time. The order
      of calls with equal times is not specified by the source; this is one
      admissible order. */
  function SortByTime(s: seq<CallRecord>): seq<CallRecord>
    decreases |s|
  {
    if s == [] then [] else InsertByTime(s[0], SortByTime(s[1..]))
  }

  /** Sorting orders by call time. */
  lemma {:induction false} SortByTimeSorted(s: seq<CallRecord>)
    ensures SortedByTime(SortByTime(s))
    decreases |s|
  {
    if s != [] {
      SortByTimeSorted(s[1..]);
      InsertByTimeSorted(s[0], SortByTime(s[1..]));
    }
  }

  /** Sorting only reorders. */
  lemma {:induction false} SortByTimePermutes(s: seq<CallRecord>)
    ensures multiset(SortByTime(s)) == multiset(s)
    decreases |s|
  {
    if s != [] {
      SortByTimePermutes(s[1..]);
      InsertByTimePermutes(s[0], SortByTime(s[1..]));
      assert s == [s[0]] + s[1..];
    }
  }

  /** The calls that become markers, in marker order. */
  function Selection(records: seq<CallRecord>, w: Window): seq<CallRecord>
  {
    SortByTime(FilterQualifying(records, w))
  }

  /** The selection is a permutation of exactly the qualifying records,
      ordered by call time; so a record appears in it if and only if it is
      answered and inside the window, and as often as in the log. */
  lemma SelectionSpec(records: seq<CallRecord>, w: Window)
    ensures SortedByTime(Selection(records, w))
    ensures forall r ::
      multiset(Selection(records, w))[r] == (if Qualifies(r, w) then multiset(records)[r] else 0)
    ensures forall r :: r in Selection(records, w) <==> r in records && Qualifies(r, w)
  {
    var sel := Selection(records, w);
    FilterQualifyingCounts(records, w);
    SortByTimeSorted(FilterQualifying(records, w));
    SortByTimePermutes(FilterQualifying(records, w));
    forall r ensures r in sel <==> r in records && Qualifies(r, w) {
      assert r in sel <==> r in multiset(sel);
      assert r in records <==> r in multiset(records);
    }
  }

  /** The header of each schema, in column order. */
  function Columns(f: ExportFormat): seq<string>
  {
    match f
    case Audition => ["Name", "Start", "Duration Time", "Format", "Type", "Description"]
    case Audacity => ["Start", "End", "Label"]
  }

  /** One output row; the field order is the column order. */
  datatype Row =
    | AuditionRow(name: string, start: string, durationTime: string,
                  format: string, kind: string, description: string)
    | AudacityRow(start: string, end: string, labelText: string)
  {
    /** The "Marker n" cell. */
    function MarkerCell(): string
    {
      match this
      case AuditionRow(n, _, _, _, _, _) => n
      case AudacityRow(_, _, l) => l
    }

    /** The cells in column order. */
    function Cells(): seq<string>
    {
      match this
      case AuditionRow(n, s, d, f, k, desc) => [n, s, d, f, k, desc]
      case AudacityRow(s, e, l) => [s, e, l]
    }
  }

  /** `pd.DataFrame(rows)`: the column names and the rows. */
  datatype Table = Table(columns: seq<string>, rows: seq<Row>)

  /** `f"Marker {idx}"`. */
  function MarkerName(idx: nat): string
  {
    "Marker " + NatStr(idx)
  }

  /** Reads the number back out of a marker name. */
  function MarkerNumber(name: string): Option<nat>
  {
    if |name| > 7 && name[..7] == "Marker " && AllDigits(name[7..])
    then Some(ParseDigits(name[7..]))
    else None
  }

  lemma MarkerNameRoundTrip(idx: nat)
    ensures MarkerNumber(MarkerName(idx)) == Some(idx)
  {
    assert MarkerName(idx)[7..] == NatStr(idx);
    NatStrRoundTrip(idx);
  }

  /** The offset of a call from the window start, in milliseconds. */
  function OffsetMs(r: CallRecord, w: Window): int
  {
    r.timeMs - w.start * 1000
  }

  /** The row the loop body appends for the `idx`-th marker. */
  function RenderRow(f: ExportFormat, idx: nat, r: CallRecord, w: Window): Row
  {
    var rel := OffsetMs(r, w);
    match f
    case Audacity =>
      AudacityRow(FixedMillis(rel), FixedMillis(rel + r.durationMs), MarkerName(idx))
    case Audition =>
      AuditionRow(MarkerName(idx), SecsToHms(rel), SecsToHms(r.durationMs), "decimal", "Cue", "")
  }

  /** The rows of the whole selection, numbered from 1. */
  function RenderRows(f: ExportFormat, sel: seq<CallRecord>, w: Window): seq<Row>
  {
    seq(|sel|, i requires 0 <= i < |sel| => RenderRow(f, i + 1, sel[i], w))
  }

  lemma RenderRowsSnoc(f: ExportFormat, sel: seq<CallRecord>, w: Window, x: CallRecord)
    ensures RenderRows(f, sel + [x], w) == RenderRows(f, sel, w) + [RenderRow(f, |sel| + 1, x, w)]
  {
  }

  /** The `for idx, row in enumerate(..., start=1)` loop of the exporter:
      appends one row per selected call. */
  method BuildRows(f: ExportFormat, sel: seq<CallRecord>, w: Window) returns (rows: seq<Row>)
    ensures rows == RenderRows(f, sel, w)
  {
    rows := [];
    var i := 0;
    while i < |sel|
      invariant 0 <= i <= |sel|
      invariant rows == RenderRows(f, sel[..i], w)
    {
      var row := RenderRow(f, i + 1, sel[i], w);
      RenderRowsSnoc(f, sel[..i], w, sel[i]);
      assert sel[..i + 1] == sel[..i] + [sel[i]];
      rows := rows + [row];
      i := i + 1;
    }
    assert sel[..i] == sel;
  }

  /** Why a window is refused: a blank field ("Input Error"), or a field
      that does not parse or an end not after the start ("Parse Error"). */
  datatype WindowError = BlankField | BadWindow

  /** The window checks of the exporter, in order: both stripped fields
      non-blank, both parse, and the end is strictly after the start. */
  function ValidateWindow(startText: string, endText: string): (r: Result<Window, WindowError>)
    ensures r == Err(BlankField) <==> Strip(startText) == [] || Strip(endText) == []
    ensures r.Ok? ==> r.value.start < r.value.end
    ensures r.Ok? ==>
      ParseGmtToLocal(Strip(startText)) == Some(r.value.start) && ParseGmtToLocal(Strip(endText)) == Some(r.value.end)
  {
    var s, e := Strip(startText), Strip(endText);
    if s == [] || e == [] then Err(BlankField)
    else match (ParseGmtToLocal(s), ParseGmtToLocal(e))
      case (Some(a), Some(b)) => if b <= a then Err(BadWindow) else Ok(Window(a, b))
      case _ => Err(BadWindow)
  }

  /** A window is accepted exactly when both fields parse and the end is
      later: a parse failure or an end at or before the start is a
      "Parse Error", never a blank-field error. */
  lemma ValidateWindowAccepts(startText: string, endText: string)
    requires Strip(startText) != [] && Strip(endText) != []
    ensures ValidateWindow(startText, endText).Ok?
      <==> (&& ParseGmtToLocal(Strip(startText)).Some?
            && ParseGmtToLocal(Strip(endText)).Some?
            && ParseGmtToLocal(Strip(startText)).value < ParseGmtToLocal(Strip(endText)).value)
    ensures ValidateWindow(startText, endText).Err? ==> ValidateWindow(startText, endText).error == BadWindow
  {
  }

  /** What one run of the exporter produces: the message shown, the
      window length for the duration label, and the table. */
  datatype Outcome =
    | InputError
    | ParseError
    | NoCalls(span: int)
    | Rendered(span: int, table: Table)

  /** A complete run over a loaded log, as the exporter's processing step
      computes it. */
  function Pipeline(records: seq<CallRecord>, startText: string, endText: string, f: ExportFormat): Outcome
  {
    match ValidateWindow(startText, endText)
    case Err(BlankField) => InputError
    case Err(BadWindow) => ParseError
    case Ok(w) =>
      var sel := Selection(records, w);
      if sel == [] then NoCalls(w.end - w.start)
      else Rendered(w.end - w.start, Table(Columns(f), RenderRows(f, sel, w)))
  }

  /** How a run ends, by its inputs alone: a blank field is an input
      error; otherwise a field that does not parse or an end not after the
      start is a parse error; otherwise "No Calls" exactly when no record
      qualifies, and a rendered table when some record does. */
  lemma PipelineOutcome(records: seq<CallRecord>, startText: string, endText: string, f: ExportFormat)
    ensures Pipeline(records, startText, endText, f) == InputError
      <==> Strip(startText) == [] || Strip(endText) == []
    ensures Pipeline(records, startText, endText, f) == ParseError
      <==> ValidateWindow(startText, endText) == Err(BadWindow)
    ensures Pipeline(records, startText, endText, f).NoCalls?
      <==> (ValidateWindow(startText, endText).Ok?
            && forall r :: r in records ==> !Qualifies(r, ValidateWindow(startText, endText).value))
    ensures Pipeline(records, startText, endText, f).Rendered?
      <==> (ValidateWindow(startText, endText).Ok?
            && exists r :: r in records && Qualifies(r, ValidateWindow(startText, endText).value))
    ensures Pipeline(records, startText, endText, f).NoCalls? || Pipeline(records, startText, endText, f).Rendered?
      ==> Pipeline(records, startText, endText, f).span == ValidateWindow(startText, endText).value.end - ValidateWindow(startText, endText).value.start > 0
  {
    var v := ValidateWindow(startText, endText);
    if v.Ok? {
      var sel := Selection(records, v.value);
      SelectionSpec(records, v.value);
      if sel != [] {
        assert sel[0] in sel;
      }
    }
  }

  /** A rendered table holds one row per selected call, under the header
      of its format, each row of its format's shape with one cell per
      column, and the rows carry "Marker 1" .. "Marker n" in order. */
  lemma RenderedTableShape(f: ExportFormat, sel: seq<CallRecord>, w: Window)
    ensures |RenderRows(f, sel, w)| == |sel|
    ensures forall i :: 0 <= i < |sel| ==>
      && |RenderRows(f, sel, w)[i].Cells()| == |Columns(f)|
      && RenderRows(f, sel, w)[i].AudacityRow? == (f == Audacity)
      && MarkerNumber(RenderRows(f, sel, w)[i].MarkerCell()) == Some(i + 1)
  {
    forall i | 0 <= i < |sel|
      ensures MarkerNumber(RenderRows(f, sel, w)[i].MarkerCell()) == Some(i + 1)
    {
      MarkerNameRoundTrip(i + 1);
    }
  }

  /** Every selected call lies at an offset between zero and the window
      length. */
  lemma OffsetsWithinWindow(records: seq<CallRecord>, w: Window)
    ensures forall r :: r in Selection(records, w) ==> 0 <= OffsetMs(r, w) <= (w.end - w.start) * 1000
  {
    SelectionSpec(records, w);
  }

  /** Label-track rows: Start reads back as the call's offset and End as
      the offset plus the call's duration, so End - Start is the
      duration. */
  lemma AudacityRowsSpec(sel: seq<CallRecord>, w: Window)
    ensures forall i :: 0 <= i < |sel| ==>
      && ParseFixedMillis(RenderRows(Audacity, sel, w)[i].start) == Some(OffsetMs(sel[i], w))
      && ParseFixedMillis(RenderRows(Audacity, sel, w)[i].end) == Some(OffsetMs(sel[i], w) + sel[i].durationMs)
  {
    forall i | 0 <= i < |sel|
      ensures ParseFixedMillis(RenderRows(Audacity, sel, w)[i].start) == Some(OffsetMs(sel[i], w))
      ensures ParseFixedMillis(RenderRows(Audacity, sel, w)[i].end) == Some(OffsetMs(sel[i], w) + sel[i].durationMs)
    {
      FixedMillisRoundTrip(OffsetMs(sel[i], w));
      FixedMillisRoundTrip(OffsetMs(sel[i], w) + sel[i].durationMs);
    }
  }

  /** Cue rows: Start is "H:MM:SS" of the call's truncated offset modulo a
      day, Duration Time that of its duration, and the last three cells
      are "decimal", "Cue" and "". */
  lemma AuditionRowsSpec(sel: seq<CallRecord>, w: Window)
    ensures forall i :: 0 <= i < |sel| ==>
      var row := RenderRows(Audition, sel, w)[i];
      && row.format == "decimal" && row.kind == "Cue" && row.description == ""
      && HmsOf(row.start, TruncSeconds(OffsetMs(sel[i], w)) % SecondsPerDay)
      && HmsOf(row.durationTime, TruncSeconds(sel[i].durationMs) % SecondsPerDay)
  {
    forall i | 0 <= i < |sel|
      ensures HmsOf(RenderRows(Audition, sel, w)[i].start, TruncSeconds(OffsetMs(sel[i], w)) % SecondsPerDay)
      ensures HmsOf(RenderRows(Audition, sel, w)[i].durationTime, TruncSeconds(sel[i].durationMs) % SecondsPerDay)
    {
      SecsToHmsRoundTrip(OffsetMs(sel[i], w));
      SecsToHmsRoundTrip(sel[i].durationMs);
    }
  }

  /** An end equal to the start is refused before any filtering. */
  lemma EqualBoundsRejected(records: seq<CallRecord>, text: string, f: ExportFormat)
    requires Strip(text) != []
    ensures Pipeline(records, text, text, f) == ParseError
  {
  }

  lemma SelectionOfOne(c: CallRecord, w: Window)
    requires Qualifies(c, w)
    ensures Selection([c], w) == [c]
  {
    assert [c][1..] == [];
    assert FilterQualifying([c], w) == [c];
    assert SortByTime([c]) == InsertByTime(c, []);
  }

  /** A log of one qualifying call renders as exactly that call's row. */
  lemma PipelineOfOne(c: CallRecord, startText: string, endText: string, f: ExportFormat)
    requires ValidateWindow(startText, endText).Ok?
    requires Qualifies(c, ValidateWindow(startText, endText).value)
    ensures var w := ValidateWindow(startText, endText).value;
      Pipeline([c], startText, endText, f) == Rendered(w.end - w.start, Table(Columns(f), [RenderRow(f, 1, c, w)]))
  {
    var w := ValidateWindow(startText, endText).value;
    SelectionOfOne(c, w);
    assert RenderRows(f, [c], w) == [RenderRow(f, 1, c, w)];
  }

  /** A missed call inside the window is dropped and a voicemail inside it
      is kept. */
  lemma StatusScenario(w: Window)
    requires w.start < w.end
    ensures var missed := CallRecord(w.start * 1000, Some("Missed Call"), 10000);
      var voicemail := CallRecord(w.end * 1000, Some("Voicemail Left"), 20000);
      Selection([missed, voicemail], w) == [voicemail]
  {
    var missed := CallRecord(w.start * 1000, Some("Missed Call"), 10000);
    var voicemail := CallRecord(w.end * 1000, Some("Voicemail Left"), 20000);
    assert Qualifies(voicemail, w) by {
      assert StartsWith("Voicemail Left", VoicemailInfo);
    }
    assert !Qualifies(missed, w) by {
      var s := "Missed Call";
      assert s != CallEndedInfo by { assert |s| != |CallEndedInfo|; }
      forall i | 0 <= i <= 2 ensures !OccursAt(s, VoicemailInfo, i) {
        assert s[i..i + 9][0] == s[i] != 'V';
      }
      ContainsIff(s, VoicemailInfo);
    }
    var both := [missed, voicemail];
    assert both[1..] == [voicemail];
    assert FilterQualifying(both, w) == FilterQualifying([voicemail], w);
    SelectionOfOne(voicemail, w);
  }

  /** "Tue, 14 Nov 2023 22:13:20" and "Tue, 14 Nov 2023 23:00:00". */
  const ScenarioStart: string := FormatCivil("Tue", Civil(2023, 11, 14, 22, 13, 20))
  const ScenarioEnd: string := FormatCivil("Tue", Civil(2023, 11, 14, 23, 0, 0))
  const ScenarioCall: CallRecord := CallRecord(1700000000000, Some("Call Ended"), 125000)

  /** The start boundary spelled out, as the operator types it. */
  lemma ScenarioStartText()
    ensures ScenarioStart == "Tue, 14 Nov 2023 22:13:20"
  {
    FormatCivilSpelledOut("Tue", Civil(2023, 11, 14, 22, 13, 20));
    SpelledOutTime(22, 13, 20, "22:13:20");
    SpelledOutDate("22:13:20");
  }

  /** The end boundary spelled out, as the operator types it. */
  lemma ScenarioEndText()
    ensures ScenarioEnd == "Tue, 14 Nov 2023 23:00:00"
  {
    FormatCivilSpelledOut("Tue", Civil(2023, 11, 14, 23, 0, 0));
    SpelledOutTime(23, 0, 0, "23:00:00");
    SpelledOutDate("23:00:00");
  }

  /** The date part the two boundaries share, followed by a time. */
  lemma SpelledOutDate(time: string)
    ensures "Tue" + ("," + (" " + (Pad2(14) + (" " + (MonthNames[10] + (" " + (Pad4(2023) + (" " + time))))))))
      == "Tue, 14 Nov 2023 " + time
  {
    ScenarioDateDigits();
    var r := Pad4(2023) + (" " + time);
    assert r == "2023 " + time;
    r := MonthNames[10] + (" " + r);
    assert r == "Nov 2023 " + time;
    r := Pad2(14) + (" " + r);
    assert r == "14 Nov 2023 " + time;
    assert "Tue" + ("," + (" " + r)) == "Tue, 14 Nov 2023 " + time;
  }

  lemma ScenarioDateDigits()
    ensures Pad2(14) == "14" && Pad4(2023) == "2023"
  {
  }

  /** A time of day spelled out as "HH:MM:SS". */
  lemma SpelledOutTime(h: nat, m: nat, s: nat, text: string)
    requires h < 24 && m < 60 && s < 60
    requires text == [DigitChar(h / 10), DigitChar(h % 10), ':', DigitChar(m / 10), DigitChar(m % 10), ':', DigitChar(s / 10), DigitChar(s % 10)]
    ensures Pad2(h) + (":" + (Pad2(m) + (":" + Pad2(s)))) == text
  {
  }

  /** The window of the scenarios below: 2800 seconds from instant
      1700000000, which is also the call's time. */
  lemma ScenarioWindow()
    ensures ValidateWindow(ScenarioStart, ScenarioEnd) == Ok(Window(1700000000, 1700002800))
    ensures Qualifies(ScenarioCall, Window(1700000000, 1700002800))
  {
    StripFormatted("Tue", Civil(2023, 11, 14, 22, 13, 20));
    StripFormatted("Tue", Civil(2023, 11, 14, 23, 0, 0));
    ParseExample();
  }

  /** The rows the scenario call renders as, offset zero. */
  lemma ScenarioRows()
    ensures RenderRow(Audition, 1, ScenarioCall, Window(1700000000, 1700002800))
      == AuditionRow("Marker 1", "0:00:00", "0:02:05", "decimal", "Cue", "")
    ensures RenderRow(Audacity, 1, ScenarioCall, Window(1700000000, 1700002800))
      == AudacityRow("0.000", "125.000", "Marker 1")
  {
    SecsToHmsOfZero();
    SecsToHmsOfWholeSeconds();
    FixedMillisOfZero();
    FixedMillisOfWholeSeconds();
    assert MarkerName(1) == "Marker 1";
    assert OffsetMs(ScenarioCall, Window(1700000000, 1700002800)) == 0;
  }

  /** One call at the window start becomes a single cue at 0:00:00 lasting
      0:02:05. */
  lemma ScenarioAudition()
    ensures Pipeline([ScenarioCall], ScenarioStart, ScenarioEnd, Audition)
      == Rendered(2800, Table(Columns(Audition), [AuditionRow("Marker 1", "0:00:00", "0:02:05", "decimal", "Cue", "")]))
  {
    ScenarioWindow();
    PipelineOfOne(ScenarioCall, ScenarioStart, ScenarioEnd, Audition);
    ScenarioRows();
  }

  /** The same call becomes a single label from 0.000 to 125.000. */
  lemma ScenarioAudacity()
    ensures Pipeline([ScenarioCall], ScenarioStart, ScenarioEnd, Audacity)
      == Rendered(2800, Table(Columns(Audacity), [AudacityRow("0.000", "125.000", "Marker 1")]))
  {
    ScenarioWindow();
    PipelineOfOne(ScenarioCall, ScenarioStart, ScenarioEnd, Audacity);
    ScenarioRows();
  }
}

/** The exporter window's state and the transitions that change it: the
    loaded call log `df`, the rendered table `out_df`, whether the Export
    button is enabled, the two window fields, the chosen format and the
    duration label. Widgets, dialogs and message boxes are not
    represented; each message box becomes the outcome a transition
    returns. */
module App {
  import opened Wrappers
  import opened TimeFormat
  import opened Markers

  /** What the open-file dialog and `pd.read_csv` deliver to `load_csv`. */
  datatype CsvRead = Cancelled | ReadFailed | Read(records: seq<CallRecord>)

  /** The result of `load_csv`: nothing chosen, a "Read Error" box, or a
      processing run. */
  datatype LoadOutcome = NothingChosen | ReadError | Processed(outcome: Outcome)

  /** What `export_csv` hands to the save dialog and then to `to_csv`. */
  datatype ExportRequest = ExportRequest(title: string, defaultExtension: string, table: Table)

  const NoDuration: string := "Duration: —"

  function DurationText(span: int): string
  {
    "Duration: " + HumanDuration(span)
  }

  function SaveTitle(f: ExportFormat): string
  {
    if f == Audacity then "Save Audacity Label Track" else "Save Audition Markers CSV"
  }

  function DefaultExtension(f: ExportFormat): string
  {
    if f == Audacity then ".txt" else ".csv"
  }

  /** The lines `to_csv(path, sep='\t', index=False)` writes, as cells: a
      header line of column names (for both formats), then one line per
      row. */
  function CsvLines(t: Table): seq<seq<string>>
  {
    [t.columns] + seq(|t.rows|, i requires 0 <= i < |t.rows| => t.rows[i].Cells())
  }

  /** The lines of a table rendered from a selection: the header, then
      one line per selected call, each as wide as the header. */
  lemma RenderedCsvLines(f: ExportFormat, sel: seq<CallRecord>, w: Window)
    ensures var lines := CsvLines(Table(Columns(f), RenderRows(f, sel, w)));
      && |lines| == 1 + |sel|
      && lines[0] == Columns(f)
      && forall k :: 0 <= k < |lines| ==> |lines[k]| == |Columns(f)|
  {
    var t := Table(Columns(f), RenderRows(f, sel, w));
    RenderedTableShape(f, sel, w);
    var lines := CsvLines(t);
    forall k | 1 <= k < |lines| ensures |lines[k]| == |Columns(f)| {
      assert lines[k] == t.rows[k - 1].Cells();
    }
  }

  /** A rendered table is written with its format's header first and
      every line as wide as the header. */
  lemma CsvLinesShape(records: seq<CallRecord>, startText: string, endText: string, f: ExportFormat)
    requires Pipeline(records, startText, endText, f).Rendered?
    ensures var lines := CsvLines(Pipeline(records, startText, endText, f).table);
      && |lines| == 1 + |Selection(records, ValidateWindow(startText, endText).value)|
      && lines[0] == Columns(f)
      && forall k :: 0 <= k < |lines| ==> |lines[k]| == |Columns(f)|
  {
    var w := ValidateWindow(startText, endText).value;
    RenderedCsvLines(f, Selection(records, w), w);
  }

  class MarkerExporterApp {
    var df: Option<seq<CallRecord>>
    var outDf: Option<Table>
    var exportEnabled: bool
    var startText: string
    var endText: string
    var format: ExportFormat
    /** The span the duration label reports, or None while it shows the
        placeholder. */
    var durationSpan: Option<int>

    /** The Export button is enabled exactly when a table is rendered, and
        a rendered table is never empty. */
    ghost predicate Valid()
      reads this
    {
      exportEnabled == outDf.Some? && (outDf.Some? ==> |outDf.value.rows| > 0)
    }

    constructor ()
      ensures Valid()
      ensures df == None && outDf == None && !exportEnabled
      ensures startText == "" && endText == "" && format == Audition && durationSpan == None
      ensures DurationLabel() == NoDuration
    {
      df := None;
      outDf := None;
      exportEnabled := false;
      startText := "";
      endText := "";
      format := Audition;
      durationSpan := None;
    }

    /** The text of the duration label. */
    function DurationLabel(): string
      reads this
    {
      match durationSpan
      case None => NoDuration
      case Some(span) => DurationText(span)
    }

    /** The operator types into the two window fields. */
    method SetWindowText(start: string, end: string)
      modifies this`startText, this`endText
      ensures startText == start && endText == end
    {
      startText := start;
      endText := end;
    }

    /** `process_data`: clears the table and disables Export, validates
        the window, updates the duration label, filters and sorts the
        calls and, when any qualify, renders them and enables Export. */
    method ProcessData() returns (outcome: Outcome)
      requires df.Some?
      modifies this`outDf, this`exportEnabled, this`durationSpan
      ensures Valid()
      ensures outcome == Pipeline(old(df.value), old(startText), old(endText), old(format))
      ensures outDf == (if outcome.Rendered? then Some(outcome.table) else None)
      ensures outcome.NoCalls? || outcome.Rendered? ==> durationSpan == Some(outcome.span)
      ensures outcome.InputError? || outcome.ParseError? ==> durationSpan == old(durationSpan)
    {
      var records, startField, endField, f := df.value, startText, endText, format;
      exportEnabled := false;
      outDf := None;

      var window := ValidateWindow(startField, endField);
      if window == Err(BlankField) {
        return InputError;
      } else if window.Err? {
        return ParseError;
      }
      var w := window.value;
      durationSpan := Some(w.end - w.start);
      outcome := RenderSelection(records, w, f);
    }

    /** The tail of `process_data` once the window is valid: filters and
        sorts the calls, reports "No Calls" when none qualify, and otherwise
        fills the table and enables Export. */
    method RenderSelection(records: seq<CallRecord>, w: Window, f: ExportFormat) returns (outcome: Outcome)
      requires outDf == None && !exportEnabled && w.start < w.end
      modifies this`outDf, this`exportEnabled
      ensures Valid()
      ensures var sel := Selection(records, w);
        outcome == if sel == [] then NoCalls(w.end - w.start) else Rendered(w.end - w.start, Table(Columns(f), RenderRows(f, sel, w)))
      ensures outDf == (if outcome.Rendered? then Some(outcome.table) else None)
    {
      var selected := Selection(records, w);
      if selected == [] {
        return NoCalls(w.end - w.start);
      }
      var rows := BuildRows(f, selected, w);
      outDf := Some(Table(Columns(f), rows));
      exportEnabled := true;
      outcome := Rendered(w.end - w.start, outDf.value);
    }

    /** `load_csv`: a cancelled dialog or a read error changes nothing;
        a log that was read replaces `df` and is processed at once. */
    method LoadCsv(read: CsvRead) returns (result: LoadOutcome)
      requires Valid()
      modifies this`df, this`outDf, this`exportEnabled, this`durationSpan
      ensures Valid()
      ensures !read.Read? ==>
        && result == (if read.Cancelled? then NothingChosen else ReadError)
        && df == old(df) && outDf == old(outDf) && durationSpan == old(durationSpan)
      ensures read.Read? ==>
        && df == Some(read.records)
        && result == Processed(Pipeline(read.records, startText, endText, format))
        && outDf == (if result.outcome.Rendered? then Some(result.outcome.table) else None)
        && (result.outcome.NoCalls? || result.outcome.Rendered? ==> durationSpan == Some(result.outcome.span))
        && (result.outcome.InputError? || result.outcome.ParseError? ==> durationSpan == old(durationSpan))
    {
      match read
      case Cancelled =>
        return NothingChosen;
      case ReadFailed =>
        return ReadError;
      case Read(records) =>
        df := Some(records);
        var outcome := ProcessData();
        return Processed(outcome);
    }

    /** `_on_format_change`: the new format is recorded and, only when a
        log is loaded, the log is processed again in that format. */
    method OnFormatChange(f: ExportFormat) returns (result: Option<Outcome>)
      requires Valid()
      modifies this`format, this`outDf, this`exportEnabled, this`durationSpan
      ensures Valid() && format == f
      ensures df.None? ==>
        result.None? && outDf == old(outDf) && durationSpan == old(durationSpan)
      ensures df.Some? ==>
        && result == Some(Pipeline(df.value, startText, endText, f))
        && outDf == (if result.value.Rendered? then Some(result.value.table) else None)
        && (result.value.NoCalls? || result.value.Rendered? ==> durationSpan == Some(result.value.span))
        && (result.value.InputError? || result.value.ParseError? ==> durationSpan == old(durationSpan))
    {
      format := f;
      if df.Some? {
        var outcome := ProcessData();
        return Some(outcome);
      }
      return None;
    }

    /** `reset`: empties both window fields, restores the duration label,
        drops the rendered table and disables Export; the loaded log and
        the format stay. */
    method Reset()
      modifies this`startText, this`endText, this`durationSpan, this`outDf, this`exportEnabled
      ensures Valid()
      ensures startText == "" && endText == "" && durationSpan == None
      ensures outDf == None && !exportEnabled
      ensures DurationLabel() == NoDuration
    {
      startText := "";
      endText := "";
      durationSpan := None;
      exportEnabled := false;
      outDf := None;
    }

    /** `export_csv`, up to the save dialog: nothing to do without a
        rendered table; otherwise the table, with the dialog title and
        extension of the current format. */
    method ExportCsv() returns (request: Option<ExportRequest>)
      requires Valid()
      ensures request.None? <==> !exportEnabled
      ensures request.Some? ==>
        request.value == ExportRequest(SaveTitle(format), DefaultExtension(format), outDf.value)
        && |request.value.table.rows| > 0
    {
      if outDf.None? {
        return None;
      }
      return Some(ExportRequest(SaveTitle(format), DefaultExtension(format), outDf.value));
    }
  }
}

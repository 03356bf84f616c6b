/** `parse_gmt_to_local`: a window boundary written in the fixed pattern
    "%a, %d %b %Y %H:%M:%S" (the date-time shape of section 3.3 of
    RFC 5322 without its zone), read as UTC and turned into an instant.
    Instants are whole seconds since 1970-01-01T00:00:00Z; converting to
    the display zone changes neither comparisons nor differences, so the
    zone is not represented. */
module GmtParse {
  import opened Wrappers
  import opened Text

  datatype Civil = Civil(year: int, month: int, day: int, hour: int, minute: int, second: int)

  /** The `%a` names this model accepts (C locale). */
  const WeekdayNames: seq<string> := ["Mon", "Tue", "Wed", "Thu", "Fri", "Sat", "Sun"]

  /** The `%b` names, January first (C locale). */
  const MonthNames: seq<string> :=
    ["Jan", "Feb", "Mar", "Apr", "May", "Jun", "Jul", "Aug", "Sep", "Oct", "Nov", "Dec"]

  predicate IsLeapYear(y: int)
  {
    y % 4 == 0 && (y % 100 != 0 || y % 400 == 0)
  }

  function DaysInMonth(y: int, m: int): (n: int)
    requires 1 <= m <= 12
    ensures 28 <= n <= 31
  {
    if m == 2 then (if IsLeapYear(y) then 29 else 28)
    else if m == 4 || m == 6 || m == 9 || m == 11 then 30
    else 31
  }

  /** Days in the months of year `y` before month `m`, from the table the
      proleptic Gregorian calendar of Python's `datetime` uses. */
  function DaysBeforeMonth(y: int, m: int): (n: nat)
    requires 1 <= m <= 12
  {
    [0, 31, 59, 90, 120, 151, 181, 212, 243, 273, 304, 334][m - 1]
      + (if m > 2 && IsLeapYear(y) then 1 else 0)
  }

  /** Days in the years before year `y`, counted from year 1. */
  function DaysBeforeYear(y: int): int
  {
    var z := y - 1;
    z * 365 + z / 4 - z / 100 + z / 400
  }

  /** `date.toordinal()`: 0001-01-01 is day 1. */
  function Ordinal(c: Civil): int
    requires 1 <= c.month <= 12
  {
    DaysBeforeYear(c.year) + DaysBeforeMonth(c.year, c.month) + c.day
  }

  /** The ordinal of 1970-01-01. */
  const EpochOrdinal: int := 719163

  /** The instant a UTC civil time names, in seconds since the Epoch. */
  function EpochSeconds(c: Civil): int
    requires 1 <= c.month <= 12
  {
    (Ordinal(c) - EpochOrdinal) * 86400 + c.hour * 3600 + c.minute * 60 + c.second
  }

  /** The ranges `datetime` enforces (MINYEAR 1 .. MAXYEAR 9999, the day
      within its month, and a time of day without leap seconds). */
  predicate ValidCivil(c: Civil)
  {
    && 1 <= c.year <= 9999
    && 1 <= c.month <= 12
    && 1 <= c.day <= DaysInMonth(c.year, c.month)
    && 0 <= c.hour < 24 && 0 <= c.minute < 60 && 0 <= c.second < 60
  }

  /** The position of `name` in `names` at or after `i`, by a scan from
      the left, or None. */
  function IndexFrom(names: seq<string>, name: string, i: nat): Option<nat>
    requires i <= |names|
    decreases |names| - i
  {
    if i == |names| then None
    else if names[i] == name then Some(i)
    else IndexFrom(names, name, i + 1)
  }

  /** The scan finds a position holding `name`, or reports that no
      position from `i` on holds it. */
  lemma {:induction false} IndexFromFinds(names: seq<string>, name: string, i: nat)
    requires i <= |names|
    ensures var r := IndexFrom(names, name, i);
      && (r.Some? ==> i <= r.value < |names| && names[r.value] == name)
      && (r.None? ==> forall k :: i <= k < |names| ==> names[k] != name)
    decreases |names| - i
  {
    if i < |names| && names[i] != name {
      IndexFromFinds(names, name, i + 1);
    }
  }

  /** A `%a` name is accepted when it is one of the seven names. */
  predicate IsWeekdayName(name: string)
  {
    IndexFrom(WeekdayNames, name, 0).Some?
  }

  /** The number of a `%b` month name, or None. */
  function MonthNumber(name: string): Option<int>
  {
    match IndexFrom(MonthNames, name, 0)
    case Some(k) => Some(k + 1)
    case None => None
  }

  /** A month number is in range and names the month it was read from;
      a name with no number is not a month name. */
  lemma MonthNumberFinds(name: string)
    ensures var r := MonthNumber(name);
      && (r.Some? ==> 1 <= r.value <= 12 && MonthNames[r.value - 1] == name)
      && (r.None? ==> name !in MonthNames)
  {
    IndexFromFinds(MonthNames, name, 0);
  }

  /** Month names are distinct, so each name reads back as its own number. */
  lemma MonthNumberOfName(m: int)
    requires 1 <= m <= 12
    ensures MonthNumber(MonthNames[m - 1]) == Some(m)
  {
    var r := MonthNumber(MonthNames[m - 1]);
    MonthNumberFinds(MonthNames[m - 1]);
    assert r.Some?;
    var n := r.value;
    assert MonthNames[n - 1] == MonthNames[m - 1];
    assert MonthNames[n - 1][..3] == MonthNames[m - 1][..3];
    assert forall i, j :: 0 <= i < j < 12 ==> MonthNames[i] != MonthNames[j];
  }

  /** What `strptime` has read so far: the `%a` name (read, but never
      checked against the date) and the civil fields. */
  datatype Fields = Fields(weekday: string, civil: Civil)

  /** The values `strptime` starts from: 1900-01-01 00:00:00, no name. */
  const StrptimeDefaults: Fields := Fields("", Civil(1900, 1, 1, 0, 0, 0))

  /** One element of a `strptime` format: a character matched literally,
      or a directive that reads a field. */
  datatype Directive =
    | Literal(c: char)
    | WeekdayAbbr   // %a
    | Day           // %d
    | MonthAbbr     // %b
    | Year          // %Y
    | Hour          // %H
    | Minute        // %M
    | Second        // %S

  /** `INPUT_TIME_FMT`, "%a, %d %b %Y %H:%M:%S". */
  const InputTimeFormat: seq<Directive> :=
    [WeekdayAbbr, Literal(','), Literal(' '), Day, Literal(' '), MonthAbbr, Literal(' '), Year,
     Literal(' '), Hour, Literal(':'), Minute, Literal(':'), Second]

  /** The number of characters an element reads: names are three letters
      and numbers have their full zero-padded width. */
  function Width(d: Directive): nat
  {
    match d
    case Literal(_) => 1
    case WeekdayAbbr => 3
    case MonthAbbr => 3
    case Year => 4
    case _ => 2
  }

  /** The fields after a numeric directive has read `n`. */
  function WithNumber(d: Directive, n: nat, f: Fields): Fields
  {
    match d
    case Day => f.(civil := f.civil.(day := n))
    case Year => f.(civil := f.civil.(year := n))
    case Hour => f.(civil := f.civil.(hour := n))
    case Minute => f.(civil := f.civil.(minute := n))
    case Second => f.(civil := f.civil.(second := n))
    case _ => f
  }

  /** Reads the text `t` of one element into the fields, or None when it
      does not match. */
  function ReadElement(d: Directive, t: string, f: Fields): Option<Fields>
    requires |t| == Width(d)
  {
    match d
    case Literal(c) => if t[0] == c then Some(f) else None
    case WeekdayAbbr => if IsWeekdayName(t) then Some(f.(weekday := t)) else None
    case MonthAbbr =>
      (match MonthNumber(t)
       case Some(m) => Some(f.(civil := f.civil.(month := m)))
       case None => None)
    case _ => if AllDigits(t) then Some(WithNumber(d, ParseDigits(t), f)) else None
  }

  /** Matches `s` from position `i` against the format from element `k`
      on, left to right; the whole string must be consumed. */
  function Scan(s: string, i: nat, format: seq<Directive>, k: nat, f: Fields): Option<Fields>
    requires i <= |s| && k <= |format|
    decreases |format| - k, 1
  {
    if k == |format| then (if i == |s| then Some(f) else None)
    else ScanElement(s, i, format, k, f)
  }

  /** Reads element `k` of the format at position `i`, then scans on. */
  function ScanElement(s: string, i: nat, format: seq<Directive>, k: nat, f: Fields): Option<Fields>
    requires i <= |s| && k < |format|
    decreases |format| - k, 0
  {
    var w := Width(format[k]);
    if |s| - i < w then None
    else match ReadElement(format[k], s[i..i + w], f)
      case Some(g) => Scan(s, i + w, format, k + 1, g)
      case None => None
  }

  /** `datetime.strptime(s, INPUT_TIME_FMT)`, strict form: every numeric
      field has its full width, names are in the C locale, and the result
      must be a valid `datetime`. */
  function ParseCivil(s: string): (r: Option<Civil>)
    ensures r.Some? ==> ValidCivil(r.value)
  {
    match Scan(s, 0, InputTimeFormat, 0, StrptimeDefaults)
    case Some(f) => if ValidCivil(f.civil) then Some(f.civil) else None
    case None => None
  }

  /** Fields that can be written back out with every numeric field in its
      width. */
  predicate Writable(f: Fields)
  {
    |f.weekday| == 3 && ValidCivil(f.civil)
  }

  /** The text an element stands for in `strftime` with the same format. */
  function WriteElement(d: Directive, f: Fields): (t: string)
    requires Writable(f)
    ensures |t| == Width(d)
  {
    match d
    case Literal(c) => [c]
    case WeekdayAbbr => f.weekday
    case Day => Pad2(f.civil.day)
    case MonthAbbr => MonthNames[f.civil.month - 1]
    case Year => Pad4(f.civil.year)
    case Hour => Pad2(f.civil.hour)
    case Minute => Pad2(f.civil.minute)
    case Second => Pad2(f.civil.second)
  }

  /** The elements of the format from `k` on, written out. */
  function Write(format: seq<Directive>, k: nat, f: Fields): string
    requires Writable(f) && k <= |format|
    decreases |format| - k
  {
    if k == |format| then [] else WriteElement(format[k], f) + Write(format, k + 1, f)
  }

  /** The pattern written out for a civil time and a weekday name. */
  function FormatCivil(weekday: string, c: Civil): string
    requires |weekday| == 3 && ValidCivil(c)
  {
    Write(InputTimeFormat, 0, Fields(weekday, c))
  }

  /** `parse_gmt_to_local(s)`: the instant, or None where `strptime`
      raises. */
  function ParseGmtToLocal(s: string): Option<int>
  {
    match ParseCivil(s)
    case Some(c) => Some(EpochSeconds(c))
    case None => None
  }

  /** `a` and `b` agree on the field that `d` reads. */
  predicate Agree(d: Directive, a: Fields, b: Fields)
  {
    match d
    case Literal(_) => true
    case WeekdayAbbr => a.weekday == b.weekday
    case Day => a.civil.day == b.civil.day
    case MonthAbbr => a.civil.month == b.civil.month
    case Year => a.civil.year == b.civil.year
    case Hour => a.civil.hour == b.civil.hour
    case Minute => a.civil.minute == b.civil.minute
    case Second => a.civil.second == b.civil.second
  }

  /** No directive occurs twice, so no field is read twice. */
  predicate Distinct(format: seq<Directive>)
  {
    forall i, j :: 0 <= i < j < |format| && format[i] == format[j] ==> format[i].Literal?
  }

  /** `d` occurs in the format at or after element `k`. */
  predicate ReadFrom(format: seq<Directive>, k: nat, d: Directive)
  {
    exists j :: k <= j < |format| && format[j] == d
  }

  /** Scanning leaves alone every field that no remaining directive reads. */
  lemma {:induction false} ScanKeeps(s: string, i: nat, format: seq<Directive>, k: nat, f: Fields, d: Directive)
    requires i <= |s| && k <= |format|
    requires Scan(s, i, format, k, f).Some? && !ReadFrom(format, k, d)
    ensures Agree(d, f, Scan(s, i, format, k, f).value)
    decreases |format| - k
  {
    if k < |format| {
      var w := Width(format[k]);
      var g := ReadElement(format[k], s[i..i + w], f).value;
      assert format[k] != d;
      ScanKeeps(s, i + w, format, k + 1, g, d);
    }
  }

  /** Reading what was written for an element gives back its field. */
  lemma ReadWritten(d: Directive, f: Fields, g: Fields)
    requires Writable(f) && IsWeekdayName(f.weekday)
    ensures ReadElement(d, WriteElement(d, f), g).Some?
    ensures Agree(d, f, ReadElement(d, WriteElement(d, f), g).value)
  {
    if d.MonthAbbr? {
      MonthNumberOfName(f.civil.month);
    }
  }

  /** Agreement on the directives from `k + 1` on extends to `k` when
      the directive at `k` agrees, directly or through a later occurrence. */
  lemma AgreeExtends(format: seq<Directive>, k: nat, f: Fields, r: Fields)
    requires k < |format|
    requires forall j :: k + 1 <= j < |format| ==> Agree(format[j], f, r)
    requires !ReadFrom(format, k + 1, format[k]) ==> Agree(format[k], f, r)
    ensures forall j :: k <= j < |format| ==> Agree(format[j], f, r)
  {
  }

  /** One step of scanning written text: the element reads back its own
      text, agreeing with the written fields, and the rest of the text is
      the rest of the format written out. */
  lemma ScanWrittenStep(s: string, i: nat, format: seq<Directive>, k: nat, f: Fields, g: Fields)
    requires Writable(f) && IsWeekdayName(f.weekday)
    requires i <= |s| && k < |format| && s[i..] == Write(format, k, f)
    ensures i + Width(format[k]) <= |s| && s[i + Width(format[k])..] == Write(format, k + 1, f)
    ensures exists g1 :: (Agree(format[k], f, g1)
      && Scan(s, i, format, k, g) == Scan(s, i + Width(format[k]), format, k + 1, g1))
  {
    var d := format[k];
    var t := WriteElement(d, f);
    var w := Width(d);
    assert s[i..i + w] == t && s[i + w..] == Write(format, k + 1, f) by {
      assert s[i..][..w] == t && s[i..][w..] == Write(format, k + 1, f);
    }
    ReadWritten(d, f, g);
    var g1 := ReadElement(d, t, g).value;
    assert Scan(s, i, format, k, g) == Scan(s, i + w, format, k + 1, g1);
  }

  /** Scanning what was written succeeds and reads back every field the
      remaining format names. */
  lemma {:induction false} ScanWritten(s: string, i: nat, format: seq<Directive>, k: nat, f: Fields, g: Fields)
    requires Writable(f) && IsWeekdayName(f.weekday)
    requires i <= |s| && k <= |format| && s[i..] == Write(format, k, f)
    ensures Scan(s, i, format, k, g).Some?
    ensures forall j :: k <= j < |format| ==> Agree(format[j], f, Scan(s, i, format, k, g).value)
    decreases |format| - k
  {
    if k < |format| {
      ScanWrittenStep(s, i, format, k, f, g);
      var w := Width(format[k]);
      var g1 :| Agree(format[k], f, g1) && Scan(s, i, format, k, g) == Scan(s, i + w, format, k + 1, g1);
      ScanWritten(s, i + w, format, k + 1, f, g1);
      if !ReadFrom(format, k + 1, format[k]) {
        ScanKeeps(s, i + w, format, k + 1, g1, format[k]);
      }
      AgreeExtends(format, k, f, Scan(s, i + w, format, k + 1, g1).value);
    }
  }

  /** Writing the fields an element has read gives back its text. */
  lemma WriteRead(d: Directive, t: string, f: Fields, h: Fields)
    requires |t| == Width(d) && ReadElement(d, t, f).Some?
    requires Writable(h) && Agree(d, ReadElement(d, t, f).value, h)
    ensures WriteElement(d, h) == t
  {
    match d
    case Literal(c) =>
      assert t == [t[0]];
    case Day => Pad2OfParse(t);
    case Hour => Pad2OfParse(t);
    case Minute => Pad2OfParse(t);
    case Second => Pad2OfParse(t);
    case Year => Pad4OfParse(t);
    case WeekdayAbbr =>
    case MonthAbbr =>
  }

  /** Writing out what a scan has read gives back the scanned text, when
      no field is read twice. */
  lemma {:induction false} WriteScanned(s: string, i: nat, format: seq<Directive>, k: nat, f: Fields)
    requires i <= |s| && k <= |format| && Distinct(format)
    requires Scan(s, i, format, k, f).Some? && Writable(Scan(s, i, format, k, f).value)
    ensures Write(format, k, Scan(s, i, format, k, f).value) == s[i..]
    decreases |format| - k
  {
    var r := Scan(s, i, format, k, f).value;
    if k < |format| {
      var d := format[k];
      var w := Width(d);
      var g := ReadElement(d, s[i..i + w], f).value;
      assert Scan(s, i + w, format, k + 1, g) == Some(r);
      WriteScanned(s, i + w, format, k + 1, g);
      if !d.Literal? {
        ScanKeeps(s, i + w, format, k + 1, g, d);
      }
      WriteRead(d, s[i..i + w], f, r);
      assert s[i..] == s[i..i + w] + s[i + w..];
    }
  }

  lemma WeekdayNameAccepted(name: string)
    requires name in WeekdayNames
    ensures IsWeekdayName(name)
  {
  }

  /** Where each field directive sits in the input format. */
  function InputSlot(d: Directive): int
  {
    match d
    case WeekdayAbbr => 0
    case Day => 3
    case MonthAbbr => 5
    case Year => 7
    case Hour => 9
    case Minute => 11
    case Second => 13
    case Literal(_) => -1
  }

  lemma InputTimeFormatDistinct()
    ensures Distinct(InputTimeFormat)
  {
    var f := InputTimeFormat;
    forall j | 0 <= j < |f| && !f[j].Literal? ensures InputSlot(f[j]) == j {
      assert j in {0, 3, 5, 7, 9, 11, 13};
    }
  }

  /** Every field of the civil time is read by some element of the format. */
  predicate ReadsCivil(format: seq<Directive>)
  {
    && ReadFrom(format, 0, Year) && ReadFrom(format, 0, MonthAbbr) && ReadFrom(format, 0, Day)
    && ReadFrom(format, 0, Hour) && ReadFrom(format, 0, Minute) && ReadFrom(format, 0, Second)
  }

  lemma InputTimeFormatReadsCivil()
    ensures ReadsCivil(InputTimeFormat)
  {
    var f := InputTimeFormat;
    assert f[7] == Year && f[5] == MonthAbbr && f[3] == Day;
    assert f[9] == Hour && f[11] == Minute && f[13] == Second;
  }

  /** A format that reads every civil field gets back the civil time it
      has written, whatever the fields start from. */
  lemma ScanWrittenCivil(format: seq<Directive>, f: Fields, g: Fields)
    requires Writable(f) && IsWeekdayName(f.weekday) && ReadsCivil(format)
    ensures Scan(Write(format, 0, f), 0, format, 0, g).Some?
    ensures Scan(Write(format, 0, f), 0, format, 0, g).value.civil == f.civil
  {
    var s := Write(format, 0, f);
    assert s[0..] == s;
    ScanWritten(s, 0, format, 0, f, g);
    var r := Scan(s, 0, format, 0, g).value;
    var j0 :| 0 <= j0 < |format| && format[j0] == Year;
    var j1 :| 0 <= j1 < |format| && format[j1] == MonthAbbr;
    var j2 :| 0 <= j2 < |format| && format[j2] == Day;
    var j3 :| 0 <= j3 < |format| && format[j3] == Hour;
    var j4 :| 0 <= j4 < |format| && format[j4] == Minute;
    var j5 :| 0 <= j5 < |format| && format[j5] == Second;
    assert Agree(format[j0], f, r) && Agree(format[j1], f, r) && Agree(format[j2], f, r);
    assert Agree(format[j3], f, r) && Agree(format[j4], f, r) && Agree(format[j5], f, r);
    AgreeOnCivil(f, r);
  }

  /** Agreeing on the six civil directives is agreeing on the civil time. */
  lemma AgreeOnCivil(a: Fields, b: Fields)
    requires Agree(Year, a, b) && Agree(MonthAbbr, a, b) && Agree(Day, a, b)
    requires Agree(Hour, a, b) && Agree(Minute, a, b) && Agree(Second, a, b)
    ensures a.civil == b.civil
  {
  }

  /** Parsing undoes formatting, whatever valid weekday name is written. */
  lemma ParseFormatRoundTrip(weekday: string, c: Civil)
    requires weekday in WeekdayNames && ValidCivil(c)
    ensures ParseCivil(FormatCivil(weekday, c)) == Some(c)
  {
    WeekdayNameAccepted(weekday);
    InputTimeFormatReadsCivil();
    ScanWrittenCivil(InputTimeFormat, Fields(weekday, c), StrptimeDefaults);
  }

  /** The weekday name of an accepted string is one of the seven names. */
  lemma ParsedWeekdayName(s: string)
    requires ParseCivil(s).Some?
    ensures |s| >= 3 && s[..3] in WeekdayNames
  {
    assert InputTimeFormat[0] == WeekdayAbbr;
    assert ReadElement(WeekdayAbbr, s[..3], StrptimeDefaults).Some?;
    IndexFromFinds(WeekdayNames, s[..3], 0);
  }

  /** `parse_gmt_to_local` accepts exactly the strings the pattern writes
      for a valid civil time and one of the seven weekday names, and
      gives the instant of that civil time. */
  lemma ParseGmtToLocalSpec(s: string)
    ensures ParseGmtToLocal(s).Some?
      <==> exists wd, c :: wd in WeekdayNames && ValidCivil(c) && s == FormatCivil(wd, c)
    ensures forall wd, c ::
      (wd in WeekdayNames && ValidCivil(c) && s == FormatCivil(wd, c)) ==> ParseGmtToLocal(s) == Some(EpochSeconds(c))
  {
    forall wd, c | wd in WeekdayNames && ValidCivil(c) && s == FormatCivil(wd, c)
      ensures ParseGmtToLocal(s) == Some(EpochSeconds(c))
    {
      ParseFormatRoundTrip(wd, c);
    }
    if ParseGmtToLocal(s).Some? {
      FormatParseRoundTrip(s);
      ParsedWeekdayName(s);
      assert s == FormatCivil(s[..3], ParseCivil(s).value);
    }
  }

  /** Formatting undoes parsing: a string the parser accepts is exactly
      the pattern written out for its fields and its own weekday name. */
  lemma FormatParseRoundTrip(s: string)
    requires ParseCivil(s).Some?
    ensures |s| >= 3 && FormatCivil(s[..3], ParseCivil(s).value) == s
  {
    var format := InputTimeFormat;
    var r := Scan(s, 0, format, 0, StrptimeDefaults).value;
    var g := ReadElement(WeekdayAbbr, s[..3], StrptimeDefaults).value;
    assert Scan(s, 3, format, 1, g) == Some(r);
    InputTimeFormatDistinct();
    assert !ReadFrom(format, 1, WeekdayAbbr);
    ScanKeeps(s, 3, format, 1, g, WeekdayAbbr);
    assert r == Fields(s[..3], r.civil);
    WriteScanned(s, 0, format, 0, StrptimeDefaults);
  }

  /** The format written out: "Www, DD Mmm YYYY HH:MM:SS". */
  lemma FormatCivilSpelledOut(weekday: string, c: Civil)
    requires |weekday| == 3 && ValidCivil(c)
    ensures FormatCivil(weekday, c)
      == weekday + ("," + (" " + (Pad2(c.day) + (" " + (MonthNames[c.month - 1] + (" " + (Pad4(c.year)
         + (" " + (Pad2(c.hour) + (":" + (Pad2(c.minute) + (":" + Pad2(c.second)))))))))))))
  {
    var f, x := InputTimeFormat, Fields(weekday, c);
    assert Write(f, 13, x) == Pad2(c.second);
    assert Write(f, 11, x) == Pad2(c.minute) + (":" + Write(f, 13, x));
    assert Write(f, 9, x) == Pad2(c.hour) + (":" + Write(f, 11, x));
    assert Write(f, 7, x) == Pad4(c.year) + (" " + Write(f, 9, x));
    assert Write(f, 5, x) == MonthNames[c.month - 1] + (" " + Write(f, 7, x));
    assert Write(f, 3, x) == Pad2(c.day) + (" " + Write(f, 5, x));
    assert Write(f, 1, x) == "," + (" " + Write(f, 3, x));
  }

  /** Every written element is at least one character long, so the last
      character of a written format is the last one of its last element. */
  lemma {:induction false} WriteEndsWithLast(format: seq<Directive>, k: nat, f: Fields)
    requires Writable(f) && k < |format|
    ensures var t, u := Write(format, k, f), WriteElement(format[|format| - 1], f);
      |t| >= 1 && t[|t| - 1] == u[|u| - 1]
    decreases |format| - k
  {
    if k + 1 < |format| {
      WriteEndsWithLast(format, k + 1, f);
    }
  }

  /** Writing is left alone by `strip()` when the first element does not
      start, and the last does not end, with whitespace. */
  lemma WriteUnpadded(format: seq<Directive>, f: Fields)
    requires Writable(f) && |format| >= 1
    requires var e := WriteElement(format[0], f); !IsSpace(e[0])
    requires var e := WriteElement(format[|format| - 1], f); !IsSpace(e[|e| - 1])
    ensures Strip(Write(format, 0, f)) == Write(format, 0, f)
  {
    WriteEndsWithLast(format, 0, f);
    StripUnpadded(Write(format, 0, f));
  }

  /** A written boundary starts with a weekday letter and ends with a
      digit, so `strip()` leaves it as it is. */
  lemma StripFormatted(weekday: string, c: Civil)
    requires weekday in WeekdayNames && ValidCivil(c)
    ensures Strip(FormatCivil(weekday, c)) == FormatCivil(weekday, c)
  {
    var x := Fields(weekday, c);
    assert InputTimeFormat[0] == WeekdayAbbr && InputTimeFormat[13] == Second;
    assert !IsSpace(weekday[0]);
    WriteUnpadded(InputTimeFormat, x);
  }

  /** Seconds since the Epoch by the formula of section 4.16 of the POSIX.1-2017
      Base Definitions, with `tm_year` the year minus 1900 and `tm_yday`
      the day of the year counted from 0. */
  function PosixSeconds(c: Civil): int
    requires 1 <= c.month <= 12
  {
    var tmYear := c.year - 1900;
    var tmYday := DaysBeforeMonth(c.year, c.month) + c.day - 1;
    c.second + c.minute * 60 + c.hour * 3600 + tmYday * 86400
      + (tmYear - 70) * 31536000 + ((tmYear - 69) / 4) * 86400
      - ((tmYear - 1) / 100) * 86400 + ((tmYear + 299) / 400) * 86400
  }

  /** From 1970 on, where every quotient in the POSIX formula is of a
      non-negative number (so C's truncating division and Dafny's agree),
      the calendar arithmetic here gives the POSIX instant. */
  lemma EpochMatchesPosix(c: Civil)
    requires ValidCivil(c) && c.year >= 1970
    ensures EpochSeconds(c) == PosixSeconds(c)
  {
    var y := c.year;
    assert (y - 1) / 4 == (y - 1969) / 4 + 492;
    assert (y - 1) / 100 == (y - 1901) / 100 + 19;
    assert (y - 1) / 400 == (y - 1601) / 400 + 4;
    assert DaysBeforeYear(y) - EpochOrdinal + 1
      == (y - 1970) * 365 + (y - 1969) / 4 - (y - 1901) / 100 + (y - 1601) / 400;
  }

  /** The boundaries of a window that starts at instant 1700000000,
      "Tue, 14 Nov 2023 22:13:20", and lasts 47 minutes, up to
      "Tue, 14 Nov 2023 23:00:00". */
  lemma ParseExample()
    ensures ParseGmtToLocal(FormatCivil("Tue", Civil(2023, 11, 14, 22, 13, 20))) == Some(1700000000)
    ensures ParseGmtToLocal(FormatCivil("Tue", Civil(2023, 11, 14, 23, 0, 0))) == Some(1700002800)
  {
    ParseFormatRoundTrip("Tue", Civil(2023, 11, 14, 22, 13, 20));
    ParseFormatRoundTrip("Tue", Civil(2023, 11, 14, 23, 0, 0));
    EpochExample();
  }

  /** 2023-11-14T22:13:20Z is instant 1700000000. */
  lemma EpochExample()
    ensures EpochSeconds(Civil(2023, 11, 14, 22, 13, 20)) == 1700000000
    ensures EpochSeconds(Civil(2023, 11, 14, 23, 0, 0)) == 1700002800
  {
    assert DaysBeforeYear(2023) == 738520;
  }
}

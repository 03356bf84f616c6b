/** The time helpers `secs_to_hms` and `human_duration`, and the
    three-decimal rendering `f"{x:.3f}"` of the label track, on integer
    seconds and milliseconds. */
module TimeFormat {
  import opened Wrappers
  import opened Text

  const SecondsPerDay: int := 86400

  /** Python's `int(x)` for x = ms / 1000 seconds: truncation toward zero. */
  function TruncSeconds(ms: int): (s: int)
    ensures 0 <= ms ==> 0 <= s * 1000 <= ms < s * 1000 + 1000
    ensures ms < 0 ==> s * 1000 - 1000 < ms <= s * 1000 <= 0
  {
    if ms >= 0 then ms / 1000 else -((-ms) / 1000)
  }

  /** `timedelta(seconds=t).seconds`: whole days are dropped and a negative
      `t` borrows a day, so the result is `t` modulo one day. */
  function DaySeconds(t: int): (r: int)
    ensures 0 <= r < SecondsPerDay
    ensures (t - r) % SecondsPerDay == 0
  {
    t % SecondsPerDay
  }

  datatype Clock = Clock(hours: int, minutes: int, seconds: int)

  /** `divmod(n, 3600)` followed by `divmod(rem, 60)` (Python's floor
      division, which Dafny's division matches for a positive divisor). */
  function SplitHms(n: int): (c: Clock)
    ensures 0 <= c.minutes < 60 && 0 <= c.seconds < 60
    ensures c.hours * 3600 + c.minutes * 60 + c.seconds == n
    ensures 0 <= n ==> 0 <= c.hours
    ensures n < SecondsPerDay ==> c.hours < 24
  {
    var rem := n % 3600;
    Clock(n / 3600, rem / 60, rem % 60)
  }

  /** `secs_to_hms(sec)` with `sec` given in milliseconds: "H:MM:SS" of the
      time of day of the truncated value. */
  function SecsToHms(ms: int): string
  {
    var c := SplitHms(DaySeconds(TruncSeconds(ms)));
    NatStr(c.hours) + ":" + Pad2(c.minutes) + ":" + Pad2(c.seconds)
  }

  /** Reads back an "H:MM:SS" string: hour digits with no leading zero
      (as `f"{hrs}"` writes them), then two colon-led two-digit fields. */
  function ParseHms(t: string): Option<Clock>
  {
    if |t| >= 7 && t[|t| - 6] == ':' && t[|t| - 3] == ':' && (t[0] != '0' || |t| == 7)
       && AllDigits(t[..|t| - 6]) && AllDigits(t[|t| - 5..|t| - 3]) && AllDigits(t[|t| - 2..])
    then Some(Clock(ParseDigits(t[..|t| - 6]), ParseDigits(t[|t| - 5..|t| - 3]), ParseDigits(t[|t| - 2..])))
    else None
  }

  /** `t` is an "H:MM:SS" clock reading with H in [0,23] and MM, SS in
      [0,59] that denotes second `daySecond` of a day. */
  predicate HmsOf(t: string, daySecond: int)
  {
    var p := ParseHms(t);
    && p.Some?
    && 0 <= p.value.hours < 24 && 0 <= p.value.minutes < 60 && 0 <= p.value.seconds < 60
    && p.value.hours * 3600 + p.value.minutes * 60 + p.value.seconds == daySecond
  }

  /** `secs_to_hms` always yields "H:MM:SS" with H in [0,23] and MM, SS in
      [0,59], and the three fields recombine to the truncated value
      modulo one day. */
  lemma SecsToHmsRoundTrip(ms: int)
    ensures HmsOf(SecsToHms(ms), TruncSeconds(ms) % SecondsPerDay)
  {
    var c := SplitHms(DaySeconds(TruncSeconds(ms)));
    var h, m, s := NatStr(c.hours), Pad2(c.minutes), Pad2(c.seconds);
    var t := SecsToHms(ms);
    assert t == h + ":" + m + ":" + s;
    assert t[0] == h[0];
    assert t[..|t| - 6] == h;
    assert t[|t| - 5..|t| - 3] == m;
    assert t[|t| - 2..] == s;
    NatStrRoundTrip(c.hours);
  }

  /** The reader takes only what `secs_to_hms` can write: no padded hour. */
  lemma ParseHmsRejectsPaddedHour()
    ensures ParseHms("00:02:05") == None
  {
  }

  /** The Epoch itself is midnight. */
  lemma SecsToHmsOfZero()
    ensures SecsToHms(0) == "0:00:00"
  {
    assert SplitHms(DaySeconds(TruncSeconds(0))) == Clock(0, 0, 0);
  }

  /** 125 seconds, given in milliseconds, is two minutes and five seconds. */
  lemma SecsToHmsOfWholeSeconds()
    ensures SecsToHms(125000) == "0:02:05"
  {
    assert SplitHms(DaySeconds(TruncSeconds(125000))) == Clock(0, 2, 5);
  }

  /** A time one second before the Epoch wraps to the last second of the
      previous day, as `timedelta` normalises negative spans. */
  lemma SecsToHmsOfNegative()
    ensures SecsToHms(-1000) == "23:59:59"
  {
    assert SplitHms(DaySeconds(TruncSeconds(-1000))) == Clock(23, 59, 59);
    assert NatStr(23) == "23" by {
      assert NatStr(2) == "2";
    }
  }

  /** `human_duration(delta)` for a span of `n` whole seconds; the hours
      are not wrapped at one day. */
  function HumanDuration(n: int): string
  {
    var c := SplitHms(n);
    IntStr(c.hours) + " hours, " + NatStr(c.minutes) + " minutes, " + NatStr(c.seconds) + " seconds"
  }

  /** The label names hours, minutes under 60 and seconds under 60 that
      recombine to the span; the hours are the whole hours of the span,
      however many days it covers. */
  lemma HumanDurationSplit(n: int)
    ensures exists h: int, m: nat, s: nat ::
      && m < 60 && s < 60 && h * 3600 + m * 60 + s == n && h == n / 3600
      && HumanDuration(n) == IntStr(h) + " hours, " + NatStr(m) + " minutes, " + NatStr(s) + " seconds"
  {
    var c := SplitHms(n);
    assert c.hours == n / 3600;
    assert HumanDuration(n) == IntStr(c.hours) + " hours, " + NatStr(c.minutes) + " minutes, " + NatStr(c.seconds) + " seconds";
  }

  /** Whole seconds, a '.', and exactly three digits of milliseconds. */
  function UnsignedMillis(a: nat): (u: string)
    ensures |u| >= 5 && IsDigit(u[0])
  {
    NatStr(a / 1000) + "." + Pad3(a % 1000)
  }

  /** `f"{x:.3f}"` for x = ms / 1000 seconds. */
  function FixedMillis(ms: int): string
  {
    if ms < 0 then "-" + UnsignedMillis(-ms) else UnsignedMillis(ms)
  }

  /** Reads back whole seconds with no leading zero (as `f"{x:.3f}"`
      writes them), a '.', and exactly three fractional digits. */
  function ParseUnsignedMillis(u: string): Option<nat>
  {
    if |u| >= 5 && u[|u| - 4] == '.' && (u[0] != '0' || |u| == 5) && AllDigits(u[..|u| - 4]) && AllDigits(u[|u| - 3..])
    then Some(ParseDigits(u[..|u| - 4]) * 1000 + ParseDigits(u[|u| - 3..]))
    else None
  }

  /** Reads back an optionally signed decimal with exactly three
      fractional digits; a negative zero is not a rendering of an
      integer millisecond value. */
  function ParseFixedMillis(t: string): Option<int>
  {
    if |t| > 0 && t[0] == '-' then
      match ParseUnsignedMillis(t[1..])
      case Some(v) => if v == 0 then None else Some(-(v as int))
      case None => None
    else
      match ParseUnsignedMillis(t)
      case Some(v) => Some(v as int)
      case None => None
  }

  lemma UnsignedMillisRoundTrip(a: nat)
    ensures ParseUnsignedMillis(UnsignedMillis(a)) == Some(a)
  {
    var u := UnsignedMillis(a);
    assert u[0] == NatStr(a / 1000)[0];
    assert u[|u| - 4] == '.';
    assert u[..|u| - 4] == NatStr(a / 1000);
    assert u[|u| - 3..] == Pad3(a % 1000);
    NatStrRoundTrip(a / 1000);
  }

  /** A sign in front of an unsigned rendering negates what is read. */
  lemma ParseSignedMillis(u: string, a: nat)
    requires |u| >= 1 && IsDigit(u[0]) && ParseUnsignedMillis(u) == Some(a)
    ensures ParseFixedMillis(u) == Some(a)
    ensures a > 0 ==> ParseFixedMillis("-" + u) == Some(-(a as int))
  {
    assert ("-" + u)[1..] == u;
  }

  /** The rendering loses nothing: the millisecond value reads back exactly. */
  lemma FixedMillisRoundTrip(ms: int)
    ensures ParseFixedMillis(FixedMillis(ms)) == Some(ms)
  {
    var a := if ms < 0 then -ms else ms;
    UnsignedMillisRoundTrip(a);
    ParseSignedMillis(UnsignedMillis(a), a);
  }

  /** The reader takes only what the rendering of an integer millisecond
      value can be: no padded whole seconds and no negative zero. */
  lemma ParseFixedMillisRejectsNonCanonical()
    ensures ParseFixedMillis("00.500") == None
    ensures ParseFixedMillis("-0.000") == None
  {
    assert ParseUnsignedMillis("0.000") == Some(0) by {
      assert ParseDigits("0") == 0 && ParseDigits("000") == 0;
    }
    assert "-0.000"[1..] == "0.000";
  }

  lemma FixedMillisOfZero()
    ensures FixedMillis(0) == "0.000"
  {
  }

  /** 125 seconds in milliseconds. */
  lemma FixedMillisOfWholeSeconds()
    ensures FixedMillis(125000) == "125.000"
  {
    assert NatStr(125) == "125" by {
      assert NatStr(12) == "12" by {
        assert NatStr(1) == "1";
      }
    }
  }

  /** A negative value keeps its sign in front of the whole seconds. */
  lemma FixedMillisOfNegative()
    ensures FixedMillis(-1500) == "-1.500"
  {
  }
}

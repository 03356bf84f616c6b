/** Character and string helpers shared by the time formatter, the
    window-boundary parser and the marker renderer: decimal digits,
    zero padding, Python's `str.strip()` and substring search. */
module Text {

  predicate IsDigit(c: char) { '0' <= c <= '9' }

  predicate AllDigits(s: string) { forall i :: 0 <= i < |s| ==> IsDigit(s[i]) }

  function DigitValue(c: char): (d: nat)
    requires IsDigit(c)
    ensures d < 10
  {
    (c as int) - ('0' as int)
  }

  function DigitChar(d: nat): (c: char)
    requires d < 10
    ensures IsDigit(c) && DigitValue(c) == d
  {
    (('0' as int) + d) as char
  }

  /** The value of a run of decimal digits, most significant first. */
  function ParseDigits(s: string): (n: nat)
    requires AllDigits(s)
    decreases |s|
  {
    if s == [] then 0 else ParseDigits(s[..|s| - 1]) * 10 + DigitValue(s[|s| - 1])
  }

  /** Python's `str(n)` for a non-negative integer: no sign, no leading zero. */
  function NatStr(n: nat): (s: string)
    ensures |s| >= 1 && AllDigits(s)
    ensures s[0] == '0' ==> n == 0
    decreases n
  {
    if n < 10 then [DigitChar(n)] else NatStr(n / 10) + [DigitChar(n % 10)]
  }

  /** Python's `str(i)` for any integer: a leading '-' for negatives. */
  function IntStr(i: int): (s: string)
    ensures |s| >= 1
    ensures (s[0] == '-') == (i < 0)
  {
    if i < 0 then "-" + NatStr(-i) else NatStr(i)
  }

  lemma {:induction false} NatStrRoundTrip(n: nat)
    ensures ParseDigits(NatStr(n)) == n
    decreases n
  {
    if n >= 10 {
      var s := NatStr(n);
      assert s[..|s| - 1] == NatStr(n / 10);
      NatStrRoundTrip(n / 10);
    }
  }

  lemma ParseDigitsSnoc(s: string, c: char)
    requires AllDigits(s) && IsDigit(c)
    ensures AllDigits(s + [c]) && ParseDigits(s + [c]) == ParseDigits(s) * 10 + DigitValue(c)
  {
    assert (s + [c])[..|s|] == s;
  }

  /** `f"{n:02d}"` for 0 <= n < 100. */
  function Pad2(n: nat): (s: string)
    requires n < 100
    ensures |s| == 2 && AllDigits(s) && ParseDigits(s) == n
  {
    ParseDigitsSnoc([DigitChar(n / 10)], DigitChar(n % 10));
    assert [DigitChar(n / 10)][..0] == [];
    [DigitChar(n / 10), DigitChar(n % 10)]
  }

  /** Three zero-padded digits, the fraction of `f"{x:.3f}"`. */
  function Pad3(n: nat): (s: string)
    requires n < 1000
    ensures |s| == 3 && AllDigits(s) && ParseDigits(s) == n
  {
    ParseDigitsSnoc(Pad2(n / 10), DigitChar(n % 10));
    Pad2(n / 10) + [DigitChar(n % 10)]
  }

  /** Four zero-padded digits, a `%Y` year. */
  function Pad4(n: nat): (s: string)
    requires n < 10000
    ensures |s| == 4 && AllDigits(s) && ParseDigits(s) == n
  {
    ParseDigitsSnoc(Pad3(n / 10), DigitChar(n % 10));
    Pad3(n / 10) + [DigitChar(n % 10)]
  }

  lemma DigitRoundTrip(c: char)
    requires IsDigit(c)
    ensures DigitChar(DigitValue(c)) == c
  {
  }

  /** Padding is also a left inverse of parsing on fixed-width digit runs. */
  lemma Pad2OfParse(s: string)
    requires |s| == 2 && AllDigits(s)
    ensures ParseDigits(s) < 100 && Pad2(ParseDigits(s)) == s
  {
    assert s == [s[0]] + [s[1]];
    ParseDigitsSnoc([s[0]], s[1]);
    assert [s[0]][..0] == [];
    DigitRoundTrip(s[0]);
    DigitRoundTrip(s[1]);
  }

  lemma Pad4OfParse(s: string)
    requires |s| == 4 && AllDigits(s)
    ensures ParseDigits(s) < 10000 && Pad4(ParseDigits(s)) == s
  {
    var a, b := s[..2], s[2..];
    assert s == a + [s[2]] + [s[3]];
    Pad2OfParse(a);
    ParseDigitsSnoc(a, s[2]);
    ParseDigitsSnoc(a + [s[2]], s[3]);
    var n := ParseDigits(s);
    assert n / 10 / 10 == ParseDigits(a) && n / 10 % 10 == DigitValue(s[2]) && n % 10 == DigitValue(s[3]);
    DigitRoundTrip(s[2]);
    DigitRoundTrip(s[3]);
  }

  /** The characters for which Python's `str.isspace()` holds, which are the
      characters `str.strip()` without arguments removes. */
  predicate IsSpace(c: char)
  {
    ('\U{0009}' <= c <= '\U{000D}') || ('\U{001C}' <= c <= '\U{0020}')
    || c == '\U{0085}' || c == '\U{00A0}' || c == '\U{1680}'
    || ('\U{2000}' <= c <= '\U{200A}') || c == '\U{2028}' || c == '\U{2029}'
    || c == '\U{202F}' || c == '\U{205F}' || c == '\U{3000}'
  }

  /** The first index at or after `i` that does not hold whitespace, or
      `|s|`. */
  function SkipSpaces(s: string, i: nat): (j: nat)
    requires i <= |s|
    ensures i <= j <= |s|
    ensures forall k :: i <= k < j ==> IsSpace(s[k])
    ensures j < |s| ==> !IsSpace(s[j])
    decreases |s| - i
  {
    if i < |s| && IsSpace(s[i]) then SkipSpaces(s, i + 1) else i
  }

  /** Walks back from `j` over whitespace, stopping at `lo`. */
  function SkipSpacesBack(s: string, lo: nat, j: nat): (e: nat)
    requires lo <= j <= |s|
    ensures lo <= e <= j
    ensures forall k :: e <= k < j ==> IsSpace(s[k])
    ensures lo < e ==> !IsSpace(s[e - 1])
    decreases j
  {
    if lo < j && IsSpace(s[j - 1]) then SkipSpacesBack(s, lo, j - 1) else j
  }

  /** Python's `s.strip()`: the part between the leading and the trailing
      whitespace. */
  function Strip(s: string): (r: string)
  {
    var i := SkipSpaces(s, 0);
    s[i..SkipSpacesBack(s, i, |s|)]
  }

  /** `strip()` removes exactly a whitespace prefix and a whitespace suffix
      and keeps the middle part, which neither starts nor ends with
      whitespace. */
  lemma StripIsTrimmedInfix(s: string)
    ensures exists i :: StrippedAt(s, i)
  {
    var i := SkipSpaces(s, 0);
    var e := SkipSpacesBack(s, i, |s|);
    assert StrippedAt(s, i);
  }

  /** `Strip(s)` is `s[i..i + |Strip(s)|]`, everything outside it is
      whitespace, and its first and last characters are not. */
  ghost predicate StrippedAt(s: string, i: int)
  {
    var r := Strip(s);
    && 0 <= i && i + |r| <= |s| && r == s[i..i + |r|]
    && (forall k :: 0 <= k < i ==> IsSpace(s[k]))
    && (forall k :: i + |r| <= k < |s| ==> IsSpace(s[k]))
    && (r != [] ==> !IsSpace(r[0]) && !IsSpace(r[|r| - 1]))
  }

  /** The blank test of the window fields: stripping leaves nothing exactly
      when every character is whitespace. */
  lemma StripEmptyIffBlank(s: string)
    ensures Strip(s) == [] <==> forall k :: 0 <= k < |s| ==> IsSpace(s[k])
  {
    StripIsTrimmedInfix(s);
    var i :| StrippedAt(s, i);
    if Strip(s) != [] {
      assert s[i] == Strip(s)[0];
    }
  }

  /** A string that neither starts nor ends with whitespace is its own
      `strip()`. */
  lemma StripUnpadded(s: string)
    requires s != [] && !IsSpace(s[0]) && !IsSpace(s[|s| - 1])
    ensures Strip(s) == s
  {
    assert SkipSpaces(s, 0) == 0;
    assert s[0..|s|] == s;
  }

  predicate StartsWith(s: string, p: string) { |p| <= |s| && s[..|p|] == p }

  /** `p` occurs in `s` starting at index `i`. */
  predicate OccursAt(s: string, p: string, i: int)
  {
    0 <= i <= |s| - |p| && s[i..i + |p|] == p
  }

  /** `p in s` for strings, as a scan from the left. */
  predicate Contains(s: string, p: string)
    decreases |s|
  {
    StartsWith(s, p) || (s != [] && Contains(s[1..], p))
  }

  lemma {:induction false} ContainsIff(s: string, p: string)
    ensures Contains(s, p) <==> exists i :: OccursAt(s, p, i)
    decreases |s|
  {
    if StartsWith(s, p) {
      assert OccursAt(s, p, 0);
    }
    if s != [] {
      ContainsIff(s[1..], p);
      if Contains(s[1..], p) {
        var i :| OccursAt(s[1..], p, i);
        assert s[i + 1..i + 1 + |p|] == s[1..][i..i + |p|];
        assert OccursAt(s, p, i + 1);
      }
      if exists i :: OccursAt(s, p, i) {
        var i :| OccursAt(s, p, i);
        if i > 0 {
          assert s[1..][i - 1..i - 1 + |p|] == s[i..i + |p|];
          assert OccursAt(s[1..], p, i - 1);
        }
      }
    } else if exists i :: OccursAt(s, p, i) {
      var i :| OccursAt(s, p, i);
      assert i == 0 && |p| == 0;
    }
  }
}

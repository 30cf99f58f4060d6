/**
 * Calendar dates read with `datetime.strptime` and written back with `isoformat` or
 * `strftime`, for the numeric formats the scripts try: `%Y-%m-%d`, `%Y/%m/%d`, `%m-%d-%Y`,
 * `%m/%d/%Y` and `%d-%m-%Y`. Each is read at fixed width: a four-digit year and two-digit
 * month and day.
 */
module FixedDates {
  import opened Wrappers
  import opened PyStrings
  import opened PyValues

  datatype Date = Date(year: int, month: int, day: int)

  datatype Format = YmdDash | YmdSlash | MdyDash | MdySlash | DmyDash

  predicate IsLeap(y: int) {
    y % 4 == 0 && (y % 100 != 0 || y % 400 == 0)
  }

  function DaysInMonth(y: int, m: int): int {
    if m == 2 then (if IsLeap(y) then 29 else 28)
    else if m == 4 || m == 6 || m == 9 || m == 11 then 30
    else 31
  }

  /** A date `datetime` accepts: years 1 to 9999, and a day that exists in its month. */
  predicate Valid(d: Date) {
    1 <= d.year <= 9999 && 1 <= d.month <= 12 && 1 <= d.day <= DaysInMonth(d.year, d.month)
  }

  function Separator(f: Format): char {
    if f == YmdSlash || f == MdySlash then '/' else '-'
  }

  function YearAt(f: Format): nat {
    if f == YmdDash || f == YmdSlash then 0 else 6
  }

  function MonthAt(f: Format): nat {
    match f
    case YmdDash => 5
    case YmdSlash => 5
    case MdyDash => 0
    case MdySlash => 0
    case DmyDash => 3
  }

  function DayAt(f: Format): nat {
    match f
    case YmdDash => 8
    case YmdSlash => 8
    case MdyDash => 3
    case MdySlash => 3
    case DmyDash => 0
  }

  predicate IsSeparatorIndex(f: Format, i: int) {
    if f == YmdDash || f == YmdSlash then i == 4 || i == 7 else i == 2 || i == 5
  }

  /** `s` has the layout of format `f`: ten characters, separators in place, digits elsewhere. */
  predicate Shaped(s: string, f: Format) {
    |s| == 10 &&
    forall i :: 0 <= i < 10 ==>
      if IsSeparatorIndex(f, i) then s[i] == Separator(f) else IsAsciiDigit(s[i])
  }

  function DigitValue(c: char): nat
    requires IsAsciiDigit(c)
  {
    c as int - '0' as int
  }

  function Num2(s: string, i: nat): nat
    requires i + 2 <= |s| && IsAsciiDigit(s[i]) && IsAsciiDigit(s[i + 1])
  {
    10 * DigitValue(s[i]) + DigitValue(s[i + 1])
  }

  function Num4(s: string, i: nat): nat
    requires i + 4 <= |s| && forall k :: i <= k < i + 4 ==> IsAsciiDigit(s[k])
  {
    100 * Num2(s, i) + Num2(s, i + 2)
  }

  /** `datetime.strptime(s, f)`, or `None` where it raises ValueError. */
  function Parse(s: string, f: Format): (r: Option<Date>)
    ensures r.Some? ==> Valid(r.value) && Shaped(s, f)
  {
    if !Shaped(s, f) then None
    else
      var d := Date(Num4(s, YearAt(f)), Num2(s, MonthAt(f)), Num2(s, DayAt(f)));
      if Valid(d) then Some(d) else None
  }

  /** The formats are tried in order and the first that parses wins. */
  function ParseFirst(s: string, formats: seq<Format>): (r: Option<Date>)
    ensures r.Some? <==> exists i :: 0 <= i < |formats| && Parse(s, formats[i]).Some?
    ensures r.Some? ==> Valid(r.value)
  {
    if formats == [] then None
    else if Parse(s, formats[0]).Some? then Parse(s, formats[0])
    else
      var rest := ParseFirst(s, formats[1..]);
      assert forall i :: 1 <= i < |formats| ==> formats[i] == formats[1..][i - 1];
      rest
  }

  function Pad2(n: nat): (r: string)
    requires n < 100
    ensures |r| == 2 && IsAsciiDigit(r[0]) && IsAsciiDigit(r[1])
  {
    [DigitChar(n / 10), DigitChar(n % 10)]
  }

  function Pad4(n: nat): (r: string)
    requires n < 10000
    ensures |r| == 4 && forall i :: 0 <= i < 4 ==> IsAsciiDigit(r[i])
  {
    Pad2(n / 100) + Pad2(n % 100)
  }

  /** `dt.isoformat()` of a date read by `strptime`: the time part is midnight. */
  function IsoMidnight(d: Date): string
    requires Valid(d)
  {
    Pad4(d.year) + "-" + Pad2(d.month) + "-" + Pad2(d.day) + "T00:00:00"
  }

  /** `dt.strftime('%m-%d-%Y')`. */
  function MonthDayYear(d: Date): string
    requires Valid(d)
  {
    Pad2(d.month) + "-" + Pad2(d.day) + "-" + Pad4(d.year)
  }

  lemma Pad2Num2(s: string, i: nat)
    requires i + 2 <= |s| && IsAsciiDigit(s[i]) && IsAsciiDigit(s[i + 1])
    ensures Num2(s, i) < 100 && Pad2(Num2(s, i)) == s[i..i + 2]
  {
  }

  lemma Pad4Num4(s: string, i: nat)
    requires i + 4 <= |s| && forall k :: i <= k < i + 4 ==> IsAsciiDigit(s[k])
    ensures Num4(s, i) < 10000 && Pad4(Num4(s, i)) == s[i..i + 4]
  {
    Pad2Num2(s, i);
    Pad2Num2(s, i + 2);
    assert Num4(s, i) / 100 == Num2(s, i);
    assert Num4(s, i) % 100 == Num2(s, i + 2);
  }

  /**
   * Reading a date and writing it back with `%m-%d-%Y` only moves the digit groups:
   * `YYYY-MM-DD` becomes `MM-DD-YYYY`, and the `%m-%d-%Y` and `%m/%d/%Y` layouts keep their digits.
   */
  lemma {:induction false} MonthDayYearMovesDigits(s: string, f: Format)
    requires Parse(s, f).Some?
    ensures MonthDayYear(Parse(s, f).value) ==
      s[MonthAt(f)..MonthAt(f) + 2] + "-" + s[DayAt(f)..DayAt(f) + 2] + "-" + s[YearAt(f)..YearAt(f) + 4]
  {
    Pad2Num2(s, MonthAt(f));
    Pad2Num2(s, DayAt(f));
    Pad4Num4(s, YearAt(f));
  }

  /**
   * Only `%m-%d-%Y` and `%d-%m-%Y` share a layout, and no list of formats the scripts try
   * holds both; so within one list at most one format can read a given text.
   */
  lemma ShapesExclusive(s: string, f: Format, g: Format)
    requires Shaped(s, f) && Shaped(s, g)
    requires {f, g} != {MdyDash, DmyDash}
    ensures f == g
  {
    assert s[2] == Separator(f) <==> s[2] == Separator(g);
    assert s[4] == Separator(f) <==> s[4] == Separator(g);
  }
}

/** The anchored date patterns the validator and the scorer test with `re.match`. */
module DatePatterns {
  import opened PyStrings
  import opened PyValues
  import opened FixedDates

  /** `\d{4}-\d{2}-\d{2}T\d{2}:\d{2}:\d{2}`, written with `d` standing for `\d`. */
  const DateTimePattern: string := "dddd-dd-ddTdd:dd:dd"

  /** `\d{4}-\d{2}-\d{2}`. */
  const DatePattern: string := "dddd-dd-dd"

  /** `re.match(pattern, s)`: `s` starts with text the pattern accepts; anything may follow. */
  predicate MatchesPrefix(s: string, pattern: string) {
    |pattern| <= |s| &&
    forall i :: 0 <= i < |pattern| ==> if pattern[i] == 'd' then IsAsciiDigit(s[i]) else s[i] == pattern[i]
  }

  /** A full ISO 8601 date-time prefix. */
  predicate IsIso8601(s: string) {
    MatchesPrefix(s, DateTimePattern)
  }

  /** Trailing text after the matched prefix never matters. */
  lemma TrailingTextAllowed(s: string, t: string, pattern: string)
    requires MatchesPrefix(s, pattern)
    ensures MatchesPrefix(s + t, pattern)
  {
    assert forall i :: 0 <= i < |s| ==> (s + t)[i] == s[i];
  }

  /** Every date-time prefix starts with a date prefix. */
  lemma DateTimeHasDate(s: string)
    requires IsIso8601(s)
    ensures MatchesPrefix(s, DatePattern)
  {
    assert forall i :: 0 <= i < |DatePattern| ==> DatePattern[i] == DateTimePattern[i];
  }

  /** A value that is not a string never passes `re.match` on its `str()`: no pattern here starts with `-` or a letter. */
  lemma {:induction false} NonStringNeverMatches(v: Value, pattern: string)
    requires pattern == DatePattern || pattern == DateTimePattern
    requires !v.Str?
    ensures !MatchesPrefix(Text(v), pattern)
  {
    var t := Text(v);
    assert pattern[4] == '-';
    if v.Int? && v.i >= 0 && |t| > 4 {
      assert IsAsciiDigit(t[4]);
    }
  }

  /** `dt.isoformat() + 'Z'` for a date read by `strptime` is a full ISO 8601 date-time. */
  lemma IsoMidnightMatches(d: Date)
    requires Valid(d)
    ensures IsIso8601(IsoMidnight(d) + "Z")
  {
    var s := IsoMidnight(d) + "Z";
    IsoMidnightLayout(d);
    forall i | 0 <= i < |DateTimePattern|
      ensures if DateTimePattern[i] == 'd' then IsAsciiDigit(s[i]) else s[i] == DateTimePattern[i]
    {
      assert s[i] == IsoMidnight(d)[i];
    }
  }

  /** Where the year, the month, the day and the midnight time sit in `isoformat()`. */
  lemma IsoMidnightLayout(d: Date)
    requires Valid(d)
    ensures var s := IsoMidnight(d);
      |s| == 19 && s[..4] == Pad4(d.year) && s[4] == '-' && s[5..7] == Pad2(d.month)
      && s[7] == '-' && s[8..10] == Pad2(d.day) && s[10..] == "T00:00:00"
  {
  }
}

/**
 * The signet minter: it cleans the creator's details into a dash-separated signet string,
 * `Name-MM-DD-YYYY-Epoch-Vocations-ORIGIN`, and derives the M-ID from it with a name-based
 * UUID (section 4.3 of RFC 4122), whose hashing is a parameter here.
 */
module SignetMinter {
  import opened Wrappers
  import opened PyStrings
  import opened FixedDates
  import opened PyValues
  import opened Ledger

  // ---------------------------------------------------------------------------------------
  // sanitize_input

  /** The characters the character-class `re.sub` keeps: ASCII letters and digits, white space, `-`. */
  predicate Allowed(c: char) { IsAsciiAlnum(c) || IsSpace(c) || c == '-' }

  /** The characters a sanitized text is made of. */
  predicate SignetChar(c: char) { IsAsciiAlnum(c) || c == '-' }

  /** `re.sub(r'[^a-zA-Z0-9\s-]', '', s)`. */
  function KeepAllowed(s: string): (r: string)
    ensures |r| <= |s|
    ensures forall i :: 0 <= i < |r| ==> Allowed(r[i]) && r[i] in s
  {
    if s == [] then []
    else (if Allowed(s[0]) then [s[0]] else []) + KeepAllowed(s[1..])
  }

  /** `re.sub(r'\s+', '-', s)`: each maximal run of white space becomes a single `-`. */
  function DashSpaces(s: string): (r: string)
    ensures forall i :: 0 <= i < |r| ==> !IsSpace(r[i]) && (r[i] == '-' || r[i] in s)
    decreases |s|
  {
    if s == [] then []
    else if IsSpace(s[0]) then
      var rest := LStrip(s[1..]);
      LStripSuffix(s[1..]);
      assert forall c :: c in rest ==> c in s;
      "-" + DashSpaces(rest)
    else [s[0]] + DashSpaces(s[1..])
  }

  /** `s.lstrip('-')`. */
  function LStripDash(s: string): (r: string)
    ensures |r| <= |s| && r == s[|s| - |r|..]
    ensures r == [] || r[0] != '-'
  {
    if s != [] && s[0] == '-' then LStripDash(s[1..]) else s
  }

  /** `s.rstrip('-')`. */
  function RStripDash(s: string): (r: string)
    ensures |r| <= |s| && r == s[..|r|]
    ensures r == [] || r[|r| - 1] != '-'
  {
    if s != [] && s[|s| - 1] == '-' then RStripDash(s[..|s| - 1]) else s
  }

  /** `s.strip('-')`. */
  function StripDash(s: string): (r: string)
    ensures r == [] || (r[0] != '-' && r[|r| - 1] != '-')
    ensures forall c :: c in r ==> c in s
  {
    var l := LStripDash(s);
    var r := RStripDash(l);
    SliceMembers(l, 0, |r|);
    SliceMembers(s, |s| - |l|, |s|);
    r
  }

  /**
   * `sanitize_input`: commas become spaces, characters outside the class are dropped, each
   * run of white space becomes `-`, and dashes are stripped from both ends.
   */
  function Sanitize(text: string): (r: string)
    ensures forall i :: 0 <= i < |r| ==> SignetChar(r[i])
    ensures r == [] || (r[0] != '-' && r[|r| - 1] != '-')
  {
    var spaced := ReplaceChar(text, ',', ' ');
    var kept := KeepAllowed(spaced);
    var dashed := DashSpaces(kept);
    StripDash(dashed)
  }

  /** The ASCII letters and digits of `s`, in order. */
  function AlnumOf(s: string): string {
    if s == [] then []
    else (if IsAsciiAlnum(s[0]) then [s[0]] else []) + AlnumOf(s[1..])
  }

  lemma {:induction false} AlnumOfAppend(a: string, b: string)
    ensures AlnumOf(a + b) == AlnumOf(a) + AlnumOf(b)
  {
    if a == [] {
      assert a + b == b;
    } else {
      var h := if IsAsciiAlnum(a[0]) then [a[0]] else [];
      assert (a + b)[0] == a[0];
      assert (a + b)[1..] == a[1..] + b;
      assert AlnumOf(a + b) == h + AlnumOf(a[1..] + b);
      AlnumOfAppend(a[1..], b);
      assert h + (AlnumOf(a[1..]) + AlnumOf(b)) == (h + AlnumOf(a[1..])) + AlnumOf(b);
    }
  }

  lemma {:induction false} AlnumOfReplace(s: string)
    ensures AlnumOf(ReplaceChar(s, ',', ' ')) == AlnumOf(s)
  {
    if s != [] {
      AlnumOfReplace(s[1..]);
      assert ReplaceChar(s, ',', ' ')[1..] == ReplaceChar(s[1..], ',', ' ');
    }
  }

  lemma {:induction false} AlnumOfKeepAllowed(s: string)
    ensures AlnumOf(KeepAllowed(s)) == AlnumOf(s)
  {
    if s != [] {
      AlnumOfKeepAllowed(s[1..]);
      AlnumOfAppend(if Allowed(s[0]) then [s[0]] else [], KeepAllowed(s[1..]));
    }
  }

  lemma SpaceNotAlnum(c: char)
    requires IsSpace(c)
    ensures !IsAsciiAlnum(c)
  {
  }

  lemma {:induction false} AlnumOfLStrip(s: string)
    ensures AlnumOf(LStrip(s)) == AlnumOf(s)
  {
    if s != [] && IsSpace(s[0]) {
      AlnumOfLStrip(s[1..]);
      SpaceNotAlnum(s[0]);
    }
  }

  lemma {:induction false} AlnumOfDashSpaces(s: string)
    ensures AlnumOf(DashSpaces(s)) == AlnumOf(s)
    decreases |s|
  {
    if s != [] {
      if IsSpace(s[0]) {
        LStripSuffix(s[1..]);
        AlnumOfDashSpaces(LStrip(s[1..]));
        AlnumOfLStrip(s[1..]);
        AlnumOfAppend("-", DashSpaces(LStrip(s[1..])));
      } else {
        AlnumOfDashSpaces(s[1..]);
        AlnumOfAppend([s[0]], DashSpaces(s[1..]));
      }
    }
  }

  lemma {:induction false} AlnumOfLStripDash(s: string)
    ensures AlnumOf(LStripDash(s)) == AlnumOf(s)
  {
    if s != [] && s[0] == '-' {
      AlnumOfLStripDash(s[1..]);
      AlnumOfDash(s);
    }
  }

  /** A leading dash adds nothing to the letters and digits. */
  lemma AlnumOfDash(s: string)
    requires s != [] && s[0] == '-'
    ensures AlnumOf(s) == AlnumOf(s[1..])
  {
  }

  lemma {:induction false} AlnumOfRStripDash(s: string)
    ensures AlnumOf(RStripDash(s)) == AlnumOf(s)
  {
    if s != [] && s[|s| - 1] == '-' {
      var n := |s| - 1;
      AlnumOfRStripDash(s[..n]);
      assert s == s[..n] + "-";
      AlnumOfAppend(s[..n], "-");
    }
  }

  /** With its dashes removed, a text made of letters, digits and dashes is its letters and digits. */
  lemma {:induction false} AlnumOfSignetText(s: string)
    requires forall i :: 0 <= i < |s| ==> SignetChar(s[i])
    ensures AlnumOf(s) == RemoveChar(s, '-')
  {
    if s != [] {
      AlnumOfSignetText(s[1..]);
    }
  }

  /**
   * Sanitizing keeps every ASCII letter and digit of the input, in order, and adds nothing
   * but dashes: with its dashes removed the result is exactly the input's letters and digits.
   */
  lemma SanitizeKeepsAlnum(text: string)
    ensures RemoveChar(Sanitize(text), '-') == AlnumOf(text)
  {
    var spaced := ReplaceChar(text, ',', ' ');
    var kept := KeepAllowed(spaced);
    var dashed := DashSpaces(kept);
    AlnumOfReplace(text);
    AlnumOfKeepAllowed(spaced);
    AlnumOfDashSpaces(kept);
    AlnumOfLStripDash(dashed);
    AlnumOfRStripDash(LStripDash(dashed));
    AlnumOfSignetText(Sanitize(text));
  }

  lemma {:induction false} KeepAllowedFixes(s: string)
    requires forall i :: 0 <= i < |s| ==> Allowed(s[i])
    ensures KeepAllowed(s) == s
  {
    if s != [] {
      KeepAllowedFixes(s[1..]);
    }
  }

  lemma {:induction false} DashSpacesFixes(s: string)
    requires forall i :: 0 <= i < |s| ==> !IsSpace(s[i])
    ensures DashSpaces(s) == s
  {
    if s != [] {
      DashSpacesFixes(s[1..]);
    }
  }

  /** A sanitized text is its own sanitization: it has no comma, no white space and no dash at either end. */
  lemma SanitizeIdempotent(text: string)
    ensures Sanitize(Sanitize(text)) == Sanitize(text)
  {
    SanitizedFixed(Sanitize(text));
  }

  /** A text of letters, digits and inner dashes comes through every stage of `sanitize_input` unchanged. */
  lemma SanitizedFixed(s: string)
    requires forall i :: 0 <= i < |s| ==> SignetChar(s[i])
    requires s == [] || (s[0] != '-' && s[|s| - 1] != '-')
    ensures Sanitize(s) == s
  {
    SignetCharsKept(s);
    KeepAllowedFixes(s);
    DashSpacesFixes(s);
    StripDashFixed(s);
    assert Sanitize(s) == StripDash(DashSpaces(KeepAllowed(ReplaceChar(s, ',', ' '))));
  }

  /** Letters, digits and dashes hold no comma, are all allowed and are not white space. */
  lemma SignetCharsKept(s: string)
    requires forall i :: 0 <= i < |s| ==> SignetChar(s[i])
    ensures ReplaceChar(s, ',', ' ') == s
    ensures forall i :: 0 <= i < |s| ==> Allowed(s[i]) && !IsSpace(s[i])
  {
  }

  /** A text with no dash at either end is its own `strip('-')`. */
  lemma StripDashFixed(s: string)
    requires s == [] || (s[0] != '-' && s[|s| - 1] != '-')
    ensures StripDash(s) == s
  {
    assert LStripDash(s) == s;
  }

  /** `lstrip` removes exactly a leading run of white space. */
  lemma {:induction false} LStripRun(w: string, b: string)
    requires forall i :: 0 <= i < |w| ==> IsSpace(w[i])
    requires b == [] || !IsSpace(b[0])
    ensures LStrip(w + b) == b
  {
    if w == [] {
      assert w + b == b;
    } else {
      assert (w + b)[1..] == w[1..] + b;
      LStripRun(w[1..], b);
    }
  }

  /** Text without white space passes through `re.sub(r'\s+', '-', ...)` as it is. */
  lemma {:induction false} DashSpacesWord(a: string, t: string)
    requires forall i :: 0 <= i < |a| ==> !IsSpace(a[i])
    ensures DashSpaces(a + t) == a + DashSpaces(t)
  {
    if a == [] {
      assert a + t == t;
    } else {
      assert (a + t)[1..] == a[1..] + t;
      DashSpacesWord(a[1..], t);
    }
  }

  /** A whole run of white space, however long, becomes a single `-`. */
  lemma DashSpacesRun(w: string, b: string)
    requires w != [] && forall i :: 0 <= i < |w| ==> IsSpace(w[i])
    requires b == [] || !IsSpace(b[0])
    ensures DashSpaces(w + b) == "-" + DashSpaces(b)
  {
    assert (w + b)[1..] == w[1..] + b;
    LStripRun(w[1..], b);
  }

  /** Every character of `s` is an ASCII letter or digit. */
  predicate AlnumText(s: string) {
    forall i :: 0 <= i < |s| ==> IsAsciiAlnum(s[i])
  }

  /**
   * Two words separated by white space and commas come out joined by one `-`:
   * `"Chris ,  Olds"` gives `"Chris-Olds"`.
   */
  lemma SanitizeJoinsWords(a: string, w: string, b: string)
    requires a != [] && b != [] && AlnumText(a) && AlnumText(b)
    requires w != [] && forall i :: 0 <= i < |w| ==> IsSpace(w[i]) || w[i] == ','
    ensures Sanitize(a + w + b) == a + "-" + b
  {
    var w' := SeparatorKept(a, w, b);
    DashSpacesJoin(a, w', b);
    var d := a + "-" + b;
    assert d[0] == a[0] && d[|d| - 1] == b[|b| - 1];
    StripDashFixed(d);
    assert Sanitize(a + w + b) == StripDash(DashSpaces(KeepAllowed(ReplaceChar(a + w + b, ',', ' '))));
  }

  /** The first two stages turn the separator's commas into spaces and keep everything. */
  lemma SeparatorKept(a: string, w: string, b: string) returns (w': string)
    requires AlnumText(a) && AlnumText(b)
    requires forall i :: 0 <= i < |w| ==> IsSpace(w[i]) || w[i] == ','
    ensures |w'| == |w| && forall i :: 0 <= i < |w'| ==> IsSpace(w'[i])
    ensures KeepAllowed(ReplaceChar(a + w + b, ',', ' ')) == a + w' + b
  {
    w' := ReplaceChar(w, ',', ' ');
    SignetCharsKept(a);
    SignetCharsKept(b);
    ReplaceCharAppend(a, w);
    ReplaceCharAppend(a + w, b);
    var s := a + w' + b;
    assert ReplaceChar(a + w + b, ',', ' ') == s;
    AllowedAppend(a, w');
    AllowedAppend(a + w', b);
    KeepAllowedFixes(s);
  }

  /** The white space between two words becomes one `-`. */
  lemma DashSpacesJoin(a: string, w: string, b: string)
    requires AlnumText(a) && AlnumText(b) && b != []
    requires w != [] && forall i :: 0 <= i < |w| ==> IsSpace(w[i])
    ensures DashSpaces(a + w + b) == a + "-" + b
  {
    assert a + w + b == a + (w + b);
    DashSpacesWord(a, w + b);
    DashSpacesRun(w, b);
    DashSpacesFixes(b);
  }

  lemma ReplaceCharAppend(x: string, y: string)
    ensures ReplaceChar(x + y, ',', ' ') == ReplaceChar(x, ',', ' ') + ReplaceChar(y, ',', ' ')
  {
  }

  lemma AllowedAppend(x: string, y: string)
    requires forall i :: 0 <= i < |x| ==> Allowed(x[i])
    requires forall i :: 0 <= i < |y| ==> Allowed(y[i])
    ensures forall i :: 0 <= i < |x + y| ==> Allowed((x + y)[i])
  {
    forall i | 0 <= i < |x + y|
      ensures Allowed((x + y)[i])
    {
      if i >= |x| {
        assert (x + y)[i] == y[i - |x|];
      }
    }
  }

  // ---------------------------------------------------------------------------------------
  // format_dob

  /** The formats `format_dob` tries, in its order. */
  const DobFormats: seq<Format> := [YmdDash, MdyDash, MdySlash, YmdSlash]

  /**
   * `format_dob`: the first format that reads the text, written back as `%m-%d-%Y`; `None`
   * where the script prints its error and exits with status 1.
   */
  function FormatDob(dob: string): (r: Option<string>)
    ensures r.Some? <==> exists i :: 0 <= i < |DobFormats| && Parse(dob, DobFormats[i]).Some?
  {
    match ParseFirst(dob, DobFormats)
    case None => None
    case Some(d) => Some(MonthDayYear(d))
  }

  /** `YYYY-MM-DD` becomes `MM-DD-YYYY`: the digit groups move, and nothing else changes. */
  lemma IsoDobReordered(dob: string)
    requires Parse(dob, YmdDash).Some?
    ensures FormatDob(dob) == Some(dob[5..7] + "-" + dob[8..10] + "-" + dob[..4])
  {
    MonthDayYearMovesDigits(dob, YmdDash);
  }

  lemma Num2Pad2(n: nat)
    requires n < 100
    ensures Num2(Pad2(n), 0) == n
  {
  }

  /** A date written as `%m-%d-%Y` is read back by `%m-%d-%Y`, and not by `%Y-%m-%d`. */
  lemma MonthDayYearReadBack(d: Date)
    requires Valid(d)
    ensures Parse(MonthDayYear(d), MdyDash) == Some(d)
    ensures Parse(MonthDayYear(d), YmdDash).None?
  {
    MonthDayYearLayout(d);
    var s := MonthDayYear(d);
    var mo, da, yr := Pad2(d.month), Pad2(d.day), Pad4(d.year);
    Num2Pad2(d.month);
    Num2Pad2(d.day);
    assert Num2(s, 0) == Num2(mo, 0);
    assert Num2(s, 3) == Num2(da, 0);
    assert Num2(s, 6) == Num2(yr, 0) && Num2(s, 8) == Num2(yr, 2);
    assert Num4(s, 6) == d.year;
    assert !Shaped(s, YmdDash) by {
      assert s[4] == da[1];
    }
  }

  /** Where the month, the day and the year sit in `%m-%d-%Y`. */
  lemma MonthDayYearLayout(d: Date)
    requires Valid(d)
    ensures var s := MonthDayYear(d);
      |s| == 10 && s[..2] == Pad2(d.month) && s[2] == '-' && s[3..5] == Pad2(d.day)
      && s[5] == '-' && s[6..] == Pad4(d.year)
  {
    var s := MonthDayYear(d);
    assert s == Pad2(d.month) + "-" + Pad2(d.day) + "-" + Pad4(d.year);
  }

  /** What `format_dob` writes, it reads back as itself: the `%m-%d-%Y` form is a fixed point. */
  lemma FormatDobFixed(dob: string)
    requires FormatDob(dob).Some?
    ensures FormatDob(FormatDob(dob).value) == FormatDob(dob)
  {
    var d := ParseFirst(dob, DobFormats).value;
    var s := MonthDayYear(d);
    MonthDayYearReadBack(d);
    assert DobFormats[1..][0] == MdyDash;
    assert ParseFirst(s, DobFormats[1..]) == Some(d);
    assert ParseFirst(s, DobFormats) == Some(d);
  }

  // ---------------------------------------------------------------------------------------
  // mint_signet

  /** `w.capitalize()` on ASCII text: the first character upper-cased, the rest lower-cased. */
  function Capitalize(w: string): (r: string)
    ensures |r| == |w|
  {
    if w == [] then [] else [UpperChar(w[0])] + Lower(w[1..])
  }

  function CapitalizeAll(parts: seq<string>): (r: seq<string>)
    ensures |r| == |parts|
  {
    if parts == [] then [] else [Capitalize(parts[0])] + CapitalizeAll(parts[1..])
  }

  /** `'-'.join([v.capitalize() for v in s.split('-')])`. */
  function CapitalizeParts(s: string): string {
    Join(CapitalizeAll(SplitOn(s, '-')), "-")
  }

  /** Title case over dashes: a character after a dash, or first, is upper-cased; every other is lower-cased. */
  function TitleDash(s: string): (r: string)
    ensures |r| == |s|
    ensures forall i :: 0 <= i < |s| ==>
      r[i] == if i == 0 || s[i - 1] == '-' then UpperChar(s[i]) else LowerChar(s[i])
  {
    seq(|s|, i requires 0 <= i < |s| => if i == 0 || s[i - 1] == '-' then UpperChar(s[i]) else LowerChar(s[i]))
  }

  /** Splitting on dashes, capitalizing each part and joining again is title case over dashes. */
  lemma {:induction false} CapitalizePartsIsTitle(s: string)
    ensures CapitalizeParts(s) == TitleDash(s)
    decreases |s|
  {
    if '-' in s {
      var i := IndexOf(s, '-');
      var rest := s[i + 1..];
      CapitalizePartsIsTitle(rest);
      assert SplitOn(s, '-') == [s[..i]] + SplitOn(rest, '-');
      assert CapitalizeAll(SplitOn(s, '-')) == [Capitalize(s[..i])] + CapitalizeAll(SplitOn(rest, '-'));
      assert CapitalizeParts(s) == Capitalize(s[..i]) + "-" + TitleDash(rest);
      TitleDashAtDash(s, i);
    } else {
      assert SplitOn(s, '-') == [s];
      forall k | 0 <= k < |s|
        ensures s[k] != '-'
      {
        assert s[k] in s;
      }
    }
  }

  /** Title case over dashes splits at the first dash into a capitalized word and the title-cased rest. */
  lemma TitleDashAtDash(s: string, i: nat)
    requires i < |s| && s[i] == '-' && '-' !in s[..i]
    ensures TitleDash(s) == Capitalize(s[..i]) + "-" + TitleDash(s[i + 1..])
  {
    var r := Capitalize(s[..i]) + "-" + TitleDash(s[i + 1..]);
    var rest := s[i + 1..];
    forall k | 0 <= k < |s|
      ensures r[k] == TitleDash(s)[k]
    {
      if k < i {
        assert r[k] == Capitalize(s[..i])[k];
        if k > 0 {
          assert s[k - 1] == s[..i][k - 1] && s[..i][k - 1] in s[..i];
          assert Lower(s[..i][1..])[k - 1] == LowerChar(s[k]);
        }
      } else if k > i {
        assert r[k] == TitleDash(rest)[k - i - 1];
        if k > i + 1 {
          assert rest[k - i - 2] == s[k - 1];
        }
      }
    }
  }

  /** `mint_signet`; `None` where `format_dob` rejects the date of birth and the script exits. */
  function MintSignet(name: string, dob: string, epoch: string, vocation: string, origin: string): (r: Option<string>)
    ensures r.Some? <==> FormatDob(dob).Some?
  {
    match FormatDob(dob)
    case None => None
    case Some(date) =>
      var voc := CapitalizeParts(ReplaceChar(Sanitize(vocation), ',', '-'));
      Some(Sanitize(name) + "-" + date + "-" + Sanitize(epoch) + "-" + voc + "-" + Upper(Sanitize(origin)))
  }

  /**
   * The signet's parts: the sanitized name, the date as `MM-DD-YYYY`, the sanitized epoch, the
   * sanitized vocations in title case over dashes (the comma replacement never finds a comma),
   * and the sanitized origin in upper case.
   */
  lemma SignetParts(name: string, dob: string, epoch: string, vocation: string, origin: string)
    requires FormatDob(dob).Some?
    ensures MintSignet(name, dob, epoch, vocation, origin) == Some(
      Sanitize(name) + "-" + FormatDob(dob).value + "-" + Sanitize(epoch) + "-"
      + TitleDash(Sanitize(vocation)) + "-" + Upper(Sanitize(origin)))
  {
    var v := Sanitize(vocation);
    CommaFree(v);
    CapitalizePartsIsTitle(v);
  }

  /** A sanitized text has no comma left for `replace(',', '-')` to find. */
  lemma CommaFree(v: string)
    requires SignetText(v)
    ensures ReplaceChar(v, ',', '-') == v
  {
  }

  /** `s` is made of ASCII letters, digits and dashes only. */
  predicate SignetText(s: string) {
    forall i :: 0 <= i < |s| ==> SignetChar(s[i])
  }

  lemma SignetTextJoin(a: string, b: string)
    requires SignetText(a) && SignetText(b)
    ensures SignetText(a + "-" + b)
  {
    var r := a + "-" + b;
    forall i | 0 <= i < |r|
      ensures SignetChar(r[i])
    {
      if i < |a| {
        assert r[i] == a[i];
      } else if i > |a| {
        assert r[i] == b[i - |a| - 1];
      }
    }
  }

  lemma CaseKeepsSignetChar(c: char)
    requires SignetChar(c)
    ensures SignetChar(UpperChar(c)) && SignetChar(LowerChar(c))
  {
  }

  lemma CaseKeepsSignetText(s: string)
    requires SignetText(s)
    ensures SignetText(TitleDash(s)) && SignetText(Upper(s))
  {
    forall i | 0 <= i < |s|
      ensures SignetChar(TitleDash(s)[i]) && SignetChar(Upper(s)[i])
    {
      CaseKeepsSignetChar(s[i]);
    }
  }

  lemma DobText(dob: string)
    requires FormatDob(dob).Some?
    ensures SignetText(FormatDob(dob).value)
  {
    var d := ParseFirst(dob, DobFormats).value;
    var mo, da, yr := Pad2(d.month), Pad2(d.day), Pad4(d.year);
    SignetTextJoin(mo, da);
    SignetTextJoin(mo + "-" + da, yr);
  }

  /** A signet is made of ASCII letters, digits and dashes only. */
  lemma SignetCharset(name: string, dob: string, epoch: string, vocation: string, origin: string)
    requires FormatDob(dob).Some?
    ensures SignetText(MintSignet(name, dob, epoch, vocation, origin).value)
  {
    SignetParts(name, dob, epoch, vocation, origin);
    DobText(dob);
    var date := FormatDob(dob).value;
    var voc := TitleDash(Sanitize(vocation));
    var org := Upper(Sanitize(origin));
    CaseKeepsSignetText(Sanitize(vocation));
    CaseKeepsSignetText(Sanitize(origin));
    SignetTextJoin(Sanitize(name), date);
    SignetTextJoin(Sanitize(name) + "-" + date, Sanitize(epoch));
    SignetTextJoin(Sanitize(name) + "-" + date + "-" + Sanitize(epoch), voc);
    SignetTextJoin(Sanitize(name) + "-" + date + "-" + Sanitize(epoch) + "-" + voc, org);
  }

  // ---------------------------------------------------------------------------------------
  // mint_mid

  /** The namespace the M-IDs are derived in (the DNS namespace of RFC 4122). */
  const MdecNamespace: string := "6ba7b810-9dad-11d1-80b4-00c04fd430c8"

  /** `str(uuid.uuid5(namespace, name))`, left opaque: only the fact that it is a function is used. */
  type Uuid5 = (string, string) -> string

  /**
   * Minting from the creator's details: the M-ID and the signet it names, or `None` where the
   * date of birth is rejected.
   */
  function Mint(uuid5: Uuid5, name: string, dob: string, epoch: string, vocation: string, origin: string)
    : (r: Option<(string, string)>)
    ensures r.Some? <==> FormatDob(dob).Some?
    ensures r.Some? ==> r.value.1 == MintSignet(name, dob, epoch, vocation, origin).value
    ensures r.Some? ==> r.value.0 == uuid5(MdecNamespace, r.value.1)
  {
    match MintSignet(name, dob, epoch, vocation, origin)
    case None => None
    case Some(signet) => Some((uuid5(MdecNamespace, signet), signet))
  }

  /**
   * Details that differ only in what sanitizing drops or re-cases mint the same M-ID: here, a
   * date given as `YYYY-MM-DD` or as `MM-DD-YYYY`, and vocations separated by commas or spaces.
   */
  lemma SameSignetSameMid(uuid5: Uuid5, name: string, dob: string, epoch: string, vocation: string, origin: string)
    requires Parse(dob, YmdDash).Some?
    ensures Mint(uuid5, name, dob, epoch, vocation, origin)
      == Mint(uuid5, name, FormatDob(dob).value, epoch, ReplaceChar(vocation, ',', ' '), origin)
  {
    assert Parse(dob, DobFormats[0]).Some?;
    FormatDobFixed(dob);
    SanitizeIgnoresCommas(vocation);
    assert MintSignet(name, dob, epoch, vocation, origin)
      == MintSignet(name, FormatDob(dob).value, epoch, ReplaceChar(vocation, ',', ' '), origin);
  }

  /** Sanitizing reads a comma as a space. */
  lemma SanitizeIgnoresCommas(v: string)
    ensures Sanitize(ReplaceChar(v, ',', ' ')) == Sanitize(v)
  {
    assert ReplaceChar(ReplaceChar(v, ',', ' '), ',', ' ') == ReplaceChar(v, ',', ' ');
  }

  // ---------------------------------------------------------------------------------------
  // Binding to the ledger

  /** The record `main` binds to a new M-ID: the signet, the time, and the details as typed. */
  function Payload(signet: string, now: string, name: string, dob: string, epoch: string, vocation: string, origin: string)
    : Value
  {
    Obj([("signet", Str(signet)), ("timestamp", Str(now)),
         ("components", Obj([("name", Str(name)), ("dob", Str(dob)), ("epoch", Str(epoch)),
                             ("vocation", Str(vocation)), ("origin", Str(origin))]))])
  }

  datatype MintOutcome =
    | DobRejected                                    // `format_dob` exits with status 1
    | LedgerError                                    // the ledger's entries cannot be read; status 1
    | AlreadyBound(mid: string, signet: string, entry: Value)
    | Bound(mid: string, signet: string, meta: map<string, Value>, entries: map<string, Value>)

  /**
   * `main` after reading the details: mint, open the ledger, and bind the M-ID unless it is
   * bound already. `Bound` carries the ledger the script writes back; `now` is the clock.
   */
  method MintAndBind(stored: Stored, uuid5: Uuid5, now: string,
                     name: string, dob: string, epoch: string, vocation: string, origin: string)
    returns (outcome: MintOutcome)
    ensures outcome.DobRejected? <==> FormatDob(dob).None?
    ensures FormatDob(dob).Some? && MinterOpen(stored).None? ==> outcome.LedgerError?
    ensures FormatDob(dob).Some? && MinterOpen(stored).Some? ==>
      var (mid, signet) := Mint(uuid5, name, dob, epoch, vocation, origin).value;
      var (meta, entries) := MinterOpen(stored).value;
      if mid in entries then outcome == AlreadyBound(mid, signet, entries[mid])
      else outcome == Bound(mid, signet, meta, Bind(entries, mid, Payload(signet, now, name, dob, epoch, vocation, origin)))
    ensures outcome.Bound? && stored.Loaded? ==>
      FileEntries(stored.doc).Some? &&
      var kept := FileEntries(stored.doc).value;
      forall k :: k in kept ==> k in outcome.entries && outcome.entries[k] == kept[k]
  {
    var minted := Mint(uuid5, name, dob, epoch, vocation, origin);
    if minted.None? {
      return DobRejected;
    }
    var (mid, signet) := minted.value;
    var start := MinterOpen(stored);
    if start.None? {
      return LedgerError;
    }
    var ledger := new CentralLedger.Open(start.value.0, start.value.1);
    var existing := ledger.Register(mid, Payload(signet, now, name, dob, epoch, vocation, origin));
    if existing.Some? {
      return AlreadyBound(mid, signet, existing.value);
    }
    return Bound(mid, signet, ledger.meta, ledger.entries);
  }
}

/**
 * The YAML-like frontmatter reader shared by the auto-validator and the quality scorer: a
 * Markdown file that starts with `---` and has a second `---` carries `key: value` lines
 * between the two markers.
 */
module Frontmatter {
  import opened Wrappers
  import opened PyStrings
  import opened PyValues

  /**
   * `parts[1]` of `content.split('---', 2)`, present exactly when the content starts with
   * `---` and the split yields at least three parts (a second `---` follows the first).
   */
  function Block(content: string): (r: Option<string>)
    ensures r.Some? <==> StartsWith(content, "---") && exists j :: 3 <= j && OccursAt(content, "---", j)
    ensures r.Some? ==> StartsWith(content, "---" + r.value + "---")
    ensures r.Some? ==> forall k :: 3 <= k < 3 + |r.value| ==> !OccursAt(content, "---", k)
  {
    if !StartsWith(content, "---") then None
    else
      match FindFrom(content, "---", 3)
      case None => None
      case Some(j) =>
        assert content[..j + 3] == "---" + content[3..j] + "---";
        Some(content[3..j])
  }

  /** A line holding `:` split at its first colon into a stripped key and a stripped value. */
  function LineEntry(line: string): (r: Option<(string, string)>)
    ensures r.Some? <==> ':' in line
  {
    if ':' in line then
      var i := IndexOf(line, ':');
      Some((Strip(line[..i]), Strip(line[i + 1..])))
    else None
  }

  /** An entry is the stripped text before the line's first colon and the stripped text after it. */
  lemma LineEntrySplit(line: string)
    requires ':' in line
    ensures exists i :: (0 <= i < |line| && line[i] == ':' && ':' !in line[..i] &&
      LineEntry(line) == Some((Strip(line[..i]), Strip(line[i + 1..]))))
  {
    var i := IndexOf(line, ':');
    assert line[i] == ':' && ':' !in line[..i];
  }

  /**
   * Writing a key without a colon, a colon and any value, and reading the line back, gives the
   * stripped key and the stripped value; a colon inside the value stays in the value.
   */
  lemma LineEntryRoundTrip(k: string, v: string)
    requires ':' !in k
    ensures LineEntry(k + ":" + v) == Some((Strip(k), Strip(v)))
  {
    var line := k + ":" + v;
    assert line[|k|] == ':';
    var i := IndexOf(line, ':');
    assert i == |k|;
    assert line[..i] == k && line[i + 1..] == v;
  }

  /** The line is a `key: value` line whose stripped key is `k`. */
  predicate SetsKey(line: string, k: string) {
    LineEntry(line).Some? && LineEntry(line).value.0 == k
  }

  /** `metadata[key] = value` for one line, or nothing for a line without a colon. */
  function ApplyLine(m: Metadata, line: string): Metadata {
    match LineEntry(line)
    case None => m
    case Some(kv) => m[kv.0 := Str(kv.1)]
  }

  /** The metadata after each entry line in turn. */
  function ApplyLines(m: Metadata, lines: seq<string>): Metadata
    decreases |lines|
  {
    if lines == [] then m
    else ApplyLine(ApplyLines(m, lines[..|lines| - 1]), lines[|lines| - 1])
  }

  /** What one line does to the key `k`. */
  lemma ApplyLineKey(m: Metadata, line: string, k: string)
    ensures k in ApplyLine(m, line) <==> k in m || SetsKey(line, k)
    ensures SetsKey(line, k) ==> ApplyLine(m, line)[k] == Str(LineEntry(line).value.1)
    ensures !SetsKey(line, k) && k in m ==> ApplyLine(m, line)[k] == m[k]
  {
  }

  /** One more line is one more `ApplyLine`. */
  lemma ApplyLinesSnoc(m: Metadata, lines: seq<string>, i: nat)
    requires i < |lines|
    ensures ApplyLines(m, lines[..i + 1]) == ApplyLine(ApplyLines(m, lines[..i]), lines[i])
  {
    assert lines[..i + 1][..i] == lines[..i];
  }

  /** The last line is applied last. */
  lemma ApplyLinesLast(m: Metadata, lines: seq<string>)
    requires lines != []
    ensures ApplyLines(m, lines) == ApplyLine(ApplyLines(m, lines[..|lines| - 1]), lines[|lines| - 1])
  {
  }

  /** The metadata after the frontmatter of `content`, if any, is read into `m`. */
  function WithFrontmatter(m: Metadata, content: string): Metadata {
    match Block(content)
    case None => m
    case Some(b) => ApplyLines(m, SplitOn(Strip(b), '\n'))
  }

  /** The frontmatter loop of `_extract_metadata`: each line with a colon sets one key. */
  method ReadFrontmatter(m: Metadata, content: string) returns (r: Metadata)
    ensures r == WithFrontmatter(m, content)
  {
    r := m;
    var block := Block(content);
    if block.Some? {
      var lines := SplitOn(Strip(block.value), '\n');
      var i := 0;
      while i < |lines|
        invariant 0 <= i <= |lines|
        invariant r == ApplyLines(m, lines[..i])
      {
        ApplyLinesSnoc(m, lines, i);
        var entry := LineEntry(lines[i]);
        if entry.Some? {
          r := r[entry.value.0 := Str(entry.value.1)];
        }
        i := i + 1;
      }
      assert lines[..|lines|] == lines;
    }
  }

  /** Frontmatter only adds or overwrites keys: every key of `m` survives. */
  lemma KeepsKeys(m: Metadata, content: string)
    ensures m.Keys <= WithFrontmatter(m, content).Keys
  {
    match Block(content)
    case None =>
    case Some(b) =>
      var lines := SplitOn(Strip(b), '\n');
      forall k | k in m ensures k in ApplyLines(m, lines) {
        LinesSetKeys(m, lines, k);
      }
  }

  /** Reading lines sets exactly the keys that some line names, and keeps the others. */
  lemma {:induction false} LinesSetKeys(m: Metadata, lines: seq<string>, k: string)
    ensures k in ApplyLines(m, lines) <==> k in m || exists i :: 0 <= i < |lines| && SetsKey(lines[i], k)
    decreases |lines|
  {
    if lines != [] {
      var n := |lines| - 1;
      var p := lines[..n];
      LinesSetKeys(m, p, k);
      ApplyLinesLast(m, lines);
      ApplyLineKey(ApplyLines(m, p), lines[n], k);
      if !SetsKey(lines[n], k) {
        if i :| 0 <= i < |lines| && SetsKey(lines[i], k) {
          assert i < n && p[i] == lines[i];
        }
        if i :| 0 <= i < |p| && SetsKey(p[i], k) {
          assert lines[i] == p[i];
        }
      }
    }
  }

  /** A key keeps the value of the LAST line that names it: a later duplicate key overwrites an earlier one. */
  lemma {:induction false} LastLineWins(m: Metadata, lines: seq<string>, k: string, i: nat)
    requires i < |lines| && SetsKey(lines[i], k)
    requires forall j :: i < j < |lines| ==> !SetsKey(lines[j], k)
    ensures k in ApplyLines(m, lines) && ApplyLines(m, lines)[k] == Str(LineEntry(lines[i]).value.1)
    decreases |lines|
  {
    var n := |lines| - 1;
    var p := lines[..n];
    ApplyLinesLast(m, lines);
    if i < n {
      assert p[i] == lines[i];
      assert forall j :: i < j < |p| ==> p[j] == lines[j];
      LastLineWins(m, p, k, i);
      assert !SetsKey(lines[n], k);
    }
    ApplyLineKey(ApplyLines(m, p), lines[n], k);
  }

  /** A key that no line names keeps the value it had. */
  lemma {:induction false} UnnamedKeyKept(m: Metadata, lines: seq<string>, k: string)
    requires k in m
    requires forall i :: 0 <= i < |lines| ==> !SetsKey(lines[i], k)
    ensures k in ApplyLines(m, lines) && ApplyLines(m, lines)[k] == m[k]
    decreases |lines|
  {
    if lines != [] {
      var n := |lines| - 1;
      UnnamedKeyKept(m, lines[..n], k);
      assert !SetsKey(lines[n], k);
    }
  }

  /** A string with no white space at either end. */
  predicate StrippedText(v: Value) {
    v.Str? && (v.s == [] || (!IsSpace(v.s[0]) && !IsSpace(v.s[|v.s| - 1])))
  }

  /** Every value a frontmatter line sets is a stripped string, whether or not the key was there before. */
  lemma {:induction false} FrontmatterValuesAreStripped(m: Metadata, lines: seq<string>, k: string)
    requires exists i :: 0 <= i < |lines| && SetsKey(lines[i], k)
    ensures k in ApplyLines(m, lines) && StrippedText(ApplyLines(m, lines)[k])
    decreases |lines|
  {
    var n := |lines| - 1;
    var p := lines[..n];
    ApplyLinesLast(m, lines);
    if SetsKey(lines[n], k) {
      LineValueStripped(ApplyLines(m, p), lines[n], k);
    } else {
      var i :| 0 <= i < |lines| && SetsKey(lines[i], k);
      assert i < n && p[i] == lines[i];
      FrontmatterValuesAreStripped(m, p, k);
      ApplyLineKey(ApplyLines(m, p), lines[n], k);
      assert ApplyLines(m, lines)[k] == ApplyLines(m, p)[k];
    }
  }

  /** A line that names `k` sets it to a stripped string. */
  lemma LineValueStripped(m: Metadata, line: string, k: string)
    requires SetsKey(line, k)
    ensures k in ApplyLine(m, line) && StrippedText(ApplyLine(m, line)[k])
  {
    ApplyLineKey(m, line, k);
  }

}

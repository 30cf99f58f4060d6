/**
 * The MDEC auto-validator: it reads the metadata of JSON and Markdown files, reports
 * violations of the MDEC metadata standard, and in fix mode rewrites the metadata and keeps
 * counters of what it checked and fixed.
 */
module AutoValidator {
  import opened Wrappers
  import opened PyStrings
  import opened PyValues
  import opened FixedDates
  import opened DatePatterns
  import opened PyPaths
  import Frontmatter

  const ValidatedSuffixes: seq<string> := [".json", ".md", ".yaml", ".yml"]
  const RequiredFields: seq<string> := ["id", "created", "modified", "category"]
  const DateFields: seq<string> := ["created", "modified"]
  const GenericCategories: seq<string> := ["unknown", "misc", "other", "na", "n/a", ""]
  /** The formats `_normalize_date` tries, in order. */
  const NormalizeFormats: seq<Format> := [YmdDash, YmdSlash, MdySlash, DmyDash]

  // ---------------------------------------------------------------------------------------
  // Which files are validated

  /** `_should_validate`: the lower-cased suffix is one of the validated ones. */
  predicate ShouldValidate(name: string) {
    Lower(Suffix(name)) in ValidatedSuffixes
  }

  /**
   * A file name is validated exactly when it is a non-empty stem followed by one of the four
   * extensions in any letter case: hidden files such as `.md` and names ending in a dot are not.
   */
  lemma ShouldValidateIff(name: string)
    ensures ShouldValidate(name) <==>
      exists k :: 0 < k < |name| && Lower(name[k..]) in ValidatedSuffixes
  {
    if ShouldValidate(name) {
      var i := LastDot(name).value;
      assert Lower(name[i..]) in ValidatedSuffixes;
    }
    if k :| 0 < k < |name| && Lower(name[k..]) in ValidatedSuffixes {
      var ext := name[k..];
      var le := Lower(ext);
      SuffixShape(le);
      assert LowerChar(ext[0]) == '.';
      assert ext[0] == '.' && |ext| >= 3;
      assert forall j :: 1 <= j < |ext| ==> ext[j] != '.' by {
        forall j | 1 <= j < |ext| ensures ext[j] != '.' {
          assert le[j] == LowerChar(ext[j]) != '.';
        }
      }
      var i := LastDot(name).value;
      assert name[k] == '.';
      assert i == k;
    }
  }

  /** Each validated suffix is a dot followed by at least two characters that are not dots. */
  lemma SuffixShape(e: string)
    requires e in ValidatedSuffixes
    ensures |e| >= 3 && e[0] == '.' && forall j :: 1 <= j < |e| ==> e[j] != '.'
  {
  }

  // ---------------------------------------------------------------------------------------
  // Reading metadata

  datatype SourceFile = SourceFile(path: string, name: string, body: Body)

  function BaseMetadata(f: SourceFile): Metadata {
    map["file_path" := Str(f.path), "file_name" := Str(f.name), "file_extension" := Str(Lower(Suffix(f.name)))]
  }

  /**
   * `_extract_metadata`: `None` where it raises (a `.json` or `.md` file that cannot be read,
   * or JSON that does not parse). Other suffixes are not opened at all.
   */
  function Extracted(f: SourceFile): Option<Metadata> {
    var ext := Lower(Suffix(f.name));
    var base := BaseMetadata(f);
    if ext == ".json" then
      match f.body
      case Readable(_, Some(doc)) => Some(if doc.Obj? then base + ObjToMap(doc.fields) else base)
      case _ => None
    else if ext == ".md" then
      match f.body
      case Readable(text, _) => Some(Frontmatter.WithFrontmatter(base, text))
      case Unreadable => None
    else Some(base)
  }

  method ExtractMetadata(f: SourceFile) returns (r: Option<Metadata>)
    ensures r == Extracted(f)
    ensures r.Some? ==> BaseMetadata(f).Keys <= r.value.Keys
  {
    var ext := Lower(Suffix(f.name));
    var base := BaseMetadata(f);
    if ext == ".json" {
      if f.body.Readable? && f.body.json.Some? {
        var doc := f.body.json.value;
        r := Some(if doc.Obj? then base + ObjToMap(doc.fields) else base);
      } else {
        r := None;
      }
    } else if ext == ".md" {
      if f.body.Readable? {
        var m := Frontmatter.ReadFrontmatter(base, f.body.text);
        Frontmatter.KeepsKeys(base, f.body.text);
        r := Some(m);
      } else {
        r := None;
      }
    } else {
      r := Some(base);
    }
  }

  // ---------------------------------------------------------------------------------------
  // Checking the standard

  datatype Kind = MissingField | InvalidDateFormat | InvalidTagsFormat | GenericCategory | WeakId

  datatype FixType = AddField | FixDateFormat | FixTagsFormat | GenerateId

  /**
   * One record of the violation list. `fix` is the record's `fix_type`, absent where the record
   * says `'fixable': False`; `Failure` is the `ERROR` record of a file that could not be read.
   */
  datatype Violation =
    | Violation(file: string, kind: Kind, field: string, value: Option<Value>, fix: Option<FixType>)
    | Failure(file: string)

  predicate Fixable(v: Violation) { v.Violation? && v.fix.Some? }

  /** `_is_iso8601`. */
  predicate IsIsoDate(v: Value) { IsIso8601(Text(v)) }

  predicate IsGenericCategory(v: Value) { Lower(Text(v)) in GenericCategories }

  predicate IsWeakId(v: Value) { |Text(v)| < 5 }

  /** The MISSING_FIELD records for `fields`, in their order. */
  function MissingFields(file: string, m: Metadata, fields: seq<string>): seq<Violation>
    decreases |fields|
  {
    if fields == [] then []
    else
      var f := fields[|fields| - 1];
      MissingFields(file, m, fields[..|fields| - 1])
      + (if !Present(m, f) then [Violation(file, MissingField, f, None, Some(AddField))] else [])
  }

  /** The INVALID_DATE_FORMAT records for `fields`, in their order. */
  function DateViolations(file: string, m: Metadata, fields: seq<string>): seq<Violation>
    decreases |fields|
  {
    if fields == [] then []
    else
      var f := fields[|fields| - 1];
      DateViolations(file, m, fields[..|fields| - 1])
      + (if f in m && !IsIsoDate(m[f])
         then [Violation(file, InvalidDateFormat, f, Some(Str(Text(m[f]))), Some(FixDateFormat))] else [])
  }

  function TagsViolations(file: string, m: Metadata): seq<Violation> {
    if "tags" in m && !m["tags"].List?
    then [Violation(file, InvalidTagsFormat, "tags", Some(m["tags"]), Some(FixTagsFormat))] else []
  }

  function CategoryViolations(file: string, m: Metadata): seq<Violation> {
    if "category" in m && IsGenericCategory(m["category"])
    then [Violation(file, GenericCategory, "category", Some(m["category"]), None)] else []
  }

  function IdViolations(file: string, m: Metadata): seq<Violation> {
    if "id" in m && IsWeakId(m["id"])
    then [Violation(file, WeakId, "id", Some(Str(Text(m["id"]))), Some(GenerateId))] else []
  }

  /** Everything `_check_standards` reports, in its order. */
  function Violations(file: string, m: Metadata): seq<Violation> {
    MissingFields(file, m, RequiredFields) + DateViolations(file, m, DateFields)
    + TagsViolations(file, m) + CategoryViolations(file, m) + IdViolations(file, m)
  }

  method CheckRequired(file: string, m: Metadata) returns (vs: seq<Violation>)
    ensures vs == MissingFields(file, m, RequiredFields)
  {
    vs := [];
    var i := 0;
    while i < |RequiredFields|
      invariant 0 <= i <= |RequiredFields|
      invariant vs == MissingFields(file, m, RequiredFields[..i])
    {
      var f := RequiredFields[i];
      if f !in m || !Truthy(m[f]) {
        vs := vs + [Violation(file, MissingField, f, None, Some(AddField))];
      }
      i := i + 1;
      assert RequiredFields[..i][..i - 1] == RequiredFields[..i - 1];
    }
    assert RequiredFields[..i] == RequiredFields;
  }

  method CheckDates(file: string, m: Metadata) returns (vs: seq<Violation>)
    ensures vs == DateViolations(file, m, DateFields)
  {
    vs := [];
    var j := 0;
    while j < |DateFields|
      invariant 0 <= j <= |DateFields|
      invariant vs == DateViolations(file, m, DateFields[..j])
    {
      var f := DateFields[j];
      if f in m {
        var value := Text(m[f]);
        if !IsIso8601(value) {
          vs := vs + [Violation(file, InvalidDateFormat, f, Some(Str(value)), Some(FixDateFormat))];
        }
      }
      j := j + 1;
      assert DateFields[..j][..j - 1] == DateFields[..j - 1];
    }
    assert DateFields[..j] == DateFields;
  }

  /** `_check_standards`. */
  method CheckStandards(file: string, m: Metadata) returns (vs: seq<Violation>)
    ensures vs == Violations(file, m)
  {
    var missing := CheckRequired(file, m);
    var dates := CheckDates(file, m);
    var tags: seq<Violation> := [];
    if "tags" in m && !m["tags"].List? {
      tags := [Violation(file, InvalidTagsFormat, "tags", Some(m["tags"]), Some(FixTagsFormat))];
    }
    var category: seq<Violation> := [];
    if "category" in m && Lower(Text(m["category"])) in GenericCategories {
      category := [Violation(file, GenericCategory, "category", Some(m["category"]), None)];
    }
    var id: seq<Violation> := [];
    if "id" in m && |Text(m["id"])| < 5 {
      id := [Violation(file, WeakId, "id", Some(Str(Text(m["id"]))), Some(GenerateId))];
    }
    vs := missing + dates + tags + category + id;
  }

  // ---------------------------------------------------------------------------------------
  // What the checks report, characterised

  /** A MISSING_FIELD record is reported exactly for each listed field that is absent or falsy. */
  lemma {:induction false} MissingFieldsExact(file: string, m: Metadata, fields: seq<string>, v: Violation)
    ensures v in MissingFields(file, m, fields) <==>
      v.Violation? && v == Violation(file, MissingField, v.field, None, Some(AddField)) && v.field in fields && !Present(m, v.field)
    decreases |fields|
  {
    if fields != [] {
      MissingFieldsExact(file, m, fields[..|fields| - 1], v);
      assert fields == fields[..|fields| - 1] + [fields[|fields| - 1]];
    }
  }

  /** An INVALID_DATE_FORMAT record is reported exactly for each listed field that is there and whose text is not ISO 8601. */
  lemma {:induction false} DateViolationsExact(file: string, m: Metadata, fields: seq<string>, v: Violation)
    ensures v in DateViolations(file, m, fields) <==>
      v.Violation? && v.field in fields && v.field in m && !IsIsoDate(m[v.field])
      && v == Violation(file, InvalidDateFormat, v.field, Some(Str(Text(m[v.field]))), Some(FixDateFormat))
    decreases |fields|
  {
    if fields != [] {
      DateViolationsExact(file, m, fields[..|fields| - 1], v);
      assert fields == fields[..|fields| - 1] + [fields[|fields| - 1]];
    }
  }

  /** The required-field and date reports come first and are all fixable. */
  lemma FrontReports(file: string, m: Metadata, v: Violation)
    requires v in MissingFields(file, m, RequiredFields) + DateViolations(file, m, DateFields)
    ensures v.Violation? && v.file == file && v.fix.Some? && (v.kind == MissingField || v.kind == InvalidDateFormat)
  {
    MissingFieldsExact(file, m, RequiredFields, v);
    DateViolationsExact(file, m, DateFields, v);
  }

  /** Every report about a readable file names that file, and all but the generic category are fixable. */
  lemma ReportsFixable(file: string, m: Metadata)
    ensures forall v :: v in Violations(file, m) ==> v.Violation? && v.file == file && (Fixable(v) <==> v.kind != GenericCategory)
  {
    forall v | v in Violations(file, m)
      ensures v.Violation? && v.file == file && (Fixable(v) <==> v.kind != GenericCategory)
    {
      var front := MissingFields(file, m, RequiredFields) + DateViolations(file, m, DateFields);
      if v in front {
        FrontReports(file, m, v);
      }
    }
  }

  /** An INVALID_TAGS_FORMAT report appears exactly when `tags` is there and is not a list. */
  lemma TagsReported(file: string, m: Metadata)
    ensures (exists v :: v in Violations(file, m) && v.Violation? && v.kind == InvalidTagsFormat)
      <==> "tags" in m && !m["tags"].List?
  {
    var front := MissingFields(file, m, RequiredFields) + DateViolations(file, m, DateFields);
    if v :| v in Violations(file, m) && v.Violation? && v.kind == InvalidTagsFormat {
      if v in front {
        FrontReports(file, m, v);
      }
    }
    if "tags" in m && !m["tags"].List? {
      assert TagsViolations(file, m)[0] in Violations(file, m);
    }
  }

  /** A GENERIC_CATEGORY report appears exactly when the category reads as a generic one. */
  lemma GenericReported(file: string, m: Metadata)
    ensures (exists v :: v in Violations(file, m) && v.Violation? && v.kind == GenericCategory)
      <==> "category" in m && IsGenericCategory(m["category"])
  {
    var front := MissingFields(file, m, RequiredFields) + DateViolations(file, m, DateFields);
    if v :| v in Violations(file, m) && v.Violation? && v.kind == GenericCategory {
      if v in front {
        FrontReports(file, m, v);
      }
    }
    if "category" in m && IsGenericCategory(m["category"]) {
      assert CategoryViolations(file, m)[0] in Violations(file, m);
    }
  }

  /** A WEAK_ID report appears exactly when the id's text is shorter than five characters. */
  lemma WeakIdReported(file: string, m: Metadata)
    ensures (exists v :: v in Violations(file, m) && v.Violation? && v.kind == WeakId)
      <==> "id" in m && IsWeakId(m["id"])
  {
    var front := MissingFields(file, m, RequiredFields) + DateViolations(file, m, DateFields);
    if v :| v in Violations(file, m) && v.Violation? && v.kind == WeakId {
      if v in front {
        FrontReports(file, m, v);
      }
    }
    if "id" in m && IsWeakId(m["id"]) {
      assert IdViolations(file, m)[0] in Violations(file, m);
    }
  }

  /** The records that are not processing failures. */
  function CountChecked(vs: seq<Violation>): nat
    decreases |vs|
  {
    if vs == [] then 0 else CountChecked(vs[..|vs| - 1]) + (if vs[|vs| - 1].Violation? then 1 else 0)
  }

  function CountFixable(vs: seq<Violation>): nat
    decreases |vs|
  {
    if vs == [] then 0 else CountFixable(vs[..|vs| - 1]) + (if Fixable(vs[|vs| - 1]) then 1 else 0)
  }

  lemma {:induction false} CountCheckedAppend(a: seq<Violation>, b: seq<Violation>)
    ensures CountChecked(a + b) == CountChecked(a) + CountChecked(b)
    ensures CountFixable(a + b) == CountFixable(a) + CountFixable(b)
    decreases |b|
  {
    if b == [] {
      assert a + b == a;
    } else {
      CountCheckedAppend(a, b[..|b| - 1]);
      assert (a + b)[..|a + b| - 1] == a + b[..|b| - 1];
    }
  }

  lemma {:induction false} CountBounds(vs: seq<Violation>)
    ensures CountFixable(vs) <= CountChecked(vs) <= |vs|
    ensures (forall v :: v in vs ==> v.Violation?) ==> CountChecked(vs) == |vs|
    decreases |vs|
  {
    if vs != [] {
      CountBounds(vs[..|vs| - 1]);
      assert forall v :: v in vs[..|vs| - 1] ==> v in vs;
    }
  }

  /** Every report about a file that could be read is a counted violation, and all but the generic category are fixable. */
  lemma FixableCount(file: string, m: Metadata)
    ensures CountChecked(Violations(file, m)) == |Violations(file, m)|
    ensures CountFixable(Violations(file, m)) ==
      |Violations(file, m)| - (if "category" in m && IsGenericCategory(m["category"]) then 1 else 0)
  {
    ReportsFixable(file, m);
    CountBounds(Violations(file, m));
    var front := MissingFields(file, m, RequiredFields) + DateViolations(file, m, DateFields) + TagsViolations(file, m);
    FrontFixable(file, m);
    AllFixable(front);
    CountCheckedAppend(front, CategoryViolations(file, m));
    CountCheckedAppend(front + CategoryViolations(file, m), IdViolations(file, m));
  }

  /** The missing-field, date and tags reports all carry a fix. */
  lemma FrontFixable(file: string, m: Metadata)
    ensures forall v :: v in MissingFields(file, m, RequiredFields) + DateViolations(file, m, DateFields) + TagsViolations(file, m) ==>
      Fixable(v)
  {
    forall v | v in MissingFields(file, m, RequiredFields) + DateViolations(file, m, DateFields) + TagsViolations(file, m)
      ensures Fixable(v)
    {
      if v !in TagsViolations(file, m) {
        FrontReports(file, m, v);
      }
    }
  }

  lemma {:induction false} AllFixable(vs: seq<Violation>)
    requires forall v :: v in vs ==> Fixable(v)
    ensures CountFixable(vs) == |vs|
    decreases |vs|
  {
    if vs != [] {
      assert forall v :: v in vs[..|vs| - 1] ==> v in vs;
      AllFixable(vs[..|vs| - 1]);
    }
  }

  // ---------------------------------------------------------------------------------------
  // Fixing

  /** What the validator reads from outside: `datetime.utcnow().isoformat()` and the `uuid4` it draws. */
  datatype Environment = Environment(clock: string, newId: string)

  function Stamp(env: Environment): string { env.clock + "Z" }

  /** `_infer_category`: the first keyword found in the lower-cased path decides. */
  function InferCategory(path: string): string {
    var p := Lower(path);
    if Contains(p, "doc") || Contains(p, "note") then "documentation"
    else if Contains(p, "code") || Contains(p, "src") then "source_code"
    else if Contains(p, "data") then "dataset"
    else if Contains(p, "test") then "test"
    else "general"
  }

  /** An inferred category is never one the check calls generic. */
  lemma InferredIsSpecific(path: string)
    ensures Present(map["category" := Str(InferCategory(path))], "category")
    ensures !IsGenericCategory(Str(InferCategory(path)))
  {
    var r := InferCategory(path);
    assert r == "documentation" || r == "source_code" || r == "dataset" || r == "test" || r == "general";
    LowerCaseWord(r);
  }

  /** Text without capitals is its own lower case. */
  lemma LowerCaseWord(r: string)
    requires forall i :: 0 <= i < |r| ==> !('A' <= r[i] <= 'Z')
    ensures Lower(r) == r
  {
  }

  /**
   * `_normalize_date`: the first of the four formats that reads the whole text gives that day at
   * midnight; text no format reads, and a value that is not a string, give the current time.
   */
  function NormalizeDate(v: Value, env: Environment): string {
    if v.Str? then
      match ParseFirst(v.s, NormalizeFormats)
      case Some(d) => IsoMidnight(d) + "Z"
      case None => Stamp(env)
    else Stamp(env)
  }

  /** Given a clock that reads as ISO 8601, a normalised date always passes the date check. */
  lemma NormalizedIsIso(v: Value, env: Environment)
    requires IsIso8601(env.clock)
    ensures IsIso8601(NormalizeDate(v, env))
  {
    TrailingTextAllowed(env.clock, "Z", DateTimePattern);
    if v.Str? {
      var d := ParseFirst(v.s, NormalizeFormats);
      if d.Some? {
        IsoMidnightMatches(d.value);
      }
    }
  }

  /** A plain `YYYY-MM-DD` date keeps its digits and gains a midnight time. */
  lemma NormalizeKeepsIsoDay(s: string, env: Environment)
    requires Parse(s, YmdDash).Some?
    ensures NormalizeDate(Str(s), env) == s + "T00:00:00Z"
  {
    var d := Parse(s, YmdDash).value;
    assert ParseFirst(s, NormalizeFormats) == Some(d);
    YmdMidnight(s);
  }

  /** `YYYY-MM-DD` read and written back by `isoformat` is the same text followed by a midnight time. */
  lemma YmdMidnight(s: string)
    requires Parse(s, YmdDash).Some?
    ensures IsoMidnight(Parse(s, YmdDash).value) == s + "T00:00:00"
  {
    Pad4Num4(s, 0);
    Pad2Num2(s, 5);
    Pad2Num2(s, 8);
    assert s == s[0..4] + "-" + s[5..7] + "-" + s[8..10];
  }

  /** `[t.strip() for t in s.split(',')]`. */
  function SplitTags(s: string): (r: Value)
    ensures r.List? && |r.items| == |SplitOn(s, ',')|
    ensures forall i :: 0 <= i < |r.items| ==> r.items[i] == Str(Strip(SplitOn(s, ',')[i]))
  {
    var parts := SplitOn(s, ',');
    List(seq(|parts|, i requires 0 <= i < |parts| => Str(Strip(parts[i]))))
  }

  /** The value `add_field` writes; other fields are left alone. */
  function Filler(field: string, path: string, env: Environment): Option<Value> {
    if field == "id" then Some(Str(env.newId))
    else if field == "created" || field == "modified" then Some(Str(Stamp(env)))
    else if field == "category" then Some(Str(InferCategory(path)))
    else None
  }

  /** The one key a fix may write. */
  function Touches(v: Violation): string {
    match v
    case Failure(_) => ""
    case Violation(_, _, field, _, fix) =>
      if fix == Some(FixTagsFormat) then "tags" else if fix == Some(GenerateId) then "id" else field
  }

  /** One step of `_apply_fixes`. */
  function ApplyFix(m: Metadata, v: Violation, path: string, env: Environment): (r: Metadata)
    ensures m.Keys <= r.Keys
    ensures forall k :: k != Touches(v) ==> (k in r <==> k in m) && (k in m ==> r[k] == m[k])
    ensures !Fixable(v) ==> r == m
  {
    if !Fixable(v) then m
    else match v.fix.value
      case AddField =>
        (match Filler(v.field, path, env) case Some(x) => m[v.field := x] case None => m)
      case FixDateFormat =>
        if v.field in m then m[v.field := Str(NormalizeDate(m[v.field], env))] else m
      case FixTagsFormat =>
        if "tags" in m && m["tags"].Str? then m["tags" := SplitTags(m["tags"].s)] else m
      case GenerateId => m["id" := Str(env.newId)]
  }

  /** The metadata once every fix in `vs` is applied, in order. */
  function FixedMetadata(m: Metadata, vs: seq<Violation>, path: string, env: Environment): Metadata
    decreases |vs|
  {
    if vs == [] then m else ApplyFix(FixedMetadata(m, vs[..|vs| - 1], path, env), vs[|vs| - 1], path, env)
  }

  /** The line `_apply_fixes` adds to `fixes_applied` for a fixable violation. */
  function FixNote(v: Violation, name: string): string {
    match v
    case Failure(_) => ""
    case Violation(_, _, field, _, fix) =>
      match fix
      case Some(AddField) => "Added " + field + " to " + name
      case Some(FixDateFormat) => "Fixed " + field + " format in " + name
      case Some(FixTagsFormat) => "Fixed tags format in " + name
      case Some(GenerateId) => "Generated new ID for " + name
      case None => ""
  }

  function FixNotes(vs: seq<Violation>, name: string): seq<string>
    decreases |vs|
  {
    if vs == [] then []
    else FixNotes(vs[..|vs| - 1], name) + (if Fixable(vs[|vs| - 1]) then [FixNote(vs[|vs| - 1], name)] else [])
  }

  /** One more violation is one more fix, one more note and one more count when it is fixable. */
  lemma FixPrefixStep(m: Metadata, vs: seq<Violation>, i: nat, path: string, name: string, env: Environment)
    requires i < |vs|
    ensures FixedMetadata(m, vs[..i + 1], path, env) == ApplyFix(FixedMetadata(m, vs[..i], path, env), vs[i], path, env)
    ensures FixNotes(vs[..i + 1], name) == FixNotes(vs[..i], name) + (if Fixable(vs[i]) then [FixNote(vs[i], name)] else [])
    ensures CountFixable(vs[..i + 1]) == CountFixable(vs[..i]) + (if Fixable(vs[i]) then 1 else 0)
  {
    assert vs[..i + 1][..i] == vs[..i];
  }

  /** One note per fix applied: the list and the counter move together. */
  lemma {:induction false} NotesMatchCount(vs: seq<Violation>, name: string)
    ensures |FixNotes(vs, name)| == CountFixable(vs)
    decreases |vs|
  {
    if vs != [] {
      NotesMatchCount(vs[..|vs| - 1], name);
    }
  }

  lemma {:induction false} FixedAppend(m: Metadata, a: seq<Violation>, b: seq<Violation>, path: string, env: Environment)
    ensures FixedMetadata(m, a + b, path, env) == FixedMetadata(FixedMetadata(m, a, path, env), b, path, env)
    decreases |b|
  {
    if b == [] {
      assert a + b == a;
    } else {
      FixedAppend(m, a, b[..|b| - 1], path, env);
      assert (a + b)[..|a + b| - 1] == a + b[..|b| - 1];
    }
  }

  lemma FixedOne(m: Metadata, v: Violation, path: string, env: Environment)
    ensures FixedMetadata(m, [v], path, env) == ApplyFix(m, v, path, env)
  {
    assert [v][..0] == [];
  }

  /** Fixes that never write `k` leave `k` as it was. */
  lemma {:induction false} FixedUntouched(m: Metadata, vs: seq<Violation>, path: string, env: Environment, k: string)
    requires forall v :: v in vs && Fixable(v) ==> Touches(v) != k
    ensures k in FixedMetadata(m, vs, path, env) <==> k in m
    ensures k in m ==> FixedMetadata(m, vs, path, env)[k] == m[k]
    decreases |vs|
  {
    if vs != [] {
      assert forall v :: v in vs[..|vs| - 1] ==> v in vs;
      FixedUntouched(m, vs[..|vs| - 1], path, env, k);
    }
  }

  /** After the MISSING_FIELD fixes every listed field with a filler holds the filler or, if it was present, its old value. */
  lemma {:induction false} MissingFixed(m: Metadata, fields: seq<string>, path: string, env: Environment, file: string)
    requires forall f :: f in fields ==> Filler(f, path, env).Some?
    ensures var r := FixedMetadata(m, MissingFields(file, m, fields), path, env);
      forall f :: f in fields ==> f in r && r[f] == if Present(m, f) then m[f] else Filler(f, path, env).value
    ensures var r := FixedMetadata(m, MissingFields(file, m, fields), path, env);
      forall k :: k !in fields ==> (k in r <==> k in m) && (k in m ==> r[k] == m[k])
    decreases |fields|
  {
    if fields != [] {
      var front, g := fields[..|fields| - 1], fields[|fields| - 1];
      assert fields == front + [g];
      assert forall f :: f in front ==> f in fields;
      MissingFixed(m, front, path, env, file);
      var x := FixedMetadata(m, MissingFields(file, m, front), path, env);
      var tail := if !Present(m, g) then [Violation(file, MissingField, g, None, Some(AddField))] else [];
      assert MissingFields(file, m, fields) == MissingFields(file, m, front) + tail;
      FixedAppend(m, MissingFields(file, m, front), tail, path, env);
      MissingTailFixed(m, x, g, tail, path, env, file);
      var r := FixedMetadata(x, tail, path, env);
      forall f | f in fields
        ensures f in r && r[f] == if Present(m, f) then m[f] else Filler(f, path, env).value
      {
        if f != g {
          assert f in front;
        } else if Present(m, g) && g !in front {
          assert x[g] == m[g];
        }
      }
    }
  }

  /** The fix for one absent field writes its filler and leaves every other key alone. */
  lemma MissingTailFixed(m: Metadata, x: Metadata, g: string, tail: seq<Violation>, path: string, env: Environment, file: string)
    requires Filler(g, path, env).Some?
    requires tail == if !Present(m, g) then [Violation(file, MissingField, g, None, Some(AddField))] else []
    ensures var r := FixedMetadata(x, tail, path, env);
      (Present(m, g) ==> r == x)
      && (!Present(m, g) ==> g in r && r[g] == Filler(g, path, env).value)
      && forall k :: k != g ==> (k in r <==> k in x) && (k in x ==> r[k] == x[k])
  {
    FixedAtMostOne(x, tail, path, env);
  }

  /** A date field holding a string that reads as ISO 8601. */
  predicate GoodDate(m: Metadata, f: string) {
    f in m && m[f].Str? && IsIso8601(m[f].s)
  }

  /** After the INVALID_DATE_FORMAT fixes every listed field is a good date, given each was already good or is fixed. */
  lemma {:induction false} DatesFixed(m: Metadata, m1: Metadata, fields: seq<string>, path: string, env: Environment, file: string)
    requires IsIso8601(env.clock)
    requires forall f :: f in fields ==> f in m1 && (GoodDate(m1, f) || (f in m && !IsIsoDate(m[f])))
    ensures var r := FixedMetadata(m1, DateViolations(file, m, fields), path, env);
      forall f :: f in fields ==> GoodDate(r, f)
    ensures var r := FixedMetadata(m1, DateViolations(file, m, fields), path, env);
      forall k :: k !in fields ==> (k in r <==> k in m1) && (k in m1 ==> r[k] == m1[k])
    decreases |fields|
  {
    if fields != [] {
      var front, g := fields[..|fields| - 1], fields[|fields| - 1];
      assert fields == front + [g];
      assert forall f :: f in front ==> f in fields;
      DatesFixed(m, m1, front, path, env, file);
      var x := FixedMetadata(m1, DateViolations(file, m, front), path, env);
      var tail := if g in m && !IsIsoDate(m[g])
        then [Violation(file, InvalidDateFormat, g, Some(Str(Text(m[g]))), Some(FixDateFormat))] else [];
      assert DateViolations(file, m, fields) == DateViolations(file, m, front) + tail;
      FixedAppend(m1, DateViolations(file, m, front), tail, path, env);
      DateTailFixed(m, x, g, tail, path, env, file);
      var r := FixedMetadata(x, tail, path, env);
      forall f | f in fields ensures GoodDate(r, f) {
        if f != g {
          assert f in front;
        }
      }
    }
  }

  /** The fix for one date field makes that field good and leaves every other key alone. */
  lemma DateTailFixed(m: Metadata, x: Metadata, g: string, tail: seq<Violation>, path: string, env: Environment, file: string)
    requires IsIso8601(env.clock)
    requires g in x && (GoodDate(x, g) || (g in m && !IsIsoDate(m[g])))
    requires tail == if g in m && !IsIsoDate(m[g])
      then [Violation(file, InvalidDateFormat, g, Some(Str(Text(m[g]))), Some(FixDateFormat))] else []
    ensures var r := FixedMetadata(x, tail, path, env);
      GoodDate(r, g) && forall k :: k != g ==> (k in r <==> k in x) && (k in x ==> r[k] == x[k])
  {
    FixedAtMostOne(x, tail, path, env);
    if tail != [] {
      DateStep(x, tail[0], path, env);
    }
  }

  lemma DateStep(x: Metadata, v: Violation, path: string, env: Environment)
    requires IsIso8601(env.clock)
    requires v.Violation? && v.fix == Some(FixDateFormat) && v.field in x
    ensures GoodDate(ApplyFix(x, v, path, env), v.field)
  {
    NormalizedIsIso(x[v.field], env);
    var s := NormalizeDate(x[v.field], env);
    assert ApplyFix(x, v, path, env)[v.field] == Str(s);
  }

  lemma FixedAtMostOne(x: Metadata, vs: seq<Violation>, path: string, env: Environment)
    requires |vs| <= 1
    ensures FixedMetadata(x, vs, path, env) == if vs == [] then x else ApplyFix(x, vs[0], path, env)
  {
    if vs != [] {
      FixedOne(x, vs[0], path, env);
      assert vs == [vs[0]];
    }
  }

  /** Only a string can pass the date check: `str()` of any other value starts with a letter, a bracket or a digit run without dashes. */
  lemma IsoIsString(v: Value)
    requires IsIsoDate(v)
    ensures v.Str?
  {
    if !v.Str? {
      NonStringNeverMatches(v, DateTimePattern);
    }
  }

  lemma {:induction false} MissingNone(file: string, m: Metadata, fields: seq<string>)
    requires forall f :: f in fields ==> Present(m, f)
    ensures MissingFields(file, m, fields) == []
    decreases |fields|
  {
    if fields != [] {
      assert fields[|fields| - 1] in fields;
      assert forall f :: f in fields[..|fields| - 1] ==> f in fields;
      MissingNone(file, m, fields[..|fields| - 1]);
    }
  }

  lemma {:induction false} DatesNone(file: string, m: Metadata, fields: seq<string>)
    requires forall f :: f in fields ==> GoodDate(m, f)
    ensures DateViolations(file, m, fields) == []
    decreases |fields|
  {
    if fields != [] {
      assert fields[|fields| - 1] in fields;
      assert forall f :: f in fields[..|fields| - 1] ==> f in fields;
      DatesNone(file, m, fields[..|fields| - 1]);
    }
  }

  /** After the required-field fixes: every required field is filled, with its old value where it had one. */
  lemma RequiredFilled(path: string, m: Metadata, env: Environment)
    ensures var m1 := FixedMetadata(m, MissingFields(path, m, RequiredFields), path, env);
      && "id" in m1 && m1["id"] == (if Present(m, "id") then m["id"] else Str(env.newId))
      && "category" in m1 && m1["category"] == (if Present(m, "category") then m["category"] else Str(InferCategory(path)))
      && "created" in m1 && m1["created"] == (if Present(m, "created") then m["created"] else Str(Stamp(env)))
      && "modified" in m1 && m1["modified"] == (if Present(m, "modified") then m["modified"] else Str(Stamp(env)))
      && ("tags" in m1 <==> "tags" in m) && ("tags" in m ==> m1["tags"] == m["tags"])
  {
    RequiredFillable(path, env);
    MissingFixed(m, RequiredFields, path, env, path);
    assert RequiredFields[0] == "id" && RequiredFields[1] == "created";
    assert RequiredFields[2] == "modified" && RequiredFields[3] == "category";
    assert "tags" !in RequiredFields;
  }

  lemma RequiredFillable(path: string, env: Environment)
    ensures forall f :: f in RequiredFields ==> Filler(f, path, env).Some?
  {
    forall f | f in RequiredFields
      ensures Filler(f, path, env).Some?
    {
      assert f == "id" || f == "created" || f == "modified" || f == "category";
    }
  }

  /** A date field is either good after the required-field fixes or is reported for its format. */
  lemma DateReady(path: string, m: Metadata, m1: Metadata, env: Environment, f: string)
    requires IsIso8601(env.clock)
    requires f in m1 && m1[f] == (if Present(m, f) then m[f] else Str(Stamp(env)))
    ensures GoodDate(m1, f) || (f in m && !IsIsoDate(m[f]))
  {
    TrailingTextAllowed(env.clock, "Z", DateTimePattern);
    if Present(m, f) && IsIsoDate(m[f]) {
      IsoIsString(m[f]);
    }
  }

  /** After the required-field and date fixes: both dates are good, `id` and `category` are filled, `tags` is untouched. */
  lemma FrontFixed(path: string, m: Metadata, env: Environment)
    requires IsIso8601(env.clock)
    ensures var m2 := FixedMetadata(FixedMetadata(m, MissingFields(path, m, RequiredFields), path, env), DateViolations(path, m, DateFields), path, env);
      && GoodDate(m2, "created") && GoodDate(m2, "modified")
      && "id" in m2 && m2["id"] == (if Present(m, "id") then m["id"] else Str(env.newId))
      && "category" in m2 && m2["category"] == (if Present(m, "category") then m["category"] else Str(InferCategory(path)))
      && ("tags" in m2 <==> "tags" in m) && ("tags" in m ==> m2["tags"] == m["tags"])
  {
    RequiredFilled(path, m, env);
    var m1 := FixedMetadata(m, MissingFields(path, m, RequiredFields), path, env);
    DateReady(path, m, m1, env, "created");
    DateReady(path, m, m1, env, "modified");
    BothDatesFixed(m, m1, path, env);
    DatesKeepFilled(m1, FixedMetadata(m1, DateViolations(path, m, DateFields), path, env));
  }

  /** The date fixes leave `id`, `category` and `tags` as the required-field fixes left them. */
  lemma DatesKeepFilled(m1: Metadata, m2: Metadata)
    requires forall k :: k != "created" && k != "modified" ==> (k in m2 <==> k in m1) && (k in m1 ==> m2[k] == m1[k])
    ensures ("id" in m2 <==> "id" in m1) && ("id" in m1 ==> m2["id"] == m1["id"])
    ensures ("category" in m2 <==> "category" in m1) && ("category" in m1 ==> m2["category"] == m1["category"])
    ensures ("tags" in m2 <==> "tags" in m1) && ("tags" in m1 ==> m2["tags"] == m1["tags"])
  {
    assert "id"[0] != "created"[0] && "id"[0] != "modified"[0];
    assert "category"[1] != "created"[1] && "category"[0] != "modified"[0];
    assert "tags"[0] != "created"[0] && "tags"[0] != "modified"[0];
  }

  /** `DatesFixed` for the two date fields by name. */
  lemma BothDatesFixed(m: Metadata, m1: Metadata, path: string, env: Environment)
    requires IsIso8601(env.clock)
    requires "created" in m1 && (GoodDate(m1, "created") || ("created" in m && !IsIsoDate(m["created"])))
    requires "modified" in m1 && (GoodDate(m1, "modified") || ("modified" in m && !IsIsoDate(m["modified"])))
    ensures var m2 := FixedMetadata(m1, DateViolations(path, m, DateFields), path, env);
      GoodDate(m2, "created") && GoodDate(m2, "modified")
      && forall k :: k != "created" && k != "modified" ==> (k in m2 <==> k in m1) && (k in m1 ==> m2[k] == m1[k])
  {
    assert DateFields[0] == "created" && DateFields[1] == "modified" && |DateFields| == 2;
    assert forall f :: f in DateFields ==> f == "created" || f == "modified";
    DatesFixed(m, m1, DateFields, path, env, path);
  }

  /** Applying all fixes is applying each check's fixes in turn. */
  lemma FixedStages(path: string, m: Metadata, env: Environment)
    ensures FixedMetadata(m, Violations(path, m), path, env) ==
      FixedMetadata(FixedMetadata(FixedMetadata(FixedMetadata(FixedMetadata(m,
        MissingFields(path, m, RequiredFields), path, env), DateViolations(path, m, DateFields), path, env),
        TagsViolations(path, m), path, env), CategoryViolations(path, m), path, env), IdViolations(path, m), path, env)
  {
    var a, b, t, c, i := MissingFields(path, m, RequiredFields), DateViolations(path, m, DateFields),
      TagsViolations(path, m), CategoryViolations(path, m), IdViolations(path, m);
    FixedAppend(m, a, b, path, env);
    FixedAppend(m, a + b, t, path, env);
    FixedAppend(m, a + b + t, c, path, env);
    FixedAppend(m, a + b + t + c, i, path, env);
  }

  /** What the tags, category and id fixes do to metadata whose dates, id and category are already filled. */
  lemma BackFixed(path: string, m: Metadata, m2: Metadata, env: Environment)
    requires |env.newId| >= 5
    requires GoodDate(m2, "created") && GoodDate(m2, "modified")
    requires "id" in m2 && m2["id"] == (if Present(m, "id") then m["id"] else Str(env.newId))
    requires "category" in m2 && Present(m2, "category")
    requires ("tags" in m2 <==> "tags" in m) && ("tags" in m ==> m2["tags"] == m["tags"])
    ensures var r := FixedMetadata(FixedMetadata(FixedMetadata(m2, TagsViolations(path, m), path, env),
        CategoryViolations(path, m), path, env), IdViolations(path, m), path, env);
      && GoodDate(r, "created") && GoodDate(r, "modified")
      && "category" in r && r["category"] == m2["category"]
      && Present(r, "id") && !IsWeakId(r["id"])
      && ("tags" in r <==> "tags" in m) && ("tags" in m && !m["tags"].Str? ==> r["tags"] == m["tags"])
      && ("tags" in m && m["tags"].Str? ==> r["tags"].List?)
  {
    TagsStage(path, m, m2, env);
    var m3 := FixedMetadata(m2, TagsViolations(path, m), path, env);
    FixedAtMostOne(m3, CategoryViolations(path, m), path, env);
    IdStage(path, m, m3, env);
    assert "tags"[0] != "created"[0] && "tags"[0] != "modified"[0] && "tags"[0] != "category"[0];
    assert "id"[0] != "created"[0] && "id"[0] != "modified"[0] && "id"[0] != "category"[0] && "id"[0] != "tags"[0];
  }

  /** The `tags` fix turns a string into a list and touches no other key. */
  lemma TagsStage(path: string, m: Metadata, m2: Metadata, env: Environment)
    requires ("tags" in m2 <==> "tags" in m) && ("tags" in m ==> m2["tags"] == m["tags"])
    ensures var m3 := FixedMetadata(m2, TagsViolations(path, m), path, env);
      && (forall k :: k != "tags" ==> (k in m3 <==> k in m2) && (k in m2 ==> m3[k] == m2[k]))
      && ("tags" in m3 <==> "tags" in m) && ("tags" in m && !m["tags"].Str? ==> m3["tags"] == m["tags"])
      && ("tags" in m && m["tags"].Str? ==> m3["tags"].List?)
  {
    FixedAtMostOne(m2, TagsViolations(path, m), path, env);
  }

  /** The `id` fix leaves a strong id and touches no other key. */
  lemma IdStage(path: string, m: Metadata, m3: Metadata, env: Environment)
    requires |env.newId| >= 5
    requires "id" in m3 && m3["id"] == (if Present(m, "id") then m["id"] else Str(env.newId))
    ensures var r := FixedMetadata(m3, IdViolations(path, m), path, env);
      && Present(r, "id") && !IsWeakId(r["id"])
      && forall k :: k != "id" ==> (k in r <==> k in m3) && (k in m3 ==> r[k] == m3[k])
  {
    FixedAtMostOne(m3, IdViolations(path, m), path, env);
  }

  /** The reports on metadata whose required fields, dates and id are all in order. */
  lemma OnlyTagsAndCategory(path: string, m: Metadata, r: Metadata)
    requires GoodDate(r, "created") && GoodDate(r, "modified")
    requires Present(r, "category") && Present(r, "id") && !IsWeakId(r["id"])
    ensures Violations(path, r) == TagsViolations(path, r) + CategoryViolations(path, r)
  {
    GoodDatePresent(r, "created");
    GoodDatePresent(r, "modified");
    assert forall f :: f in RequiredFields ==> f == "id" || f == "created" || f == "modified" || f == "category";
    MissingNone(path, r, RequiredFields);
    assert forall f :: f in DateFields ==> f == "created" || f == "modified";
    DatesNone(path, r, DateFields);
    assert IdViolations(path, r) == [];
    DropEmpty(MissingFields(path, r, RequiredFields), DateViolations(path, r, DateFields),
      TagsViolations(path, r), CategoryViolations(path, r), IdViolations(path, r));
  }

  lemma DropEmpty(a: seq<Violation>, b: seq<Violation>, c: seq<Violation>, d: seq<Violation>, e: seq<Violation>)
    requires a == [] && b == [] && e == []
    ensures a + b + c + d + e == c + d
  {
  }

  /** A good date is a non-empty string, so the field counts as present. */
  lemma GoodDatePresent(m: Metadata, f: string)
    requires GoodDate(m, f)
    ensures Present(m, f)
  {
    assert |m[f].s| >= |DateTimePattern|;
  }

  lemma RemainingReports(path: string, m: Metadata, r: Metadata)
    requires Violations(path, r) == TagsViolations(path, r) + CategoryViolations(path, r)
    requires "category" in r && r["category"] == (if Present(m, "category") then m["category"] else Str(InferCategory(path)))
    requires !IsGenericCategory(Str(InferCategory(path)))
    requires ("tags" in r <==> "tags" in m) && ("tags" in m && !m["tags"].Str? ==> r["tags"] == m["tags"])
    requires "tags" in m && m["tags"].Str? ==> r["tags"].List?
    ensures forall v :: v in Violations(path, r) ==>
        (v.Violation? && v.kind == InvalidTagsFormat && "tags" in m && !m["tags"].List? && !m["tags"].Str?)
        || (v.Violation? && v.kind == GenericCategory && Present(m, "category") && IsGenericCategory(m["category"]))
  {
    TagsRemaining(path, m, r);
    CategoryRemaining(path, m, r);
  }

  /** A tags report survives the fixes only for a value that is neither a list nor a string. */
  lemma TagsRemaining(path: string, m: Metadata, r: Metadata)
    requires ("tags" in r <==> "tags" in m) && ("tags" in m && !m["tags"].Str? ==> r["tags"] == m["tags"])
    requires "tags" in m && m["tags"].Str? ==> r["tags"].List?
    ensures forall v :: v in TagsViolations(path, r) ==>
      v.Violation? && v.kind == InvalidTagsFormat && "tags" in m && !m["tags"].List? && !m["tags"].Str?
  {
  }

  /** A category report survives the fixes only for a category that was present and generic. */
  lemma CategoryRemaining(path: string, m: Metadata, r: Metadata)
    requires "category" in r && r["category"] == (if Present(m, "category") then m["category"] else Str(InferCategory(path)))
    requires !IsGenericCategory(Str(InferCategory(path)))
    ensures forall v :: v in CategoryViolations(path, r) ==>
      v.Violation? && v.kind == GenericCategory && Present(m, "category") && IsGenericCategory(m["category"])
  {
  }

  /**
   * Fixing converges: validating the fixed metadata again finds at most a `tags` value that is
   * neither a list nor a string, and a category that was already present and generic. Needs a
   * clock that reads as ISO 8601 and an id of at least five characters, as `uuid4` gives.
   */
  lemma FixesConverge(path: string, m: Metadata, env: Environment)
    requires IsIso8601(env.clock) && |env.newId| >= 5
    ensures var r := FixedMetadata(m, Violations(path, m), path, env);
      forall v :: v in Violations(path, r) ==>
        (v.Violation? && v.kind == InvalidTagsFormat && "tags" in m && !m["tags"].List? && !m["tags"].Str?)
        || (v.Violation? && v.kind == GenericCategory && Present(m, "category") && IsGenericCategory(m["category"]))
  {
    FrontFixed(path, m, env);
    FixedStages(path, m, env);
    InferredIsSpecific(path);
    var m2 := FixedMetadata(FixedMetadata(m, MissingFields(path, m, RequiredFields), path, env), DateViolations(path, m, DateFields), path, env);
    BackFixed(path, m, m2, env);
    var r := FixedMetadata(FixedMetadata(FixedMetadata(m2, TagsViolations(path, m), path, env),
        CategoryViolations(path, m), path, env), IdViolations(path, m), path, env);
    OnlyTagsAndCategory(path, m, r);
    RemainingReports(path, m, r);
  }

  // ---------------------------------------------------------------------------------------
  // The validator object

  /** The `stats` dictionary. */
  datatype Stats = Stats(filesChecked: nat, violationsFound: nat, fixesApplied: nat, filesFixed: nat)

  /** What `validate_path` is pointed at: a path that does not exist, one file, or the files under a directory as `rglob` lists them. */
  datatype Target = NoSuchPath(path: string) | OneFile(file: SourceFile) | Tree(files: seq<SourceFile>)

  /** `_generate_report` without its timestamp, or the error dictionary for a missing path. */
  datatype Report = PathNotFound(path: string) | Report(stats: Stats, violations: seq<Violation>, fixesApplied: seq<string>, success: bool)

  /** The records validating `f` adds to the violation list. */
  function FileReports(f: SourceFile): seq<Violation> {
    match Extracted(f)
    case None => [Failure(f.path)]
    case Some(m) => Violations(f.path, m)
  }

  /** The lines validating `f` in fix mode adds to `fixes_applied`. */
  function FileNotes(f: SourceFile): seq<string> {
    match Extracted(f)
    case None => []
    case Some(m) => FixNotes(Violations(f.path, m), f.name)
  }

  /** The metadata fix mode hands to `_write_metadata` for `f`, when any fix applies. */
  function Rewrite(f: SourceFile, env: Environment): Option<Metadata> {
    match Extracted(f)
    case None => None
    case Some(m) =>
      if CountFixable(Violations(f.path, m)) > 0 then Some(FixedMetadata(m, Violations(f.path, m), f.path, env)) else None
  }

  /** What checking `f` yields: its violations, or `None` where reading it failed. */
  function Checked(f: SourceFile): Option<seq<Violation>> {
    match Extracted(f)
    case None => None
    case Some(m) => Some(Violations(f.path, m))
  }

  /** The counters after one file: a file that could not be read is counted as checked and nothing else. */
  function Count(s: Stats, checked: Option<seq<Violation>>, fixMode: bool): Stats {
    match checked
    case None => s.(filesChecked := s.filesChecked + 1)
    case Some(vs) =>
      var fixes := if fixMode then CountFixable(vs) else 0;
      Stats(s.filesChecked + 1, s.violationsFound + |vs|, s.fixesApplied + fixes, s.filesFixed + (if fixes > 0 then 1 else 0))
  }

  function Tally(s: Stats, f: SourceFile, fixMode: bool): Stats {
    Count(s, Checked(f), fixMode)
  }

  /** The `success` entry of the report. */
  predicate Succeeded(s: Stats, fixMode: bool) {
    s.violationsFound == 0 || (fixMode && s.fixesApplied > 0)
  }

  /**
   * A file that cannot be read is reported with an `ERROR` record but leaves `violations_found`
   * as it was, so it never turns a successful run into a failed one.
   */
  lemma UnreadableKeepsSuccess(s: Stats, path: string, fixMode: bool)
    ensures Count(s, None, fixMode).violationsFound == s.violationsFound
    ensures Succeeded(Count(s, None, fixMode), fixMode) <==> Succeeded(s, fixMode)
    ensures CountChecked([Failure(path)]) == 0
  {
    assert [Failure(path)][..0] == [];
  }

  /** A readable file with any violation fails a check-only run. */
  lemma CheckOnlyFails(s: Stats, path: string, m: Metadata)
    requires Violations(path, m) != []
    ensures !Succeeded(Count(s, Some(Violations(path, m)), false), false)
  {
  }

  /**
   * In fix mode a readable file with any violation but the generic category makes the run a
   * success, whatever came before: that violation is fixable, so `fixes_applied` becomes positive.
   */
  lemma FixModeSucceeds(s: Stats, path: string, m: Metadata, v: Violation)
    requires v in Violations(path, m) && v.Violation? && v.kind != GenericCategory
    ensures Succeeded(Count(s, Some(Violations(path, m)), true), true)
  {
    ReportsFixable(path, m);
    SomeFixable(Violations(path, m), v);
  }

  lemma {:induction false} SomeFixable(vs: seq<Violation>, v: Violation)
    requires v in vs && Fixable(v)
    ensures CountFixable(vs) > 0
    decreases |vs|
  {
    if vs[|vs| - 1] != v {
      assert v in vs[..|vs| - 1] by {
        var k :| 0 <= k < |vs| && vs[k] == v;
        assert vs[..|vs| - 1][k] == v;
      }
      SomeFixable(vs[..|vs| - 1], v);
    }
  }

  /** The counters after validating every file of a directory tree whose suffix is validated. */
  function TreeStats(s: Stats, files: seq<SourceFile>, fixMode: bool): Stats
    decreases |files|
  {
    if files == [] then s
    else
      var before := TreeStats(s, files[..|files| - 1], fixMode);
      var f := files[|files| - 1];
      if ShouldValidate(f.name) then Tally(before, f, fixMode) else before
  }

  function TreeReports(files: seq<SourceFile>): seq<Violation>
    decreases |files|
  {
    if files == [] then []
    else
      var f := files[|files| - 1];
      TreeReports(files[..|files| - 1]) + (if ShouldValidate(f.name) then FileReports(f) else [])
  }

  function TreeNotes(files: seq<SourceFile>, fixMode: bool): seq<string>
    decreases |files|
  {
    if files == [] then []
    else
      var f := files[|files| - 1];
      TreeNotes(files[..|files| - 1], fixMode) + (if fixMode && ShouldValidate(f.name) then FileNotes(f) else [])
  }

  /** The body of the loop in `_apply_fixes`: the metadata after one violation, and the line it adds to `fixes_applied`. */
  method FixOne(md: Metadata, v: Violation, path: string, name: string, env: Environment)
    returns (next: Metadata, note: Option<string>)
    ensures next == ApplyFix(md, v, path, env)
    ensures note == if Fixable(v) then Some(FixNote(v, name)) else None
  {
    next, note := md, None;
    if v.Violation? && v.fix.Some? {
      match v.fix.value {
        case AddField =>
          if v.field == "id" {
            next := md["id" := Str(env.newId)];
          } else if v.field == "created" || v.field == "modified" {
            next := md[v.field := Str(env.clock + "Z")];
          } else if v.field == "category" {
            next := md["category" := Str(InferCategory(path))];
          }
          note := Some("Added " + v.field + " to " + name);
        case FixDateFormat =>
          if v.field in md {
            next := md[v.field := Str(NormalizeDate(md[v.field], env))];
          }
          note := Some("Fixed " + v.field + " format in " + name);
        case FixTagsFormat =>
          if "tags" in md && md["tags"].Str? {
            next := md["tags" := SplitTags(md["tags"].s)];
          }
          note := Some("Fixed tags format in " + name);
        case GenerateId =>
          next := md["id" := Str(env.newId)];
          note := Some("Generated new ID for " + name);
      }
    }
  }

  lemma TreeSnoc(s: Stats, files: seq<SourceFile>, i: nat, fixMode: bool)
    requires i < |files|
    ensures var f, before := files[i], files[..i];
      && TreeStats(s, files[..i + 1], fixMode) ==
         (if ShouldValidate(f.name) then Tally(TreeStats(s, before, fixMode), f, fixMode) else TreeStats(s, before, fixMode))
      && TreeReports(files[..i + 1]) == TreeReports(before) + (if ShouldValidate(f.name) then FileReports(f) else [])
      && TreeNotes(files[..i + 1], fixMode) == TreeNotes(before, fixMode) + (if fixMode && ShouldValidate(f.name) then FileNotes(f) else [])
  {
    assert files[..i + 1][..i] == files[..i];
  }

  /** One step of the directory loop, on the counters. */
  lemma TreeStatsStep(s: Stats, files: seq<SourceFile>, i: nat, fixMode: bool, before: Stats, after: Stats)
    requires i < |files|
    requires before == TreeStats(s, files[..i], fixMode)
    requires after == if ShouldValidate(files[i].name) then Tally(before, files[i], fixMode) else before
    ensures after == TreeStats(s, files[..i + 1], fixMode)
  {
    TreeSnoc(s, files, i, fixMode);
  }

  /** One step of the directory loop, on the violation list. */
  lemma TreeReportsStep(v0: seq<Violation>, files: seq<SourceFile>, i: nat, before: seq<Violation>, after: seq<Violation>)
    requires i < |files|
    requires before == v0 + TreeReports(files[..i])
    requires after == before + (if ShouldValidate(files[i].name) then FileReports(files[i]) else [])
    ensures after == v0 + TreeReports(files[..i + 1])
  {
    TreeSnoc(Stats(0, 0, 0, 0), files, i, false);
    AppendAssoc(v0, TreeReports(files[..i]), if ShouldValidate(files[i].name) then FileReports(files[i]) else []);
  }

  /** One step of the directory loop, on the `fixes_applied` list. */
  lemma TreeNotesStep(n0: seq<string>, files: seq<SourceFile>, i: nat, fixMode: bool, before: seq<string>, after: seq<string>)
    requires i < |files|
    requires before == n0 + TreeNotes(files[..i], fixMode)
    requires after == before + (if fixMode && ShouldValidate(files[i].name) then FileNotes(files[i]) else [])
    ensures after == n0 + TreeNotes(files[..i + 1], fixMode)
  {
    TreeSnoc(Stats(0, 0, 0, 0), files, i, fixMode);
    AppendAssoc(n0, TreeNotes(files[..i], fixMode), if fixMode && ShouldValidate(files[i].name) then FileNotes(files[i]) else []);
  }

  lemma AppendAssoc<T>(a: seq<T>, b: seq<T>, c: seq<T>)
    ensures a + b + c == a + (b + c)
  {
  }

  class Validator {
    const fixMode: bool
    const env: Environment
    var stats: Stats
    var violations: seq<Violation>
    var fixesApplied: seq<string>

    /** The counters agree with the lists they count. */
    predicate Valid()
      reads this
    {
      && stats.violationsFound == CountChecked(violations)
      && stats.fixesApplied == |fixesApplied|
      && stats.fixesApplied <= stats.violationsFound
      && stats.filesFixed <= stats.fixesApplied
      && stats.filesFixed <= stats.filesChecked
      && (!fixMode ==> stats.fixesApplied == 0)
    }

    constructor(fixMode: bool, env: Environment)
      ensures Valid() && this.fixMode == fixMode && this.env == env
      ensures stats == Stats(0, 0, 0, 0) && violations == [] && fixesApplied == []
    {
      this.fixMode := fixMode;
      this.env := env;
      stats := Stats(0, 0, 0, 0);
      violations := [];
      fixesApplied := [];
    }

    /** `_apply_fixes`; the backup copy and the write are left to the caller, which gets the metadata to write. */
    method ApplyFixes(f: SourceFile, m: Metadata, vs: seq<Violation>) returns (written: Option<Metadata>)
      modifies this
      ensures written == if CountFixable(vs) > 0 then Some(FixedMetadata(m, vs, f.path, env)) else None
      ensures fixesApplied == old(fixesApplied) + FixNotes(vs, f.name)
      ensures stats == old(stats).(fixesApplied := old(stats).fixesApplied + CountFixable(vs),
                                   filesFixed := old(stats).filesFixed + if CountFixable(vs) > 0 then 1 else 0)
      ensures violations == old(violations)
    {
      var md := m;
      var fixed := false;
      var path, name := f.path, f.name;
      ghost var notes0 := fixesApplied;
      var i := 0;
      while i < |vs|
        invariant 0 <= i <= |vs|
        invariant md == FixedMetadata(m, vs[..i], path, env)
        invariant fixesApplied == notes0 + FixNotes(vs[..i], name)
        invariant fixed <==> CountFixable(vs[..i]) > 0
        invariant stats == old(stats) && violations == old(violations)
      {
        var note;
        FixPrefixStep(m, vs, i, path, name, env);
        md, note := FixOne(md, vs[i], path, name, env);
        if note.Some? {
          fixesApplied := fixesApplied + [note.value];
          fixed := true;
        }
        i := i + 1;
      }
      assert vs[..i] == vs;
      if fixed {
        written := Some(md);
        stats := stats.(fixesApplied := stats.fixesApplied + CountFixable(vs), filesFixed := stats.filesFixed + 1);
      } else {
        written := None;
      }
    }

    /** The `except` branch of `_validate_file`. */
    method RecordFailure(path: string)
      requires Valid()
      modifies this
      ensures Valid()
      ensures stats == Count(old(stats), None, fixMode)
      ensures violations == old(violations) + [Failure(path)] && fixesApplied == old(fixesApplied)
    {
      CountCheckedAppend(violations, [Failure(path)]);
      assert [Failure(path)][..0] == [];
      stats := stats.(filesChecked := stats.filesChecked + 1);
      violations := violations + [Failure(path)];
    }

    /** The `try` branch of `_validate_file` once the violations `vs` of the metadata `m` are known. */
    method RecordChecked(f: SourceFile, m: Metadata, vs: seq<Violation>) returns (written: Option<Metadata>)
      requires Valid() && CountChecked(vs) == |vs|
      modifies this
      ensures Valid()
      ensures stats == Count(old(stats), Some(vs), fixMode)
      ensures violations == old(violations) + vs
      ensures fixesApplied == old(fixesApplied) + (if fixMode then FixNotes(vs, f.name) else [])
      ensures written == if fixMode && CountFixable(vs) > 0 then Some(FixedMetadata(m, vs, f.path, env)) else None
    {
      CountBounds(vs);
      NotesMatchCount(vs, f.name);
      CountCheckedAppend(violations, vs);
      stats := stats.(filesChecked := stats.filesChecked + 1);
      written := None;
      if vs != [] {
        stats := stats.(violationsFound := stats.violationsFound + |vs|);
        violations := violations + vs;
        if fixMode {
          written := ApplyFixes(f, m, vs);
        }
      }
    }

    /** `_validate_file`; in fix mode it also returns the metadata to write back, if any. */
    method ValidateFile(f: SourceFile) returns (written: Option<Metadata>)
      requires Valid()
      modifies this
      ensures Valid()
      ensures stats == Tally(old(stats), f, fixMode)
      ensures violations == old(violations) + FileReports(f)
      ensures fixesApplied == old(fixesApplied) + (if fixMode then FileNotes(f) else [])
      ensures written == if fixMode then Rewrite(f, env) else None
    {
      var md := ExtractMetadata(f);
      if md.None? {
        RecordFailure(f.path);
        written := None;
      } else {
        var vs := CheckStandards(f.path, md.value);
        FixableCount(f.path, md.value);
        written := RecordChecked(f, md.value, vs);
      }
    }

    /** One file met by `rglob`: validated when its suffix is one of the four. */
    method Visit(f: SourceFile)
      requires Valid()
      modifies this
      ensures Valid()
      ensures stats == if ShouldValidate(f.name) then Tally(old(stats), f, fixMode) else old(stats)
      ensures violations == old(violations) + (if ShouldValidate(f.name) then FileReports(f) else [])
      ensures fixesApplied == old(fixesApplied) + (if fixMode && ShouldValidate(f.name) then FileNotes(f) else [])
    {
      if ShouldValidate(f.name) {
        var _ := ValidateFile(f);
      }
    }

    /** The directory branch of `validate_path`: every file whose suffix is validated, in the order given. */
    method ValidateTree(files: seq<SourceFile>)
      requires Valid()
      modifies this
      ensures Valid()
      ensures stats == TreeStats(old(stats), files, fixMode)
      ensures violations == old(violations) + TreeReports(files)
      ensures fixesApplied == old(fixesApplied) + TreeNotes(files, fixMode)
    {
      var i := 0;
      while i < |files|
        invariant 0 <= i <= |files|
        invariant Valid()
        invariant stats == TreeStats(old(stats), files[..i], fixMode)
        invariant violations == old(violations) + TreeReports(files[..i])
        invariant fixesApplied == old(fixesApplied) + TreeNotes(files[..i], fixMode)
      {
        TreeStep(files, i, old(stats), old(violations), old(fixesApplied));
        i := i + 1;
      }
      assert files[..i] == files;
    }

    /** The body of the directory loop: the state after `files[..i]` becomes the state after `files[..i + 1]`. */
    method TreeStep(files: seq<SourceFile>, i: nat, ghost s0: Stats, ghost v0: seq<Violation>, ghost n0: seq<string>)
      requires i < |files| && Valid()
      requires stats == TreeStats(s0, files[..i], fixMode)
      requires violations == v0 + TreeReports(files[..i])
      requires fixesApplied == n0 + TreeNotes(files[..i], fixMode)
      modifies this
      ensures Valid()
      ensures stats == TreeStats(s0, files[..i + 1], fixMode)
      ensures violations == v0 + TreeReports(files[..i + 1])
      ensures fixesApplied == n0 + TreeNotes(files[..i + 1], fixMode)
    {
      ghost var s, vs, ns := stats, violations, fixesApplied;
      Visit(files[i]);
      TreeStatsStep(s0, files, i, fixMode, s, stats);
      TreeReportsStep(v0, files, i, vs, violations);
      TreeNotesStep(n0, files, i, fixMode, ns, fixesApplied);
    }

    /** `validate_path`: one file is validated whatever its suffix; in a tree only the validated suffixes are. */
    method ValidatePath(target: Target) returns (r: Report)
      requires Valid()
      modifies this
      ensures Valid()
      ensures target.NoSuchPath? ==>
        r == PathNotFound(target.path) && stats == old(stats) && violations == old(violations) && fixesApplied == old(fixesApplied)
      ensures target.OneFile? ==>
        && stats == Tally(old(stats), target.file, fixMode)
        && violations == old(violations) + FileReports(target.file)
        && fixesApplied == old(fixesApplied) + (if fixMode then FileNotes(target.file) else [])
      ensures target.Tree? ==>
        && stats == TreeStats(old(stats), target.files, fixMode)
        && violations == old(violations) + TreeReports(target.files)
        && fixesApplied == old(fixesApplied) + TreeNotes(target.files, fixMode)
      ensures !target.NoSuchPath? ==> r == Report(stats, violations, fixesApplied, Succeeded(stats, fixMode))
    {
      match target {
        case NoSuchPath(path) =>
          return PathNotFound(path);
        case OneFile(f) =>
          var _ := ValidateFile(f);
        case Tree(files) =>
          ValidateTree(files);
      }
      r := Report(stats, violations, fixesApplied, Succeeded(stats, fixMode));
    }
  }
}

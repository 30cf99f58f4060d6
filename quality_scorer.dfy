/**
 * The MDEC quality scorer: four sub-scores computed from a file's metadata by fixed
 * deductions and bonuses, a list of recommendations that follows from them, the grade
 * ladder of the report and the exit code of the command line.
 */
module QualityScorer {
  import opened Wrappers
  import opened PyStrings
  import opened PyValues
  import opened PyPaths
  import opened DatePatterns
  import Frontmatter

  /** The fields completeness counts, in the order the missing-field advice lists them. */
  const ScoredFields: seq<string> := ["id", "name", "created", "modified", "category", "tags", "author", "description"]
  const ScoredDateFields: seq<string> := ["created", "modified"]
  /** The words accuracy treats as a generic category (after lower-casing). */
  const GenericWords: seq<string> := ["unknown", "misc", "other", "na"]

  // ---------------------------------------------------------------------------------------
  // The metadata the scorer reads

  /**
   * A file as the scorer sees it: the name and absolute path of its `Path`, the size and the
   * `isoformat()` of the two timestamps `stat` gives, and what reading it yields.
   */
  datatype ScoredFile = ScoredFile(name: string, absolutePath: string, size: nat,
                                   created: string, modified: string, body: Body)

  const BaseKeys: set<string> := {"name", "path", "size", "created", "modified", "extension"}

  function BaseMetadata(f: ScoredFile): (m: Metadata)
    ensures m.Keys == BaseKeys
  {
    map["name" := Str(f.name), "path" := Str(f.absolutePath), "size" := Int(f.size),
        "created" := Str(f.created), "modified" := Str(f.modified),
        "extension" := Str(Lower(Suffix(f.name)))]
  }

  /**
   * `_extract_metadata`: a JSON object updates the file facts, Markdown frontmatter sets its
   * keys; any read or parse error is swallowed and leaves the file facts alone.
   */
  function ScorerMetadata(f: ScoredFile): (m: Metadata)
    ensures BaseKeys <= m.Keys
  {
    var base := BaseMetadata(f);
    var ext := Lower(Suffix(f.name));
    if ext == ".json" then
      match f.body
      case Readable(_, Some(Obj(fs))) => base + ObjToMap(fs)
      case _ => base
    else if ext == ".md" then
      match f.body
      case Readable(text, _) => Frontmatter.KeepsKeys(base, text); Frontmatter.WithFrontmatter(base, text)
      case Unreadable => base
    else base
  }

  // ---------------------------------------------------------------------------------------
  // Completeness

  /** How many of `fields` are present with a truthy value. */
  function PresentCount(m: Metadata, fields: seq<string>): (n: nat)
    ensures n <= |fields|
  {
    if fields == [] then 0
    else PresentCount(m, fields[..|fields| - 1]) + (if Present(m, fields[|fields| - 1]) then 1 else 0)
  }

  /** The fields among `fields` that are absent or falsy, in their order. */
  function MissingFrom(m: Metadata, fields: seq<string>): seq<string> {
    if fields == [] then []
    else
      var last := fields[|fields| - 1];
      MissingFrom(m, fields[..|fields| - 1]) + (if Present(m, last) then [] else [last])
  }

  function MissingFields(m: Metadata): seq<string> {
    MissingFrom(m, ScoredFields)
  }

  /** `_score_completeness`: the share of present fields, in percent (multiples of 12.5 are exact). */
  function Completeness(m: Metadata): (c: real)
    ensures 0.0 <= c <= 100.0
  {
    (PresentCount(m, ScoredFields) as real) * 100.0 / 8.0
  }

  /** The missing list holds exactly the absent or falsy fields. */
  lemma {:induction false} MissingExact(m: Metadata, fields: seq<string>, f: string)
    ensures f in MissingFrom(m, fields) <==> f in fields && !Present(m, f)
  {
    if fields != [] {
      var n := |fields| - 1;
      MissingExact(m, fields[..n], f);
      assert fields == fields[..n] + [fields[n]];
    }
  }

  /** Every field is either counted present or listed missing. */
  lemma {:induction false} MissingComplementsPresent(m: Metadata, fields: seq<string>)
    ensures |MissingFrom(m, fields)| + PresentCount(m, fields) == |fields|
  {
    if fields != [] {
      MissingComplementsPresent(m, fields[..|fields| - 1]);
    }
  }

  /** Each pair of entries of `r` occurs in `fields` in the same order. */
  predicate InOrderOf(r: seq<string>, fields: seq<string>) {
    forall i, j :: 0 <= i < j < |r| ==> OccurInOrder(r[i], r[j], fields)
  }

  /** `x` occurs in `fields` before an occurrence of `y`. */
  predicate OccurInOrder(x: string, y: string, fields: seq<string>) {
    exists a, b :: 0 <= a < b < |fields| && fields[a] == x && fields[b] == y
  }

  /** The missing list keeps the declaration order of the fields. */
  lemma {:induction false} MissingInOrder(m: Metadata, fields: seq<string>)
    ensures InOrderOf(MissingFrom(m, fields), fields)
  {
    if fields != [] {
      var n := |fields| - 1;
      var p := fields[..n];
      var rp := MissingFrom(m, p);
      var r := MissingFrom(m, fields);
      MissingInOrder(m, p);
      assert fields[..n] == p;
      assert r == rp + (if Present(m, fields[n]) then [] else [fields[n]]);
      assert forall k :: 0 <= k < |rp| ==> r[k] == rp[k];
      forall i, j | 0 <= i < j < |r|
        ensures OccurInOrder(r[i], r[j], fields)
      {
        if j < |rp| {
          assert r[i] == rp[i] && r[j] == rp[j];
          assert OccurInOrder(rp[i], rp[j], p);
          var a, b :| 0 <= a < b < |p| && p[a] == rp[i] && p[b] == rp[j];
          assert fields[a] == r[i] && fields[b] == r[j];
        } else {
          assert j == |rp| && r[j] == fields[n] && i < |rp|;
          assert r[i] == rp[i] && rp[i] in rp;
          MissingExact(m, p, r[i]);
          assert r[i] in p;
          var a :| 0 <= a < |p| && p[a] == r[i];
          assert fields[a] == r[i] && fields[n] == r[j];
        }
      }
      assert InOrderOf(r, fields);
    }
  }

  /** Completeness falls by 12.5 for each missing field. */
  lemma CompletenessFromMissing(m: Metadata)
    ensures Completeness(m) == 100.0 - 12.5 * (|MissingFields(m)| as real)
  {
    MissingComplementsPresent(m, ScoredFields);
  }

  // ---------------------------------------------------------------------------------------
  // Consistency

  /** `any(re.match(fmt, s) for fmt in date_formats)`. */
  predicate DateLike(s: string) {
    MatchesPrefix(s, DateTimePattern) || MatchesPrefix(s, DatePattern)
  }

  /** The date-time pattern adds nothing: the date prefix alone decides. */
  lemma DateLikeIsDatePrefix(s: string)
    ensures DateLike(s) <==> MatchesPrefix(s, DatePattern)
  {
    if MatchesPrefix(s, DateTimePattern) {
      DateTimeHasDate(s);
    }
  }

  /** An id that is too simple: fewer than 5 characters, or all digits. */
  predicate IsSimpleId(v: Value) {
    |Text(v)| < 5 || IsDigits(Text(v))
  }

  /** How many of `fields` are present with a `str()` that is not date-like. */
  function BadDateCount(m: Metadata, fields: seq<string>): (n: nat)
    ensures n <= |fields|
  {
    if fields == [] then 0
    else
      var f := fields[|fields| - 1];
      BadDateCount(m, fields[..|fields| - 1]) + (if f in m && !DateLike(Text(m[f])) then 1 else 0)
  }

  function ConsistencyDeduction(m: Metadata): nat {
    20 * BadDateCount(m, ScoredDateFields)
    + (if "id" in m && IsSimpleId(m["id"]) then 15 else 0)
    + (if "tags" in m && !m["tags"].List? then 15 else 0)
  }

  function ConsistencyScore(m: Metadata): int {
    var s := 100 - ConsistencyDeduction(m);
    if s < 0 then 0 else s
  }

  /** `_score_consistency`: deduct for each bad date, a simple id and non-list tags, then clamp at 0. */
  method ScoreConsistency(m: Metadata) returns (score: int)
    ensures score == ConsistencyScore(m)
    ensures 30 <= score <= 100
  {
    score := 100;
    var i := 0;
    while i < |ScoredDateFields|
      invariant 0 <= i <= |ScoredDateFields|
      invariant score == 100 - 20 * BadDateCount(m, ScoredDateFields[..i])
    {
      var field := ScoredDateFields[i];
      if field in m && !DateLike(Text(m[field])) {
        score := score - 20;
      }
      assert ScoredDateFields[..i + 1][..i] == ScoredDateFields[..i];
      i := i + 1;
    }
    assert ScoredDateFields[..i] == ScoredDateFields;
    if "id" in m && IsSimpleId(m["id"]) {
      score := score - 15;
    }
    if "tags" in m && !m["tags"].List? {
      score := score - 15;
    }
    score := if score < 0 then 0 else score;
  }

  /** Consistency is perfect exactly when no check finds a problem. */
  lemma ConsistencyPerfectIff(m: Metadata)
    ensures ConsistencyScore(m) == 100 <==>
      (forall f :: f in ScoredDateFields && f in m ==> DateLike(Text(m[f])))
      && !("id" in m && IsSimpleId(m["id"]))
      && !("tags" in m && !m["tags"].List?)
  {
    var bad := (f: string) => f in m && !DateLike(Text(m[f]));
    assert ScoredDateFields[..1] == ["created"];
    assert BadDateCount(m, ScoredDateFields) == (if bad("created") then 1 else 0) + (if bad("modified") then 1 else 0);
  }

  /** A present id written as a non-negative JSON integer is always too simple. */
  lemma NumericIdIsSimple(i: nat)
    ensures IsSimpleId(Int(i))
  {
    var t := Text(Int(i));
    if |t| >= 5 {
      assert t == NatToDecimal(i);
      NaturalDigits(i);
    }
  }

  lemma {:induction false} NaturalDigits(n: nat)
    ensures IsDigits(NatToDecimal(n))
  {
    if n >= 10 {
      NaturalDigits(n / 10);
    }
  }

  // ---------------------------------------------------------------------------------------
  // Accuracy

  /**
   * What `datetime.fromisoformat` yields: a point in time (in UTC for an aware value) and
   * whether it carries an offset; two values of different awareness cannot be compared.
   */
  datatype Instant = Instant(ticks: int, aware: bool)

  type IsoParser = string -> Option<Instant>

  /** The date-logic deduction: 10 when parsing or comparing raises, 30 when modified precedes created. */
  function DateLogicPenalty(m: Metadata, parse: IsoParser): nat {
    if "created" in m && "modified" in m then
      var c := parse(RemoveChar(Text(m["created"]), 'Z'));
      var d := parse(RemoveChar(Text(m["modified"]), 'Z'));
      if c.None? || d.None? || c.value.aware != d.value.aware then 10
      else if d.value.ticks < c.value.ticks then 30
      else 0
    else 0
  }

  /** `size == 0` in Python: also true for `False`. */
  predicate IsZero(v: Value) {
    v == Int(0) || v == Bool(false)
  }

  /** A category whose lower-cased `str()` is shorter than 3 or a generic word. */
  predicate IsVagueCategory(v: Value) {
    |Lower(Text(v))| < 3 || Lower(Text(v)) in GenericWords
  }

  function AccuracyDeduction(m: Metadata, parse: IsoParser): nat {
    DateLogicPenalty(m, parse)
    + (if "size" in m && IsZero(m["size"]) then 20 else 0)
    + (if "category" in m && IsVagueCategory(m["category"]) then 15 else 0)
  }

  /** `_score_accuracy`. */
  function Accuracy(m: Metadata, parse: IsoParser): (a: int)
    ensures 35 <= a <= 100
    ensures a == 100 - AccuracyDeduction(m, parse)
  {
    var s := 100 - AccuracyDeduction(m, parse);
    if s < 0 then 0 else s
  }

  /** Accuracy is perfect exactly when no check finds a problem. */
  lemma AccuracyPerfectIff(m: Metadata, parse: IsoParser)
    ensures Accuracy(m, parse) == 100 <==>
      DateLogicPenalty(m, parse) == 0
      && !("size" in m && IsZero(m["size"]))
      && !("category" in m && IsVagueCategory(m["category"]))
  {
  }

  /** Dates that parse with the same awareness cost nothing iff modified is not before created. */
  lemma DateLogicOrder(m: Metadata, parse: IsoParser, c: Instant, d: Instant)
    requires "created" in m && "modified" in m
    requires parse(RemoveChar(Text(m["created"]), 'Z')) == Some(c)
    requires parse(RemoveChar(Text(m["modified"]), 'Z')) == Some(d)
    requires c.aware == d.aware
    ensures DateLogicPenalty(m, parse) == 0 <==> c.ticks <= d.ticks
    ensures DateLogicPenalty(m, parse) == 30 <==> d.ticks < c.ticks
  {
  }

  // ---------------------------------------------------------------------------------------
  // Richness

  /** `len([k for k, v in metadata.items() if v])`. */
  function FieldCount(m: Metadata): nat {
    |set k | k in m && Truthy(m[k])|
  }

  function FieldBand(n: nat): nat {
    if n >= 15 then 40 else if n >= 10 then 30 else if n >= 8 then 20 else 10
  }

  function TagBand(m: Metadata): nat {
    if "tags" in m && m["tags"].List? then
      var n := |m["tags"].items|;
      if n >= 5 then 30 else if n >= 3 then 20 else if n >= 1 then 10 else 0
    else 0
  }

  function DescriptionBand(m: Metadata): nat {
    if "description" in m then
      var n := |Text(m["description"])|;
      if n >= 100 then 30 else if n >= 50 then 20 else if n >= 20 then 10 else 0
    else 0
  }

  /** `_score_richness`: one band per criterion, capped at 100. */
  function Richness(m: Metadata): (r: int)
    ensures 10 <= r <= 100
    ensures r == FieldBand(FieldCount(m)) + TagBand(m) + DescriptionBand(m)
  {
    var s := FieldBand(FieldCount(m)) + TagBand(m) + DescriptionBand(m);
    if s > 100 then 100 else s
  }

  /** More truthy fields never lower the field band. */
  lemma FieldBandMonotone(a: nat, b: nat)
    requires a <= b
    ensures FieldBand(a) <= FieldBand(b)
  {
  }

  /** Richness of at least 60 needs two criteria above their lowest band. */
  lemma RichnessNeedsTwoCriteria(m: Metadata)
    requires Richness(m) >= 60
    ensures (FieldCount(m) >= 8 && TagBand(m) > 0) || (FieldCount(m) >= 8 && DescriptionBand(m) > 0)
         || (TagBand(m) > 0 && DescriptionBand(m) > 0)
  {
  }

  // ---------------------------------------------------------------------------------------
  // Recommendations

  datatype Scores = Scores(completeness: real, consistency: int, accuracy: int, richness: int)

  datatype Advice =
    | AddMissing(fields: seq<string>)
    | FixDateFormats
    | ConvertTags
    | ReviewDateLogic
    | ReplaceCategory
    | AddTags
    | AddDescription
    | Excellent

  /**
   * The markers the source file holds in front of each message: its emoji, stored as the
   * characters a Mac Roman reading of their UTF-8 bytes gives.
   */
  const WarningMark: string := "\U{201A}\U{00F6}\U{2020}\U{00D4}\U{220F}\U{00E8}"
  const TipMark: string := "\U{F8FF}\U{00FC}\U{00ED}\U{00B0}"
  const DoneMark: string := "\U{201A}\U{00FA}\U{00D6}"

  /** The text of each recommendation. */
  function AdviceText(a: Advice): string {
    match a
    case AddMissing(fs) => WarningMark + "  Add missing required fields: " + Join(fs, ", ")
    case FixDateFormats => WarningMark + "  Fix date format inconsistencies (use ISO8601: YYYY-MM-DDTHH:MM:SS)"
    case ConvertTags => WarningMark + "  Convert tags to array format"
    case ReviewDateLogic => WarningMark + "  Review date logic (modified should be >= created)"
    case ReplaceCategory => WarningMark + "  Replace generic category with specific classification"
    case AddTags => TipMark + " Add more descriptive tags (aim for 3-5 tags)"
    case AddDescription => TipMark + " Add detailed description (50+ characters)"
    case Excellent => DoneMark + " Excellent metadata! No improvements needed."
  }

  /** The advice each low score brings, before the "Excellent" fallback. */
  function Issues(m: Metadata, s: Scores): seq<Advice> {
    (if s.completeness < 80.0 then [AddMissing(MissingFields(m))] else [])
    + (if s.consistency < 80 then
         [FixDateFormats] + (if "tags" in m && !m["tags"].List? then [ConvertTags] else [])
       else [])
    + (if s.accuracy < 80 then
         [ReviewDateLogic] + (if "category" in m && |Text(m["category"])| < 3 then [ReplaceCategory] else [])
       else [])
    + (if s.richness < 60 then
         [AddTags] + (if "description" !in m || |Text(m["description"])| < 50 then [AddDescription] else [])
       else [])
  }

  /** `_generate_recommendations`. */
  function Recommendations(m: Metadata, s: Scores): (recs: seq<Advice>)
    ensures recs != []
  {
    var issues := Issues(m, s);
    if issues == [] then [Excellent] else issues
  }

  predicate AllGood(s: Scores) {
    s.completeness >= 80.0 && s.consistency >= 80 && s.accuracy >= 80 && s.richness >= 60
  }

  /** "Excellent" is given exactly when every score reaches its threshold, and then alone. */
  lemma ExcellentIff(m: Metadata, s: Scores)
    ensures Excellent in Recommendations(m, s) <==> AllGood(s)
    ensures AllGood(s) ==> Recommendations(m, s) == [Excellent]
  {
    var issues := Issues(m, s);
    assert Excellent !in issues;
    if !AllGood(s) {
      assert issues != [];
    }
  }

  /** The missing-field advice comes exactly when completeness is below 80, that is when two or more fields are missing. */
  lemma MissingAdviceIff(m: Metadata, s: Scores)
    requires s.completeness == Completeness(m)
    ensures AddMissing(MissingFields(m)) in Recommendations(m, s) <==> |MissingFields(m)| >= 2
  {
    CompletenessFromMissing(m);
    var issues := Issues(m, s);
    if s.completeness < 80.0 {
      assert issues[0] == AddMissing(MissingFields(m));
    } else {
      assert forall a :: a in issues ==> !a.AddMissing?;
    }
  }

  /** One consistency problem alone never brings any consistency advice: it costs at most 20. */
  lemma SingleInconsistencyNotAdvised(m: Metadata, s: Scores)
    requires s.consistency == ConsistencyScore(m)
    requires ConsistencyDeduction(m) <= 20
    ensures FixDateFormats !in Recommendations(m, s)
    ensures ConvertTags !in Recommendations(m, s)
  {
    assert FixDateFormats !in Issues(m, s) && ConvertTags !in Issues(m, s);
  }

  /**
   * The category advice depends on the length of the category alone: a generic word of
   * three letters or more is deducted for but never advised against.
   */
  lemma GenericWordNotAdvised(m: Metadata, s: Scores)
    requires "category" in m && |Text(m["category"])| >= 3
    ensures ReplaceCategory !in Recommendations(m, s)
  {
    assert ReplaceCategory !in Issues(m, s);
  }

  // ---------------------------------------------------------------------------------------
  // Overall score, grade and exit code

  /** The weighted average, before `round(…, 1)`. */
  function Overall(s: Scores): real {
    s.completeness * 0.35 + (s.consistency as real) * 0.25 + (s.accuracy as real) * 0.25 + (s.richness as real) * 0.15
  }

  datatype Outcome =
    | FileNotFound(path: string)
    | Scored(overall: real, scores: Scores, metadata: Metadata, recommendations: seq<Advice>)

  /** `score_file`: `None` stands for a path that does not exist. */
  method ScoreFile(path: string, target: Option<ScoredFile>, parse: IsoParser) returns (r: Outcome)
    ensures target.None? ==> r == FileNotFound(path)
    ensures target.Some? ==> (
      && r.Scored?
      && r.metadata == ScorerMetadata(target.value)
      && r.scores == Scores(Completeness(r.metadata), ConsistencyScore(r.metadata),
                            Accuracy(r.metadata, parse), Richness(r.metadata))
      && r.overall == Overall(r.scores)
      && r.recommendations == Recommendations(r.metadata, r.scores))
    ensures r.Scored? ==> 17.75 <= r.overall <= 100.0
  {
    if target.None? {
      return FileNotFound(path);
    }
    var m := ScorerMetadata(target.value);
    var consistency := ScoreConsistency(m);
    var scores := Scores(Completeness(m), consistency, Accuracy(m, parse), Richness(m));
    r := Scored(Overall(scores), scores, m, Recommendations(m, scores));
  }

  datatype Grade = GradeExcellent | GradeGood | NeedsImprovement | Poor

  /** The grade ladder of `format_report`. */
  function GradeOf(score: real): Grade {
    if score >= 90.0 then GradeExcellent
    else if score >= 75.0 then GradeGood
    else if score >= 60.0 then NeedsImprovement
    else Poor
  }

  function GradeRank(g: Grade): nat {
    match g
    case Poor => 0
    case NeedsImprovement => 1
    case GradeGood => 2
    case GradeExcellent => 3
  }

  /** `x` is a whole number of eighths. */
  predicate Eighths(x: real) { (x * 8.0).Floor as real == x * 8.0 }

  /** `y` has at most one decimal place, as `round(x, 1)` gives. */
  predicate OneDecimal(y: real) { (y * 10.0).Floor as real == y * 10.0 }

  /**
   * Every overall score is a whole number of eighths: completeness moves in steps of 12.5,
   * consistency and accuracy in steps of 5, and richness in steps of 10.
   */
  lemma OverallInEighths(m: Metadata, parse: IsoParser)
    ensures Eighths(Overall(Scores(Completeness(m), ConsistencyScore(m), Accuracy(m, parse), Richness(m))))
  {
    var p := PresentCount(m, ScoredFields);
    var c := ConsistencyScore(m);
    var a := Accuracy(m, parse);
    var r := Richness(m);
    ConsistencyInFives(m);
    AccuracyInFives(m, parse);
    RichnessInTens(m);
    var n := 35 * p + 2 * c + 2 * a + 12 * (r / 10);
    assert c == 5 * (c / 5) && a == 5 * (a / 5) && r == 10 * (r / 10);
    assert Overall(Scores(Completeness(m), c, a, r)) * 8.0 == n as real;
  }

  lemma ConsistencyInFives(m: Metadata)
    ensures ConsistencyScore(m) % 5 == 0
  {
    var d := ConsistencyDeduction(m);
    assert d % 5 == 0;
  }

  lemma AccuracyInFives(m: Metadata, parse: IsoParser)
    ensures Accuracy(m, parse) % 5 == 0
  {
    DateLogicSteps(m, parse);
    SumInFives(DateLogicPenalty(m, parse),
      if "size" in m && IsZero(m["size"]) then 20 else 0,
      if "category" in m && IsVagueCategory(m["category"]) then 15 else 0);
  }

  lemma SumInFives(p: int, s: int, c: int)
    requires p in {0, 10, 30} && s in {0, 20} && c in {0, 15}
    ensures (100 - (p + s + c)) % 5 == 0
  {
  }

  lemma DateLogicSteps(m: Metadata, parse: IsoParser)
    ensures DateLogicPenalty(m, parse) in {0, 10, 30}
  {
  }

  lemma RichnessInTens(m: Metadata)
    ensures Richness(m) % 10 == 0
  {
    assert FieldBand(FieldCount(m)) % 10 == 0 && TagBand(m) % 10 == 0 && DescriptionBand(m) % 10 == 0;
  }

  /**
   * Rounding a whole number of eighths to one decimal place never changes its grade: no such
   * number lies in the 0.05 below a threshold, and each threshold has one decimal place.
   */
  lemma RoundingKeepsGrade(x: real, y: real)
    requires Eighths(x) && OneDecimal(y)
    requires x - 0.05 <= y <= x + 0.05
    ensures GradeOf(y) == GradeOf(x)
  {
    var n := (x * 8.0).Floor;
    var k := (y * 10.0).Floor;
    assert x == n as real / 8.0 && y == k as real / 10.0;
    assert 10 * n - 4 <= 8 * k <= 10 * n + 4;
    ThresholdKept(n, k, 720, 900);
    ThresholdKept(n, k, 600, 750);
    ThresholdKept(n, k, 480, 600);
  }

  /** A threshold of `t8` eighths, or `t10` tenths, is passed by both numbers or by neither. */
  lemma ThresholdKept(n: int, k: int, t8: int, t10: int)
    requires 10 * n - 4 <= 8 * k <= 10 * n + 4
    requires 10 * t8 == 8 * t10
    ensures n >= t8 <==> k >= t10
  {
  }

  /**
   * `round(overall, 1)` grades every scored file as the exact overall score does: the model's
   * unrounded grade is the source's.
   */
  lemma RoundedOverallSameGrade(m: Metadata, parse: IsoParser, rounded: real)
    requires OneDecimal(rounded)
    requires var x := Overall(Scores(Completeness(m), ConsistencyScore(m), Accuracy(m, parse), Richness(m)));
      x - 0.05 <= rounded <= x + 0.05
    ensures GradeOf(rounded)
      == GradeOf(Overall(Scores(Completeness(m), ConsistencyScore(m), Accuracy(m, parse), Richness(m))))
  {
    OverallInEighths(m, parse);
    RoundingKeepsGrade(Overall(Scores(Completeness(m), ConsistencyScore(m), Accuracy(m, parse), Richness(m))), rounded);
  }

  /** A higher score never earns a lower grade. */
  lemma GradeMonotone(a: real, b: real)
    requires a <= b
    ensures GradeRank(GradeOf(a)) <= GradeRank(GradeOf(b))
  {
  }

  /** The exit status of `main`: 1 for an error, 0 from 75 up, 2 below. */
  function ExitCode(r: Outcome): int {
    if r.FileNotFound? then 1
    else if r.overall >= 75.0 then 0
    else 2
  }

  /** A scored file exits with 0 exactly when its grade is Good or Excellent. */
  lemma ExitCodeMatchesGrade(r: Outcome)
    requires r.Scored?
    ensures ExitCode(r) == 0 <==> GradeRank(GradeOf(r.overall)) >= 2
    ensures ExitCode(r) == 2 <==> GradeRank(GradeOf(r.overall)) <= 1
  {
  }

  // ---------------------------------------------------------------------------------------
  // Files without embedded metadata

  /**
   * A file that is neither JSON nor Markdown carries only the facts of `stat`: with a name and
   * both timestamps, five of the eight scored fields are missing.
   */
  lemma PlainFileMissing(f: ScoredFile)
    requires Lower(Suffix(f.name)) != ".json" && Lower(Suffix(f.name)) != ".md"
    requires f.name != "" && f.created != "" && f.modified != ""
    ensures MissingFields(ScorerMetadata(f)) == ["id", "category", "tags", "author", "description"]
    ensures Completeness(ScorerMetadata(f)) == 37.5
  {
    var m := ScorerMetadata(f);
    PlainIsBase(f);
    StatFactsMissing(m);
    CompletenessFromMissing(m);
  }

  lemma StatFactsMissing(m: Metadata)
    requires Present(m, "name") && Present(m, "created") && Present(m, "modified")
    requires "id" !in m && "category" !in m && "tags" !in m && "author" !in m && "description" !in m
    ensures MissingFields(m) == ["id", "category", "tags", "author", "description"]
  {
    var fs := ScoredFields;
    StatFactsFront(m);
    assert MissingFrom(m, fs[..5]) == ["id", "category"] by {
      assert fs[..5][..4] == fs[..4];
    }
    assert MissingFrom(m, fs[..6]) == ["id", "category", "tags"] by {
      assert fs[..6][..5] == fs[..5];
    }
    assert MissingFrom(m, fs[..7]) == ["id", "category", "tags", "author"] by {
      assert fs[..7][..6] == fs[..6];
    }
    assert fs == fs[..8] && fs[..8][..7] == fs[..7];
  }

  /** Of the first four scored fields, such a file lacks only the id. */
  lemma StatFactsFront(m: Metadata)
    requires Present(m, "name") && Present(m, "created") && Present(m, "modified")
    requires "id" !in m
    ensures MissingFrom(m, ScoredFields[..4]) == ["id"]
  {
    var fs := ScoredFields;
    assert MissingFrom(m, fs[..1]) == ["id"] by {
      assert fs[..1][..0] == [];
    }
    assert MissingFrom(m, fs[..2]) == ["id"] by {
      assert fs[..2][..1] == fs[..1];
    }
    assert MissingFrom(m, fs[..3]) == ["id"] by {
      assert fs[..3][..2] == fs[..2];
    }
    assert fs[..4][..3] == fs[..3];
  }

  /** Such a file has no tags or description and at most six truthy fields: the lowest richness band. */
  lemma PlainFileRichness(f: ScoredFile)
    requires Lower(Suffix(f.name)) != ".json" && Lower(Suffix(f.name)) != ".md"
    ensures Richness(ScorerMetadata(f)) == 10
  {
    PlainIsBase(f);
    BaseFew(f);
    FewKeysRichness(BaseMetadata(f));
  }

  /** A file that is neither JSON nor Markdown is scored on its file facts alone. */
  lemma PlainIsBase(f: ScoredFile)
    requires Lower(Suffix(f.name)) != ".json" && Lower(Suffix(f.name)) != ".md"
    ensures ScorerMetadata(f) == BaseMetadata(f)
  {
  }

  /** Fewer than eight keys and neither tags nor a description: the lowest richness band. */
  lemma FewKeysRichness(m: Metadata)
    requires |m| < 8 && "tags" !in m && "description" !in m
    ensures Richness(m) == 10
  {
    assert |m.Keys| == |m|;
    var truthy := set k | k in m && Truthy(m[k]);
    SubsetCard(truthy, m.Keys);
  }

  /** The file facts are at most six entries, none of them `tags` or `description`. */
  lemma BaseFew(f: ScoredFile)
    ensures |BaseMetadata(f)| <= 6
    ensures "tags" !in BaseMetadata(f) && "description" !in BaseMetadata(f)
  {
    assert forall x :: x in BaseKeys ==> x[0] != 't' && x[0] != 'd';
  }

  lemma {:induction false} SubsetCard(a: set<string>, b: set<string>)
    requires a <= b
    ensures |a| <= |b|
  {
    if a != {} {
      var x :| x in a;
      SubsetCard(a - {x}, b - {x});
    }
  }
}

/**
 * The metadata faktory: it builds an engram (a metadata record) for an asset, scores how
 * complete it is, and certifies it Gold, Silver, Bronze or Uncertified by that score.
 */
module Faktory {
  import opened Wrappers
  import opened PyStrings
  import opened PyValues
  import opened PyPaths

  const ValidCategories: seq<string> := [
    "Neural_DevOps_Protocol", "Open_Data_Legacy", "Architectures", "Deployments", "User_Guides",
    "Protocols", "Technical_Reports", "unassigned"]

  const Unassigned: string := "unassigned"

  /** The fields whose absence costs 15 points each. */
  const Required: seq<string> := ["id", "name", "path", "category", "created", "modified", "checksum"]

  // ---------------------------------------------------------------------------------------
  // compute_quality_metrics

  /** A required field that costs: absent, falsy, or the string `"unassigned"`. */
  predicate Lacking(m: Metadata, field: string) {
    field !in m || !Truthy(m[field]) || m[field] == Str(Unassigned)
  }

  /** How many of `fields` are lacking. */
  function LackingCount(m: Metadata, fields: seq<string>): (n: nat)
    ensures n <= |fields|
  {
    if fields == [] then 0
    else
      var k := |fields| - 1;
      LackingCount(m, fields[..k]) + (if Lacking(m, fields[k]) then 1 else 0)
  }

  /**
   * `points if m.get(key) and len(m[key]) > 0 else 0`; `None` where `len` raises, which it
   * does for a truthy number or boolean.
   */
  function SizedBonus(m: Metadata, key: string, points: int): (r: Option<int>)
    ensures r.None? <==> Present(m, key) && Len(m[key]).None?
    ensures r.Some? ==> r.value == (if Present(m, key) then points else 0)
  {
    if !Present(m, key) then Some(0)
    else
      match Len(m[key])
      case None => None
      case Some(n) =>
        assert n > 0 by {
          var v := m[key];
          if v.Obj? {
            assert v.fields[0].0 in ObjToMap(v.fields);
          }
        }
        Some(if n > 0 then points else 0)
  }

  function Clamp(score: int): (r: int)
    ensures 0 <= r <= 100
    ensures 0 <= score <= 100 ==> r == score
  {
    if score > 100 then 100 else if score < 0 then 0 else score
  }

  /** The score before clamping: 100, less 15 per lacking field, plus the bonuses. */
  function RawScore(m: Metadata): Option<int> {
    var layer := if Present(m, "sentient_layer") then 10 else 0;
    match SizedBonus(m, "neural_links", 5)
    case None => None
    case Some(links) =>
      match SizedBonus(m, "tags", 5)
      case None => None
      case Some(tags) => Some(100 - 15 * LackingCount(m, Required) + layer + links + tags)
  }

  /** `compute_quality_metrics`; `None` where it raises. */
  function QualityScore(m: Metadata): (r: Option<int>)
    ensures r.Some? ==> 0 <= r.value <= 100
    ensures r.None? <==> (Present(m, "neural_links") && Len(m["neural_links"]).None?)
                         || (Present(m, "tags") && Len(m["tags"]).None?)
  {
    match RawScore(m)
    case None => None
    case Some(s) => Some(Clamp(s))
  }

  /** The loop that charges the lacking fields, then the bonuses, then the clamp. */
  method ComputeQualityMetrics(m: Metadata) returns (r: Option<int>)
    ensures r == QualityScore(m)
  {
    var score := 100;
    var i := 0;
    while i < |Required|
      invariant 0 <= i <= |Required|
      invariant score == 100 - 15 * LackingCount(m, Required[..i])
    {
      var field := Required[i];
      assert Required[..i + 1][..i] == Required[..i];
      if field !in m || !Truthy(m[field]) || m[field] == Str(Unassigned) {
        score := score - 15;
      }
      i := i + 1;
    }
    assert Required[..i] == Required;
    if "sentient_layer" in m && Truthy(m["sentient_layer"]) {
      score := score + 10;
    }
    if "neural_links" in m && Truthy(m["neural_links"]) {
      var n := Len(m["neural_links"]);
      if n.None? {
        return None;
      }
      if n.value > 0 {
        score := score + 5;
      }
    }
    if "tags" in m && Truthy(m["tags"]) {
      var n := Len(m["tags"]);
      if n.None? {
        return None;
      }
      if n.value > 0 {
        score := score + 5;
      }
    }
    return Some(Clamp(score));
  }

  lemma {:induction false} LackingCountFewer(m: Metadata, fields: seq<string>, f: string, v: Value)
    requires Truthy(v) && v != Str(Unassigned)
    ensures LackingCount(m[f := v], fields) <= LackingCount(m, fields)
  {
    if fields != [] {
      LackingCountFewer(m, fields[..|fields| - 1], f, v);
    }
  }

  /** Supplying a required field with a real value never lowers the score. */
  lemma SupplyingFieldNeverLowers(m: Metadata, f: string, v: Value)
    requires f in Required && Truthy(v) && v != Str(Unassigned)
    requires QualityScore(m).Some?
    ensures QualityScore(m[f := v]).Some?
    ensures QualityScore(m[f := v]).value >= QualityScore(m).value
  {
    LackingCountFewer(m, Required, f, v);
    assert SizedBonus(m[f := v], "neural_links", 5) == SizedBonus(m, "neural_links", 5);
    assert SizedBonus(m[f := v], "tags", 5) == SizedBonus(m, "tags", 5);
  }

  /** With every required field real and a sentient layer, the score is 100 whatever else holds. */
  lemma {:induction false} FullRecordScoresHundred(m: Metadata)
    requires forall f :: f in Required ==> !Lacking(m, f)
    requires Present(m, "sentient_layer")
    requires QualityScore(m).Some?
    ensures QualityScore(m) == Some(100)
  {
    NoneLacking(m, Required);
  }

  lemma {:induction false} NoneLacking(m: Metadata, fields: seq<string>)
    requires forall f :: f in fields ==> !Lacking(m, f)
    ensures LackingCount(m, fields) == 0
  {
    if fields != [] {
      NoneLacking(m, fields[..|fields| - 1]);
    }
  }

  // ---------------------------------------------------------------------------------------
  // Certification and category

  datatype Certification = Gold | Silver | Bronze | Uncertified

  /** The certification ladder of `run_faktory_pipeline`. */
  function Certify(score: int): Certification {
    if score >= 95 then Gold
    else if score >= 80 then Silver
    else if score >= 50 then Bronze
    else Uncertified
  }

  function CertRank(c: Certification): nat {
    match c
    case Gold => 3
    case Silver => 2
    case Bronze => 1
    case Uncertified => 0
  }

  /** A higher score never earns a lower certification. */
  lemma CertifyMonotone(a: int, b: int)
    requires a <= b
    ensures CertRank(Certify(a)) <= CertRank(Certify(b))
  {
  }

  function CertName(c: Certification): string {
    match c
    case Gold => "Gold"
    case Silver => "Silver"
    case Bronze => "Bronze"
    case Uncertified => "Uncertified"
  }

  /** The engram's category: the one asked for when it is valid, `"unassigned"` otherwise. */
  function NormalizeCategory(category: string): (r: string)
    ensures r in ValidCategories
    ensures r == category <==> category in ValidCategories
    ensures r != category ==> r == Unassigned
  {
    if category in ValidCategories then category else Unassigned
  }

  // ---------------------------------------------------------------------------------------
  // run_faktory_pipeline

  const DefaultContext: string := "Cognitive ingestion via Jennifer OS."
  const OsName: string := "Titaness Sentient Systems OS - Jennifer"

  /**
   * What the pipeline reads from outside: the file's existence, `os.path.abspath`, a fresh
   * `uuid4` string, the SHA-256 hex digest (`None` where reading fails) and the UTC clock.
   */
  datatype World = World(exists_: bool, absPath: string, guid: string, digest: Option<string>, now: string)

  /** `calculate_integrity_hash`: the upper-cased digest, or the failure marker. */
  function Checksum(digest: Option<string>): string {
    match digest
    case Some(h) => Upper(h)
    case None => "ERROR_CALCULATING"
  }

  /** The engram the pipeline initialises, from the values it has gathered. */
  function EngramRecord(guid: string, name: string, path: string, category: string, timestamp: string,
                        checksum: string, context: string): Metadata {
    map[
      "id" := Str(guid),
      "engram_version" := Str("2.1"),
      "mdec_standards_version" := Str("1.0.0"),
      "origin_vault" := Str("DATA_LEGACY_VAULT_PERSONAL"),
      "name" := Str(name),
      "path" := Str(path),
      "category" := Str(category),
      "created" := Str(timestamp),
      "modified" := Str(timestamp),
      "checksum" := Str(checksum),
      "tags" := List([]),
      "neural_links" := List([]),
      "sentient_layer" := Obj([
        ("os_authority", Str(OsName)),
        ("context", Str(if context != "" then context else DefaultContext)),
        ("legacy_grade", Str("PENDING_VERIFICATION")),
        ("cognitive_flags", List([Str("faktory_processed")])),
        ("sentiment_vector", Null)])]
  }

  /** The engram before scoring, for the asset at `sourcePath`. */
  function Engram(w: World, sourcePath: string, category: string, context: string): Metadata {
    EngramRecord(w.guid, Basename(sourcePath), w.absPath, NormalizeCategory(category), w.now + "Z",
                 Checksum(w.digest), context)
  }

  /** `run_faktory_pipeline`: the scored and certified engram, or `None` for a missing asset. */
  method RunFaktoryPipeline(w: World, sourcePath: string, category: string, context: string)
    returns (r: Option<Metadata>)
    ensures r.None? <==> !w.exists_
    ensures r.Some? ==>
      var e := Engram(w, sourcePath, category, context);
      QualityScore(e).Some?
      && r.value == e["quality_score" := Int(QualityScore(e).value)]
                     ["certification" := Str(CertName(Certify(QualityScore(e).value)))]
  {
    if !w.exists_ {
      return None;
    }
    var engram := Engram(w, sourcePath, category, context);
    var score := ComputeQualityMetrics(engram);
    EngramScored(w, sourcePath, category, context);
    engram := engram["quality_score" := Int(score.value)];
    engram := engram["certification" := Str(CertName(Certify(score.value)))];
    return Some(engram);
  }

  /** Every engram gets a score: its tags and neural links are empty lists, whose length is defined. */
  lemma EngramScored(w: World, sourcePath: string, category: string, context: string)
    ensures QualityScore(Engram(w, sourcePath, category, context)).Some?
  {
    EngramEnrichment(w.guid, Basename(sourcePath), w.absPath, NormalizeCategory(category), w.now + "Z",
                     Checksum(w.digest), context);
  }

  function Indicator(b: bool): nat { if b then 1 else 0 }

  /** The required fields charged one by one. */
  lemma RequiredCharges(m: Metadata)
    ensures LackingCount(m, Required) ==
      Indicator(Lacking(m, "id")) + Indicator(Lacking(m, "name")) + Indicator(Lacking(m, "path"))
      + Indicator(Lacking(m, "category")) + Indicator(Lacking(m, "created"))
      + Indicator(Lacking(m, "modified")) + Indicator(Lacking(m, "checksum"))
  {
    var n := LackingCount(m, []);
    assert Required[..1][..0] == [];
    n := n + Indicator(Lacking(m, "id"));
    assert LackingCount(m, Required[..1]) == n;
    assert Required[..2][..1] == Required[..1];
    n := n + Indicator(Lacking(m, "name"));
    assert LackingCount(m, Required[..2]) == n;
    assert Required[..3][..2] == Required[..2];
    n := n + Indicator(Lacking(m, "path"));
    assert LackingCount(m, Required[..3]) == n;
    assert Required[..4][..3] == Required[..3];
    n := n + Indicator(Lacking(m, "category"));
    assert LackingCount(m, Required[..4]) == n;
    assert Required[..5][..4] == Required[..4];
    n := n + Indicator(Lacking(m, "created"));
    assert LackingCount(m, Required[..5]) == n;
    assert Required[..6][..5] == Required[..5];
    n := n + Indicator(Lacking(m, "modified"));
    assert LackingCount(m, Required[..6]) == n;
    assert Required[..7][..6] == Required[..6];
    n := n + Indicator(Lacking(m, "checksum"));
    assert Required[..7] == Required;
  }

  /** The engram's required fields hold the values gathered for them. */
  lemma EngramRequired(guid: string, name: string, path: string, category: string, timestamp: string,
                       checksum: string, context: string)
    ensures var e := EngramRecord(guid, name, path, category, timestamp, checksum, context);
      && e["id"] == Str(guid) && e["name"] == Str(name) && e["path"] == Str(path)
      && e["category"] == Str(category) && e["created"] == Str(timestamp)
      && e["modified"] == Str(timestamp) && e["checksum"] == Str(checksum)
  {
  }

  /** The engram has a sentient layer, and no tags or neural links yet. */
  lemma EngramEnrichment(guid: string, name: string, path: string, category: string, timestamp: string,
                         checksum: string, context: string)
    ensures var e := EngramRecord(guid, name, path, category, timestamp, checksum, context);
      e["tags"] == List([]) && e["neural_links"] == List([]) && Present(e, "sentient_layer")
  {
  }

  /** An asset name is charged when it is empty or is the literal `unassigned`. */
  predicate NameCharged(sourcePath: string) {
    Basename(sourcePath) == "" || Basename(sourcePath) == Unassigned
  }

  /**
   * Of the engram's required fields, only the name and the category can be lacking, given a
   * GUID and an absolute path that are neither empty nor `unassigned` (a `uuid4` string and an
   * absolute path never are).
   */
  lemma EngramLacking(w: World, sourcePath: string, category: string, context: string)
    requires w.guid != "" && w.guid != Unassigned && w.absPath != "" && w.absPath != Unassigned
    requires w.digest.Some? ==> w.digest.value != ""
    ensures var e := Engram(w, sourcePath, category, context);
      LackingCount(e, Required) ==
        Indicator(NameCharged(sourcePath)) + Indicator(NormalizeCategory(category) == Unassigned)
  {
    var sum := Checksum(w.digest);
    assert sum != "" && sum != Unassigned by {
      if w.digest.Some? {
        assert sum[0] == UpperChar(w.digest.value[0]) != 'u';
      }
    }
    var stamp := w.now + "Z";
    assert stamp != "" && stamp != Unassigned by {
      assert stamp[|stamp| - 1] == 'Z';
    }
    var cat := NormalizeCategory(category);
    assert cat != "" by {
      assert forall c :: c in ValidCategories ==> c != "";
    }
    RecordLacking(w.guid, Basename(sourcePath), w.absPath, cat, stamp, sum, context);
  }

  /** Of a record's required fields only the name and the category can be lacking when the others hold real text. */
  lemma RecordLacking(guid: string, name: string, path: string, category: string, timestamp: string,
                      checksum: string, context: string)
    requires guid != "" && guid != Unassigned && path != "" && path != Unassigned
    requires timestamp != "" && timestamp != Unassigned && checksum != "" && checksum != Unassigned
    requires category != ""
    ensures var e := EngramRecord(guid, name, path, category, timestamp, checksum, context);
      LackingCount(e, Required) ==
        Indicator(name == "" || name == Unassigned) + Indicator(category == Unassigned)
  {
    var e := EngramRecord(guid, name, path, category, timestamp, checksum, context);
    RequiredCharges(e);
    EngramRequired(guid, name, path, category, timestamp, checksum, context);
    TextLacking(e, "id", guid);
    TextLacking(e, "name", name);
    TextLacking(e, "path", path);
    TextLacking(e, "category", category);
    TextLacking(e, "created", timestamp);
    TextLacking(e, "modified", timestamp);
    TextLacking(e, "checksum", checksum);
  }

  /** A text field is lacking exactly when it is empty or reads `unassigned`. */
  lemma TextLacking(m: Metadata, f: string, s: string)
    requires f in m && m[f] == Str(s)
    ensures Lacking(m, f) <==> s == "" || s == Unassigned
  {
  }

  /**
   * The pipeline's own engram scores 100 when its name and category are real, 95 when one of
   * the two is charged, and 80 when both are; so it is Gold unless a charged asset name (a path
   * ending in `/`, or a file called `unassigned`) meets an unassigned category, which makes it
   * Silver.
   */
  lemma EngramScore(w: World, sourcePath: string, category: string, context: string)
    requires w.guid != "" && w.guid != Unassigned && w.absPath != "" && w.absPath != Unassigned
    requires w.digest.Some? ==> w.digest.value != ""
    ensures var e := Engram(w, sourcePath, category, context);
      var nameCharged := NameCharged(sourcePath);
      var unassigned := NormalizeCategory(category) == Unassigned;
      QualityScore(e) == Some(if nameCharged && unassigned then 80
                              else if nameCharged || unassigned then 95
                              else 100)
      && Certify(QualityScore(e).value) == (if nameCharged && unassigned then Silver else Gold)
  {
    var e := Engram(w, sourcePath, category, context);
    EngramLacking(w, sourcePath, category, context);
    EngramEnrichment(w.guid, Basename(sourcePath), w.absPath, NormalizeCategory(category), w.now + "Z",
                     Checksum(w.digest), context);
    assert SizedBonus(e, "neural_links", 5) == Some(0);
    assert SizedBonus(e, "tags", 5) == Some(0);
  }
}

# MdEC metadata tools: a verified model

This project models the rule-based core of six Python tools from the MDEC Consortium / TITANESS
repository. Everything the tools read from outside is taken as a parameter: file contents, the
clock, `uuid4`/`uuid5`, SHA-256 digests and `os.stat` times.

- **Auto-validator** (`MDECAutoValidator`). It covers four things:
  - the suffix filter;
  - the frontmatter reader;
  - the standards check, which reports MISSING_FIELD, INVALID_DATE_FORMAT,
    INVALID_TAGS_FORMAT, GENERIC_CATEGORY and WEAK_ID violations;
  - the fixer, the `stats` counters and the report's `success` flag.

  The validator is a class whose methods update its counters and lists.
- **Quality scorer** (`MDECQualityScorer`): the four sub-scores, the recommendations, the grade
  ladder and the exit status.
- **Duplicate inspector**: the extension-to-category table, the pruned directory walk, the
  category filter, grouping by content hash, and the ranking of groups by their oldest file
  (the primary).
- **Signet minter**:
  - `sanitize_input`;
  - `format_dob`;
  - the dash-joined signet;
  - the M-ID as an opaque name-based UUID of the signet;
  - the insert-if-absent binding in the central ledger.
- **Metadata faktory**: the engram a pipeline run builds, its integer quality score, and its
  certification.
- **Ledger bridge**: the merge of manifest items into the ledger's `entries`, where only new,
  non-empty M-IDs are committed.

Shared modules model Python behaviour the tools rely on:

- `PyStrings`: `str` methods with ASCII case mapping and Unicode `isspace`.
- `PyValues`: JSON values, truthiness, `str()` and `len()`.
- `PyPaths`: `Path.suffix`, `os.path.splitext` and `os.path.basename`.
- `FixedDates`: `strptime` with the fixed-width formats the tools use, and the anchored date
  patterns.
- `PySort`: the stable `sorted`.
- `Frontmatter`: the `key: value` reader, shared by the validator and the scorer.
- `Ledger`: the ledger class, shared by the minter and the bridge.

Loops in the source are `while` loops in methods. Each method is proved against a function
that states what the loop computes. The properties are lemmas about those functions.

One property commonly assumed of the faktory does not hold. It is not true that every engram
the pipeline builds is Gold. A required field equal to the string `unassigned` is charged like
a missing one, and that includes the asset's name. So a file called `unassigned`, or a path
ending in `/`, combined with an invalid or `unassigned` category (`unassigned` is the command
line's default), scores 80 and is certified Silver.
`Faktory.EngramScore` states the exact outcome.

## Model

| member | source | states |
|---|---|---|
| AutoValidator.ShouldValidateIff | MDEC-Consortium/tools/Core/mdec_auto_validator.py:60-63 | a file is validated iff its lower-cased suffix is `.json`, `.md`, `.yaml` or `.yml` |
| AutoValidator.ExtractMetadata | MDEC-Consortium/tools/Core/mdec_auto_validator.py:88-114 | the metadata is the base keys updated by the JSON object or the frontmatter; the base keys always survive |
| Frontmatter.Block | MDEC-Consortium/tools/Core/mdec_auto_validator.py:105-108 | a block exists iff the content starts with `---` and a second `---` follows; it is the text between the first two markers |
| Frontmatter.LineEntry | MDEC-Consortium/tools/Core/mdec_auto_validator.py:109-112 | a line yields an entry iff it holds a colon |
| Frontmatter.LineEntrySplit | MDEC-Consortium/tools/Core/mdec_auto_validator.py:110-112 | a line with a colon is split at its first colon, into the stripped text before it and the stripped text after it |
| Frontmatter.LineEntryRoundTrip | MDEC-Consortium/tools/Core/mdec_auto_validator.py:110-112 | a key without a colon, a colon and any value read back as the stripped key and the stripped value; a colon in the value stays in the value |
| Frontmatter.ReadFrontmatter | MDEC-Consortium/tools/Core/mdec_auto_validator.py:108-112 | the loop sets, line by line, exactly what `WithFrontmatter` describes |
| Frontmatter.KeepsKeys | MDEC-Consortium/tools/Core/mdec_auto_validator.py:109-112 | frontmatter never removes a key |
| Frontmatter.LinesSetKeys | MDEC-Consortium/tools/Core/mdec_auto_validator.py:109-112 | a key is in the result iff it was there before or some line names it |
| Frontmatter.LastLineWins | MDEC-Consortium/tools/Core/mdec_auto_validator.py:109-112 | a key holds the value of the last line that names it |
| Frontmatter.UnnamedKeyKept | MDEC-Consortium/tools/Core/mdec_auto_validator.py:109-112 | a key no line names keeps its old value |
| Frontmatter.FrontmatterValuesAreStripped | MDEC-Consortium/tools/Core/mdec_auto_validator.py:109-112 | a key that some line names, whether new or a base key it overwrites, ends up holding a string with no white space at either end |
| AutoValidator.CheckRequired | MDEC-Consortium/tools/Core/mdec_auto_validator.py:121-131 | the loop reports the MISSING_FIELD records that `MissingFields` lists |
| AutoValidator.MissingFieldsExact | MDEC-Consortium/tools/Core/mdec_auto_validator.py:121-131 | a fixable MISSING_FIELD record is reported iff a listed field is absent or falsy |
| AutoValidator.CheckDates | MDEC-Consortium/tools/Core/mdec_auto_validator.py:134-147 | the loop reports the INVALID_DATE_FORMAT records that `DateViolations` lists |
| AutoValidator.DateViolationsExact | MDEC-Consortium/tools/Core/mdec_auto_validator.py:134-147 | INVALID_DATE_FORMAT is reported iff a date field is present and its `str()` does not start with an ISO 8601 date-time |
| AutoValidator.CheckStandards | MDEC-Consortium/tools/Core/mdec_auto_validator.py:116-189 | the reports are the five checks' records, in the source's order |
| AutoValidator.FrontReports | MDEC-Consortium/tools/Core/mdec_auto_validator.py:121-147 | required-field and date records name the file and are fixable |
| AutoValidator.ReportsFixable | MDEC-Consortium/tools/Core/mdec_auto_validator.py:116-189 | every record names the file, and it is fixable iff it is not GENERIC_CATEGORY |
| AutoValidator.TagsReported | MDEC-Consortium/tools/Core/mdec_auto_validator.py:150-160 | INVALID_TAGS_FORMAT appears iff `tags` is present and is not a list |
| AutoValidator.GenericReported | MDEC-Consortium/tools/Core/mdec_auto_validator.py:163-173 | GENERIC_CATEGORY appears iff the lower-cased category text is one of the six generic words |
| AutoValidator.WeakIdReported | MDEC-Consortium/tools/Core/mdec_auto_validator.py:176-187 | WEAK_ID appears iff the id's text is shorter than 5 characters |
| AutoValidator.FixableCount | MDEC-Consortium/tools/Core/mdec_auto_validator.py:199-201 | every report on a readable file is counted, and the fixable count excludes only GENERIC_CATEGORY |
| AutoValidator.InferredIsSpecific | MDEC-Consortium/tools/Core/mdec_auto_validator.py:292-305 | an inferred category is truthy and never generic |
| AutoValidator.NormalizedIsIso | MDEC-Consortium/tools/Core/mdec_auto_validator.py:273-290 | given an ISO clock, a normalised date always passes `_is_iso8601` |
| AutoValidator.NormalizeKeepsIsoDay | MDEC-Consortium/tools/Core/mdec_auto_validator.py:278-286 | a valid `YYYY-MM-DD` date becomes the same day at midnight |
| AutoValidator.SplitTags | MDEC-Consortium/tools/Core/mdec_auto_validator.py:227-228 | a string `tags` becomes the list of its comma-separated parts, each stripped |
| AutoValidator.ApplyFix | MDEC-Consortium/tools/Core/mdec_auto_validator.py:199-235 | a fix writes only its own key, and a non-fixable violation changes nothing |
| AutoValidator.NotesMatchCount | MDEC-Consortium/tools/Core/mdec_auto_validator.py:216-239 | one `fixes_applied` line per fixable violation, so the list and the counter agree |
| AutoValidator.FixedUntouched | MDEC-Consortium/tools/Core/mdec_auto_validator.py:199-235 | a key no fix writes keeps its value |
| AutoValidator.MissingFixed | MDEC-Consortium/tools/Core/mdec_auto_validator.py:205-216 | after the MISSING_FIELD fixes each listed field holds its old value or the filler |
| AutoValidator.DatesFixed | MDEC-Consortium/tools/Core/mdec_auto_validator.py:218-222 | after the date fixes every date field reads as ISO 8601 |
| AutoValidator.IsoIsString | MDEC-Consortium/tools/Core/mdec_auto_validator.py:134-138 | only a string value can pass the date check |
| AutoValidator.RequiredFilled | MDEC-Consortium/tools/Core/mdec_auto_validator.py:205-216 | after the required-field fixes all four fields are filled |
| AutoValidator.FrontFixed | MDEC-Consortium/tools/Core/mdec_auto_validator.py:205-222 | after the required-field and date fixes both dates are good and `id` and `category` are filled |
| AutoValidator.FixedStages | MDEC-Consortium/tools/Core/mdec_auto_validator.py:199-235 | applying all fixes is applying each check's fixes in turn |
| AutoValidator.BackFixed | MDEC-Consortium/tools/Core/mdec_auto_validator.py:224-235 | what the tags and id fixes leave behind |
| AutoValidator.OnlyTagsAndCategory | MDEC-Consortium/tools/Core/mdec_auto_validator.py:116-189 | on metadata whose required fields, dates and id are in order, only tags and category can be reported |
| AutoValidator.TagsRemaining | MDEC-Consortium/tools/Core/mdec_auto_validator.py:150-160 | after the tags fix a tags report remains only for a value that is neither a list nor a string |
| AutoValidator.CategoryRemaining | MDEC-Consortium/tools/Core/mdec_auto_validator.py:163-173 | after the category fix a category report remains only for a category that was present and generic |
| AutoValidator.FixesConverge | MDEC-Consortium/tools/Core/mdec_auto_validator.py:191-240 | validating the fixed metadata again finds at most a `tags` value that is neither a list nor a string, and a category that was already present and generic |
| AutoValidator.UnreadableKeepsSuccess | MDEC-Consortium/tools/Core/mdec_auto_validator.py:80-86 | a file that fails to be read counts as checked but adds no violation count and leaves `success` unchanged |
| AutoValidator.CheckOnlyFails | MDEC-Consortium/tools/Core/mdec_auto_validator.py:319-320 | in check-only mode any violation makes the run fail |
| AutoValidator.FixModeSucceeds | MDEC-Consortium/tools/Core/mdec_auto_validator.py:319-320 | in fix mode any fixable violation makes the run succeed |
| AutoValidator.FixOne | MDEC-Consortium/tools/Core/mdec_auto_validator.py:199-235 | one loop step gives the metadata `ApplyFix` describes and the line for a fixable violation |
| AutoValidator.Validator.ApplyFixes | MDEC-Consortium/tools/Core/mdec_auto_validator.py:191-240 | the metadata to write is the fixed one iff some violation is fixable; the counters and the note list grow by the fixable count and by one file |
| AutoValidator.Validator.RecordFailure | MDEC-Consortium/tools/Core/mdec_auto_validator.py:67-86 | an unreadable file adds one ERROR record and one checked file |
| AutoValidator.Validator.RecordChecked | MDEC-Consortium/tools/Core/mdec_auto_validator.py:67-78 | a checked file adds its violations to the list and the counters, and applies fixes in fix mode |
| AutoValidator.Validator.ValidateFile | MDEC-Consortium/tools/Core/mdec_auto_validator.py:65-86 | the new counters, violation list and fix list are those of `Tally`, `FileReports` and `FileNotes` |
| AutoValidator.Validator.ValidateTree | MDEC-Consortium/tools/Core/mdec_auto_validator.py:53-56 | the tree loop validates exactly the files whose suffix passes the filter, in order |
| AutoValidator.Validator.ValidatePath | MDEC-Consortium/tools/Core/mdec_auto_validator.py:43-58 | a missing path gives the error report; a file is validated whatever its suffix; the report's `success` is the source's predicate |
| FixedDates.Parse | MDEC-Consortium/tools/Core/mdec_auto_validator.py:278-283 | a parsed date is valid and the text has the format's layout |
| FixedDates.ParseFirst | MDEC-Consortium/tools/Core/mdec_auto_validator.py:278-283 | a date is found iff some format parses |
| FixedDates.ShapesExclusive | MDEC-Consortium/tools/Core/mdec_auto_validator.py:278 | two formats accept the same text only in the case of `%m-%d-%Y` and `%d-%m-%Y` |
| DatePatterns.TrailingTextAllowed | MDEC-Consortium/tools/Core/mdec_auto_validator.py:307-310 | text after the matched prefix never matters |
| DatePatterns.DateTimeHasDate | MDEC-Consortium/tools/Core/mdec_quality_scorer.py:27-30 | every date-time prefix starts with a date prefix |
| DatePatterns.NonStringNeverMatches | MDEC-Consortium/tools/Core/mdec_auto_validator.py:137-138 | the `str()` of a non-string value never matches a date pattern |
| DatePatterns.IsoMidnightMatches | MDEC-Consortium/tools/Core/mdec_auto_validator.py:285-286 | `isoformat() + 'Z'` of a parsed date is a full ISO 8601 date-time |
| QualityScorer.ScorerMetadata | MDEC-Consortium/tools/Core/mdec_quality_scorer.py:63-104 | the stat keys always survive the JSON or frontmatter update |
| QualityScorer.Completeness | MDEC-Consortium/tools/Core/mdec_quality_scorer.py:106-110 | completeness lies in [0, 100] |
| QualityScorer.CompletenessFromMissing | MDEC-Consortium/tools/Core/mdec_quality_scorer.py:106-110 | completeness is 100 less 12.5 per missing field |
| QualityScorer.MissingExact | MDEC-Consortium/tools/Core/mdec_quality_scorer.py:210 | a field is listed missing iff it is required and absent or falsy |
| QualityScorer.MissingComplementsPresent | MDEC-Consortium/tools/Core/mdec_quality_scorer.py:108-110 | every field is counted present or listed missing, never both |
| QualityScorer.MissingInOrder | MDEC-Consortium/tools/Core/mdec_quality_scorer.py:210 | the missing list keeps the declaration order |
| QualityScorer.DateLikeIsDatePrefix | MDEC-Consortium/tools/Core/mdec_quality_scorer.py:27-30 | the date-time pattern adds nothing: the date prefix alone decides |
| QualityScorer.ScoreConsistency | MDEC-Consortium/tools/Core/mdec_quality_scorer.py:112-138 | the loop computes `ConsistencyScore`, which lies in [30, 100] |
| QualityScorer.ConsistencyPerfectIff | MDEC-Consortium/tools/Core/mdec_quality_scorer.py:112-138 | consistency is 100 iff no date is bad, the id is not simple and `tags` is a list or absent |
| QualityScorer.NumericIdIsSimple | MDEC-Consortium/tools/Core/mdec_quality_scorer.py:128-131 | a non-negative integer id is always too simple |
| QualityScorer.Accuracy | MDEC-Consortium/tools/Core/mdec_quality_scorer.py:140-166 | accuracy is 100 less the deductions, and lies in [35, 100] |
| QualityScorer.AccuracyPerfectIff | MDEC-Consortium/tools/Core/mdec_quality_scorer.py:140-166 | accuracy is 100 iff the dates are in order, the size is not zero and the category is specific |
| QualityScorer.DateLogicOrder | MDEC-Consortium/tools/Core/mdec_quality_scorer.py:145-153 | for comparable dates the penalty is 0 iff modified is not before created, and 30 iff it is |
| QualityScorer.Richness | MDEC-Consortium/tools/Core/mdec_quality_scorer.py:168-203 | richness is the sum of the three bands and lies in [10, 100] |
| QualityScorer.FieldBandMonotone | MDEC-Consortium/tools/Core/mdec_quality_scorer.py:172-180 | more truthy fields never lower the field band |
| QualityScorer.RichnessNeedsTwoCriteria | MDEC-Consortium/tools/Core/mdec_quality_scorer.py:168-203 | richness of 60 or more needs two of: eight or more truthy fields, tags, a description |
| QualityScorer.Recommendations | MDEC-Consortium/tools/Core/mdec_quality_scorer.py:205-231 | the recommendation list is never empty |
| QualityScorer.ExcellentIff | MDEC-Consortium/tools/Core/mdec_quality_scorer.py:209-229 | "Excellent" appears iff every score meets its threshold, and then it is the only entry |
| QualityScorer.MissingAdviceIff | MDEC-Consortium/tools/Core/mdec_quality_scorer.py:209-211 | the missing-field advice names the missing fields, and appears iff two or more are missing |
| QualityScorer.SingleInconsistencyNotAdvised | MDEC-Consortium/tools/Core/mdec_quality_scorer.py:213-216 | one consistency problem alone brings no consistency advice |
| QualityScorer.GenericWordNotAdvised | MDEC-Consortium/tools/Core/mdec_quality_scorer.py:218-221 | a generic word of three or more letters never gets the replace-category advice |
| QualityScorer.ScoreFile | MDEC-Consortium/tools/Core/mdec_quality_scorer.py:32-61 | a missing file gives the error; otherwise the four scores, the weighted overall score (in [17.75, 100]) and the recommendations |
| QualityScorer.OverallInEighths | MDEC-Consortium/tools/Core/mdec_quality_scorer.py:46-52 | every overall score a file can get is a whole number of eighths |
| QualityScorer.RoundingKeepsGrade | MDEC-Consortium/tools/Core/mdec_quality_scorer.py:241-252 | rounding a whole number of eighths to one decimal place never moves it across the 90, 75 or 60 threshold |
| QualityScorer.RoundedOverallSameGrade | MDEC-Consortium/tools/Core/mdec_quality_scorer.py:56 | `round(overall, 1)` earns the same grade as the exact overall score, for every scored file |
| QualityScorer.GradeMonotone | MDEC-Consortium/tools/Core/mdec_quality_scorer.py:244-252 | a higher score never earns a lower grade |
| QualityScorer.ExitCodeMatchesGrade | MDEC-Consortium/tools/Core/mdec_quality_scorer.py:300-305 | a scored file exits 0 iff its grade is Good or Excellent, otherwise 2 |
| QualityScorer.PlainFileMissing | MDEC-Consortium/tools/Core/mdec_quality_scorer.py:63-110 | a file that is neither JSON nor Markdown misses five fields and scores 37.5 completeness |
| QualityScorer.PlainFileRichness | MDEC-Consortium/tools/Core/mdec_quality_scorer.py:168-203 | such a file has the lowest richness, 10 |
| PySort.SortBy | tools/Core/TITANESS_MdEC_Inspector.py:167 | sorting is a permutation |
| PySort.SortSorted | tools/Core/TITANESS_MdEC_Inspector.py:167 | the result of sorting is in ascending key order |
| PySort.SortKeepsTies | tools/Core/TITANESS_MdEC_Inspector.py:167 | the sort is stable: equal keys keep their order |
| PySort.SortedFirstIsLeast | tools/Core/TITANESS_MdEC_Inspector.py:167-168 | the first sorted element has the smallest key |
| Inspector.ExtMapDisjoint | tools/Core/TITANESS_MdEC_Inspector.py:33-43 | no extension is listed under two categories |
| Inspector.ExtMapCategories | tools/Core/TITANESS_MdEC_Inspector.py:19-43 | every table key is a distinct category other than `09` |
| Inspector.FirstListingFinds | tools/Core/TITANESS_MdEC_Inspector.py:69-71 | the lookup finds a category iff some table lists the extension, and the category it finds lists it |
| Inspector.CategoryOfSpec | tools/Core/TITANESS_MdEC_Inspector.py:66-74 | the category is a key of `CATEGORIES`, and it is not `09` iff some table lists the lower-cased extension |
| Inspector.GetFileCategory | tools/Core/TITANESS_MdEC_Inspector.py:66-74 | the lookup loop returns `CategoryOf` |
| Inspector.CategoryIgnoresCase | tools/Core/TITANESS_MdEC_Inspector.py:68 | the lookup ignores case |
| Inspector.KeepIsEquality | tools/Core/TITANESS_MdEC_Inspector.py:104-108 | the special `09` branch keeps exactly the files plain equality keeps |
| Inspector.ChosenTarget | tools/Core/TITANESS_MdEC_Inspector.py:205-214 | `ALL` stops the run; any other choice is a category, and the one typed when it is valid |
| Inspector.Prune | tools/Core/TITANESS_MdEC_Inspector.py:93-95 | the pruned listing holds exactly the subdirectories not called `node_modules`, `.git` or `venv` |
| Inspector.WalkSkipsPruned | tools/Core/TITANESS_MdEC_Inspector.py:91-97 | no file found by the walk lies below a pruned directory |
| Inspector.GroupingValid | tools/Core/TITANESS_MdEC_Inspector.py:130-133 | grouping yields distinct keys, each with a non-empty list |
| Inspector.GroupingLists | tools/Core/TITANESS_MdEC_Inspector.py:130-133 | each group lists exactly the files with its hash, in discovery order |
| Inspector.GroupingKeys | tools/Core/TITANESS_MdEC_Inspector.py:130-133 | a hash is a key iff some kept file has it |
| Inspector.GroupingTotal | tools/Core/TITANESS_MdEC_Inspector.py:130-135 | the group sizes add up to the number of kept files |
| Inspector.AppendFile | tools/Core/TITANESS_MdEC_Inspector.py:130-133 | a file joins the end of its hash's list, and a new hash opens a group at the end of the key order |
| Inspector.ScanFiles | tools/Core/TITANESS_MdEC_Inspector.py:97-135 | the loop builds the grouping of the kept files and counts them |
| Inspector.ScanWorkspace | tools/Core/TITANESS_MdEC_Inspector.py:76-144 | the scan groups the files of the pruned walk that match the target |
| Inspector.ScanCountsEveryFile | tools/Core/TITANESS_MdEC_Inspector.py:130-135 | `file_count` equals the sum of the group sizes |
| Inspector.KeptMatchTarget | tools/Core/TITANESS_MdEC_Inspector.py:102-120 | every kept file has the target category and a non-empty hash |
| Inspector.RankGroupSpec | tools/Core/TITANESS_MdEC_Inspector.py:164-169 | a group's files are sorted and its primary has the smallest `created` |
| Inspector.RankGroups | tools/Core/TITANESS_MdEC_Inspector.py:164-169 | the loop ranks every group in key order |
| Inspector.ShowTop | tools/Core/TITANESS_MdEC_Inspector.py:174-193 | the display stops after at most 50 groups |
| Inspector.AnalyzeResults | tools/Core/TITANESS_MdEC_Inspector.py:146-193 | totals, unique count, redundant copies, the global ranking and the groups shown |
| Inspector.DuplicateCount | tools/Core/TITANESS_MdEC_Inspector.py:154-156 | redundant copies are never negative, and are zero iff every group has one file |
| Inspector.RankingOrdered | tools/Core/TITANESS_MdEC_Inspector.py:171-172 | the global list is sorted by primary time and is a permutation of the groups |
| Inspector.RankingEntries | tools/Core/TITANESS_MdEC_Inspector.py:164-172 | each ranked entry is a real group whose files are a permutation of it, with the oldest first |
| Inspector.RankingKeepsTies | tools/Core/TITANESS_MdEC_Inspector.py:171-172 | groups whose primaries tie keep their discovery order |
| Inspector.GroupKeepsTies | tools/Core/TITANESS_MdEC_Inspector.py:167 | files created at the same time keep their order |
| SignetMinter.KeepAllowed | removed_algorithms_backup/TITANESS_Signet_Minter.py:31 | only letters, digits, white space and `-` survive, and nothing is added |
| SignetMinter.DashSpaces | removed_algorithms_backup/TITANESS_Signet_Minter.py:32 | no white space remains; every character is `-` or one of the input's |
| SignetMinter.DashSpacesRun | removed_algorithms_backup/TITANESS_Signet_Minter.py:32 | a whole run of white space, however long, before a word becomes a single `-` |
| SignetMinter.DashSpacesWord | removed_algorithms_backup/TITANESS_Signet_Minter.py:32 | text without white space passes through unchanged, whatever follows it |
| SignetMinter.StripDash | removed_algorithms_backup/TITANESS_Signet_Minter.py:33 | no `-` at either end, and nothing is added |
| SignetMinter.Sanitize | removed_algorithms_backup/TITANESS_Signet_Minter.py:26-33 | the output holds only ASCII letters, digits and `-`, with no `-` at either end |
| SignetMinter.SanitizeKeepsAlnum | removed_algorithms_backup/TITANESS_Signet_Minter.py:26-33 | with the dashes removed, the output is exactly the input's letters and digits in order |
| SignetMinter.SanitizeIdempotent | removed_algorithms_backup/TITANESS_Signet_Minter.py:26-33 | sanitising twice is sanitising once |
| SignetMinter.SanitizeJoinsWords | removed_algorithms_backup/TITANESS_Signet_Minter.py:26-33 | two words of letters and digits separated by any mix of white space and commas come out joined by exactly one `-` |
| SignetMinter.SanitizedFixed | removed_algorithms_backup/TITANESS_Signet_Minter.py:26-33 | a text of letters, digits and inner dashes passes through every stage unchanged |
| SignetMinter.FormatDob | removed_algorithms_backup/TITANESS_Signet_Minter.py:35-48 | a date is produced iff one of the four formats parses |
| SignetMinter.IsoDobReordered | removed_algorithms_backup/TITANESS_Signet_Minter.py:39-42 | a valid `YYYY-MM-DD` becomes `MM-DD-YYYY` with the same digits |
| SignetMinter.MonthDayYearReadBack | removed_algorithms_backup/TITANESS_Signet_Minter.py:39-42 | the output reads back as the same date under `%m-%d-%Y` and never under `%Y-%m-%d` |
| SignetMinter.FormatDobFixed | removed_algorithms_backup/TITANESS_Signet_Minter.py:35-48 | formatting an already formatted date changes nothing |
| SignetMinter.CapitalizePartsIsTitle | removed_algorithms_backup/TITANESS_Signet_Minter.py:57-59 | the vocation's split-capitalize-join upper-cases each first letter after a `-` and lower-cases the rest |
| SignetMinter.MintSignet | removed_algorithms_backup/TITANESS_Signet_Minter.py:50-65 | a signet exists iff the date of birth parses |
| SignetMinter.SignetParts | removed_algorithms_backup/TITANESS_Signet_Minter.py:50-65 | the signet is name, date, epoch, title-cased vocation and upper-cased origin, joined by `-` |
| SignetMinter.SignetCharset | removed_algorithms_backup/TITANESS_Signet_Minter.py:50-65 | the signet holds only ASCII letters, digits and `-` |
| SignetMinter.Mint | removed_algorithms_backup/TITANESS_Signet_Minter.py:67-82 | an M-ID is minted iff the date parses; it comes with the signet and is the name-based UUID of that signet in the MDEC namespace |
| SignetMinter.SameSignetSameMid | removed_algorithms_backup/TITANESS_Signet_Minter.py:67-82 | a date and its `MM-DD-YYYY` form, or commas and spaces in the vocation, give the same signet and M-ID |
| SignetMinter.MintAndBind | removed_algorithms_backup/TITANESS_Signet_Minter.py:110-158 | a bad date is rejected; a bound M-ID reports its entry and changes nothing; a new one is bound to the payload; a binding run keeps every entry of the ledger file with its value |
| Ledger.Bind | removed_algorithms_backup/TITANESS_Signet_Minter.py:139-154 | an existing entry is kept, a new M-ID gets the payload, every old entry survives, and the ledger grows by one at most |
| Ledger.BindOnce | removed_algorithms_backup/TITANESS_Signet_Minter.py:139-154 | binding an M-ID again changes nothing |
| Ledger.CentralLedger.Register | removed_algorithms_backup/TITANESS_Signet_Minter.py:139-154 | the entries become `Bind` of the old ones, and the existing entry is reported |
| Ledger.MinterOpen | removed_algorithms_backup/TITANESS_Signet_Minter.py:127-136 | a missing or unreadable ledger starts fresh, with empty entries; a document opens iff it holds an `entries` object, and then with exactly those entries and its other top-level keys |
| Faktory.QualityScore | tools/titaness_metadata_faktory.py:48-65 | the score lies in [0, 100]; it is undefined only where `len` raises on a bonus field |
| Faktory.ComputeQualityMetrics | tools/titaness_metadata_faktory.py:48-65 | the loop charges 15 per lacking field, adds the bonuses and clamps, as `QualityScore` states |
| Faktory.SupplyingFieldNeverLowers | tools/titaness_metadata_faktory.py:56-58 | filling a required field never lowers the score |
| Faktory.FullRecordScoresHundred | tools/titaness_metadata_faktory.py:52-65 | all seven fields real and a sentient layer give 100 |
| Faktory.CertifyMonotone | tools/titaness_metadata_faktory.py:108-111 | a higher score never earns a lower certification |
| Faktory.NormalizeCategory | tools/titaness_metadata_faktory.py:27-31 | the category is kept iff it is valid, and otherwise becomes `unassigned` |
| Faktory.RunFaktoryPipeline | tools/titaness_metadata_faktory.py:67-119 | a missing asset is an error; otherwise the engram gets its score and certification |
| Faktory.EngramScore | tools/titaness_metadata_faktory.py:76-111 | the engram scores 100, 95 or 80 by how many of name and category are charged, and is Gold unless both are |
| Bridge.LedgerParts | tools/Core/TITANESS_Bridge_Ingest_to_Ledger.py:90-91 | a ledger without `entries` gets an empty map; one holding an `entries` object keeps exactly those entries and its other top-level keys; any other document fails |
| Bridge.ManifestValues | tools/Core/TITANESS_Bridge_Ingest_to_Ledger.py:81-97 | an empty manifest stops the run; a list gives exactly its own items, and anything else is a single item |
| Bridge.EntryFields | tools/Core/TITANESS_Bridge_Ingest_to_Ledger.py:103-108 | an entry maps `signet_creator`, `generated_at` and `relative_path`, with the fixed provenance |
| Bridge.MergeKeepsOld | tools/Core/TITANESS_Bridge_Ingest_to_Ledger.py:99-111 | existing entries are never changed |
| Bridge.MergeKeys | tools/Core/TITANESS_Bridge_Ingest_to_Ledger.py:99-111 | a key is in the merged ledger iff it was there or some item carries it as a non-empty M-ID |
| Bridge.SeenIsBound | tools/Core/TITANESS_Bridge_Ingest_to_Ledger.py:99-111 | every non-empty M-ID seen ends up bound |
| Bridge.MergeCommitsFirstNew | tools/Core/TITANESS_Bridge_Ingest_to_Ledger.py:99-111 | the processed list holds exactly the items that are the first carrying a new M-ID, in manifest order |
| Bridge.FirstItemWins | tools/Core/TITANESS_Bridge_Ingest_to_Ledger.py:99-111 | for an M-ID repeated in one manifest, the first item's entry is committed |
| Bridge.MergeGrowth | tools/Core/TITANESS_Bridge_Ingest_to_Ledger.py:86-111 | the ledger grows by exactly the number of processed items |
| Bridge.MergeItems | tools/Core/TITANESS_Bridge_Ingest_to_Ledger.py:99-111 | the loop commits what `Merged` describes, and the counter equals the processed list's length |
| Bridge.ItemsOf | tools/Core/TITANESS_Bridge_Ingest_to_Ledger.py:99-100 | the items are read iff every one is an object with a string or falsy M-ID |
| Bridge.RunBridge | tools/Core/TITANESS_Bridge_Ingest_to_Ledger.py:72-118 | no manifest ends the run; otherwise the ledger is merged and committed, or the run fails where Python raises; a committed run keeps every entry of the ledger file with its value |

## Left out

- Console output, HTML and JSON report formatting, and writing files back are not modelled. This covers `_write_metadata`, the `.mdec_backup` copy, `json.dump`, `save_json` and `generate_html_report`. In fix mode, `Validator.ApplyFixes`, `Validator.RecordChecked` and `Validator.ValidateFile` return the metadata `_write_metadata` would write. `Visit`, `ValidateTree` and `ValidatePath` discard it, so a directory or path run exposes no written metadata.
- The following are not modelled either:
  - the watch loop with `sleep`;
  - `argparse` and interactive `input`;
  - the `sys.exit` in `format_dob`, which is modelled as `None`.
- I/O and system calls are parameters:
  - reading files and parsing JSON;
  - `os.walk` and `rglob`, given as the tree or file list they would yield;
  - `os.stat`, the clocks, `uuid4`, `uuid5` and SHA-256.
  
  `fromisoformat` is an opaque parser whose results carry an awareness flag and an order.
- The JSON objects in the ledger and engram are maps. The key order of a dumped file is therefore not modelled.
- QualityScorer.Overall: the weighted average is exact rational arithmetic, and the grade and the exit code use it unrounded rather than `round(overall, 1)`. By QualityScorer.RoundedOverallSameGrade, the grade is still the same. Floating-point error in the weighted sum itself is not modelled.
- FixedDates.Parse: `strptime` is modelled only for fixed-width, zero-padded fields. Python also accepts one-digit months and days, which the model rejects. It also reads ASCII digits only, where Python's `strptime` accepts any Unicode decimal digit.
- DatePatterns.MatchesPrefix: `\d` in the date patterns is read as an ASCII digit `0`-`9`. Python's `re.match` without `re.ASCII` accepts any Unicode decimal digit. Both the validator's `_is_iso8601` and the scorer's `date_formats` are affected.
- AutoValidator.DateViolationsExact: by the line above, a date written in, say, Arabic-Indic digits passes the source's check but is reported here, and fix mode replaces it with a normalised date.
- PyStrings.IsDigits: `isdigit` is read as ASCII `0`-`9` only. Python also accepts other Unicode digits.
- QualityScorer.IsSimpleId: by the line above, an id such as `"١٢٣٤٥"` costs 15 consistency points in Python and none here. `strptime` on such digits falls under the FixedDates.Parse line.
- PyValues.Value: JSON numbers are integers in the model; there is no float. Python's `json.load` gives a float for a number with a fraction or an exponent. For such a value the source's outcome depends on Python's float rules, none of which is modelled: `0.0` is falsy, a short `str()` such as `1.5` makes a weak id, `size == 0` holds for `0.0`, and `len()` raises on a truthy float.
- PyStrings.Lower: case mapping covers ASCII letters only, as do `upper` and `capitalize`. `isspace` is the full Unicode white-space set.
- PyPaths.Basename: uses `/` as the only separator, as on POSIX.
- Inspector.RankGroup: returns the sorted copy of a group rather than sorting `found_files` lists in place. The display reads only that copy, so what is shown is the same.
- Inspector.ScanFiles: the walk supplies each file's `os.stat` result and digest, with `None` where the call fails. Such a file, like one with an empty digest, is skipped, as the source's `continue` does.
- Bridge.ItemsOf: an item must be an object whose `m-id` is a string or falsy. Python also commits an item whose truthy `m-id` is a number or `true`, with that value as the key, and `json.dump` writes the key as text (`"42"`, `"true"`). The model treats such an item as a failed run. Only a list or object `m-id` makes Python raise, as it cannot be hashed. A manifest item that is not an object makes Python raise at `item.get`, as in the model.
- Bridge.LedgerParts: a ledger whose `entries` is not an object, such as `[]` or `null`, is a failed run in the model. Python raises there only when some item has a truthy `m-id`, since `mid and ...` stops before the lookup otherwise. With no such item, Python saves the ledger unchanged and ends normally. A ledger document that is not an object also fails in the model. Python raises there at `ledger["entries"] = {}`, unless the document already holds `entries` as a list element or substring; it then behaves like the case above.
- Bridge.RunBridge: the model reports every failure above before any change, while Python raises partway through the loop. Nothing is saved when Python raises.
- Ledger.MinterOpen: a ledger document that is not an object, or whose `entries` is not an object, is an error. Python would raise there too, at a later point.
- SignetMinter.MintAndBind: the `['signet']` that the "memory exists" message prints is not modelled. When the bound entry is not an object holding `signet`, that lookup makes Python raise inside `main`'s `except Exception`, and the program exits with status 1. The model reports `AlreadyBound` with the entry instead.
- PyValues.Repr: it differs from Python's `str()` of a list or object. It escapes nothing, always uses single quotes, even for a string holding `'`, and shows a duplicated object key once per occurrence where `json.load` keeps the last. The length of `str(v)` decides the validator's WEAK_ID check and the scorer's simple-id test, so these can differ for such values.
- AutoValidator.Validator: a run reads the clock and draws the `uuid4` filler once (`env`). The source calls `utcnow()` and `uuid4()` again at each fix. In the model, two files that both lack an `id` therefore get the same filler, and all fixes carry the same time.

/**
 * The MdEC inspector: it walks a workspace, keeps the files of one universal category,
 * groups them by content hash to find copies, and ranks the groups by the creation time of
 * their oldest file (the primary).
 */
module Inspector {
  import opened Wrappers
  import opened PyStrings
  import opened PyPaths
  import opened PySort

  // ---------------------------------------------------------------------------------------
  // Categories and extensions

  /** Category ids with their extension lists, in the order the lookup tries them. */
  type ExtTable = seq<(string, seq<string>)>

  const Categories: map<string, string> := map[
    "01" := "Documents", "02" := "Media", "03" := "Data", "04" := "Code", "05" := "Archives",
    "06" := "Assets", "07" := "Communications", "08" := "References", "09" := "Uncategorized",
    "99" := "System"]

  /** The inspector's extension table. */
  const ExtMap: ExtTable := [
    ("01", [".txt", ".md", ".pdf", ".doc", ".docx", ".epub", ".h", ".c"]),
    ("02", [".jpg", ".png", ".gif", ".mp4", ".wav", ".mp3", ".flac"]),
    ("03", [".json", ".csv", ".xml", ".yaml", ".sql"]),
    ("04", [".py", ".js", ".ts", ".ps1", ".sh", ".bat", ".html", ".css"]),
    ("05", [".zip", ".tar", ".gz", ".rar", ".7z", ".iso"]),
    ("06", [".psd", ".ai", ".obj", ".fbx", ".blend", ".unitypackage"]),
    ("07", [".eml", ".msg", ".vcf"]),
    ("08", [".lnk", ".url"]),
    ("99", [".dll", ".sys", ".dat", ".db", ".exe", ".bin"])]

  const Uncategorized: string := "09"

  /** No extension is listed under two categories. */
  lemma ExtMapDisjoint()
    ensures forall a, b, e :: 0 <= a < b < |ExtMap| && e in ExtMap[a].1 ==> e !in ExtMap[b].1
  {
    DocumentsApart(); MediaApart(); DataApart(); CodeApart();
    ArchivesApart(); AssetsApart(); CommunicationsApart(); ReferencesApart();
  }

  // One lemma per row of the table: none of its extensions appears in a later row.

  lemma DocumentsApart()
    ensures forall b, e :: 0 < b < |ExtMap| && e in ExtMap[0].1 ==> e !in ExtMap[b].1
  {
  }

  lemma MediaApart()
    ensures forall b, e :: 1 < b < |ExtMap| && e in ExtMap[1].1 ==> e !in ExtMap[b].1
  {
  }

  lemma DataApart()
    ensures forall b, e :: 2 < b < |ExtMap| && e in ExtMap[2].1 ==> e !in ExtMap[b].1
  {
  }

  lemma CodeApart()
    ensures forall b, e :: 3 < b < |ExtMap| && e in ExtMap[3].1 ==> e !in ExtMap[b].1
  {
  }

  lemma ArchivesApart()
    ensures forall b, e :: 4 < b < |ExtMap| && e in ExtMap[4].1 ==> e !in ExtMap[b].1
  {
  }

  lemma AssetsApart()
    ensures forall b, e :: 5 < b < |ExtMap| && e in ExtMap[5].1 ==> e !in ExtMap[b].1
  {
  }

  lemma CommunicationsApart()
    ensures forall b, e :: 6 < b < |ExtMap| && e in ExtMap[6].1 ==> e !in ExtMap[b].1
  {
  }

  lemma ReferencesApart()
    ensures forall b, e :: 7 < b < |ExtMap| && e in ExtMap[7].1 ==> e !in ExtMap[b].1
  {
  }

  /** Every listed category is one of the universal categories, and none is listed twice. */
  lemma ExtMapCategories()
    ensures forall a :: 0 <= a < |ExtMap| ==> ExtMap[a].0 in Categories && ExtMap[a].0 != Uncategorized
    ensures forall a, b :: 0 <= a < b < |ExtMap| ==> ExtMap[a].0 != ExtMap[b].0
  {
  }

  /** The category of the first list holding `ext`. */
  function FirstListing(ext: string, tables: ExtTable): Option<string> {
    if tables == [] then None
    else if ext in tables[0].1 then Some(tables[0].0)
    else FirstListing(ext, tables[1..])
  }

  lemma {:induction false} FirstListingFinds(ext: string, tables: ExtTable)
    ensures FirstListing(ext, tables).Some? <==> exists a :: 0 <= a < |tables| && ext in tables[a].1
    ensures FirstListing(ext, tables).Some? ==>
      exists a :: 0 <= a < |tables| && ext in tables[a].1 && tables[a].0 == FirstListing(ext, tables).value
  {
    if tables != [] && ext !in tables[0].1 {
      FirstListingFinds(ext, tables[1..]);
      assert forall a :: 1 <= a < |tables| ==> tables[a] == tables[1..][a - 1];
    }
  }

  /** `get_file_category`: the first list holding the lower-cased extension, else "09". */
  function CategoryOf(extension: string): string {
    match FirstListing(Lower(extension), ExtMap)
    case Some(id) => id
    case None => Uncategorized
  }

  /** The category is a known one, and it is not "09" exactly when some list holds the extension. */
  lemma CategoryOfSpec(extension: string)
    ensures CategoryOf(extension) in Categories
    ensures CategoryOf(extension) != Uncategorized <==> exists a :: 0 <= a < |ExtMap| && Lower(extension) in ExtMap[a].1
  {
    ExtMapCategories();
    FirstListingFinds(Lower(extension), ExtMap);
  }

  /** The lookup loop of `get_file_category`. */
  method GetFileCategory(extension: string) returns (id: string)
    ensures id == CategoryOf(extension)
  {
    var ext := Lower(extension);
    var i := 0;
    while i < |ExtMap|
      invariant 0 <= i <= |ExtMap|
      invariant FirstListing(ext, ExtMap) == FirstListing(ext, ExtMap[i..])
    {
      if ext in ExtMap[i].1 {
        return ExtMap[i].0;
      }
      assert ExtMap[i..][1..] == ExtMap[i + 1..];
      i := i + 1;
    }
    return Uncategorized;
  }

  lemma LowerTwice(s: string)
    ensures Lower(Lower(s)) == Lower(s)
  {
  }

  /** The lookup ignores case. */
  lemma CategoryIgnoresCase(extension: string)
    ensures CategoryOf(Lower(extension)) == CategoryOf(extension)
  {
    LowerTwice(extension);
  }

  /** The category filter of `scan_workspace`, with its separate branch for "09". */
  predicate KeepCategory(current: string, target: string) {
    if target == Uncategorized then current == Uncategorized else current == target
  }

  /** The separate branch for "09" changes nothing: a file is kept iff its category is the target. */
  lemma KeepIsEquality(current: string, target: string)
    ensures KeepCategory(current, target) <==> current == target
  {
  }

  /** The target `main` scans for: `None` for "ALL", an unknown choice falls back to "09". */
  function ChosenTarget(input: string): (target: Option<string>)
    ensures target.None? <==> Upper(Strip(input)) == "ALL"
    ensures target.Some? ==> target.value in Categories
    ensures target.Some? && Strip(input) in Categories ==> target.value == Strip(input)
  {
    var choice := Strip(input);
    if Upper(choice) == "ALL" then None
    else if choice in Categories then Some(choice)
    else Some(Uncategorized)
  }

  // ---------------------------------------------------------------------------------------
  // The walk

  /** What `os.stat` reports: the two timestamps (as ordered instants) and the size. */
  datatype Stat = Stat(created: int, modified: int, size: nat)

  /**
   * A file met by the walk: `stat` is `None` when it raises, `hash` is `None` when reading the
   * file for its SHA-256 fails.
   */
  datatype FileEntry = FileEntry(name: string, stat: Option<Stat>, hash: Option<string>)

  /** A directory with its files and sub-directories, each in the order the walk lists them. */
  datatype Dir = Dir(name: string, files: seq<FileEntry>, subdirs: seq<Dir>)

  /** A file found by the walk, with the names of the directories that lead to it. */
  datatype Located = Located(dirs: seq<string>, file: FileEntry)

  const Pruned: set<string> := {"node_modules", ".git", "venv"}

  /** The sub-directories the walk descends into. */
  function Prune(ds: seq<Dir>): (r: seq<Dir>)
    ensures |r| <= |ds|
    ensures forall x :: x in r <==> x in ds && x.name !in Pruned
  {
    if ds == [] then []
    else
      var last := ds[|ds| - 1];
      assert ds == ds[..|ds| - 1] + [last];
      Prune(ds[..|ds| - 1]) + (if last.name in Pruned then [] else [last])
  }

  function FilesHere(files: seq<FileEntry>, here: seq<string>): (r: seq<Located>)
    ensures |r| == |files|
    ensures forall i :: 0 <= i < |r| ==> r[i] == Located(here, files[i])
  {
    seq(|files|, i requires 0 <= i < |files| => Located(here, files[i]))
  }

  /** `os.walk(root)` top-down: a directory's files, then the walk of each kept sub-directory. */
  function Walk(d: Dir, parent: seq<string>): seq<Located>
    decreases d, |d.subdirs| + 1
  {
    var here := parent + [d.name];
    FilesHere(d.files, here) + WalkEach(d, Prune(d.subdirs), here)
  }

  function WalkEach(d: Dir, ds: seq<Dir>, here: seq<string>): seq<Located>
    requires |ds| <= |d.subdirs|
    requires forall x :: x in ds ==> x in d.subdirs
    decreases d, |ds|
  {
    if ds == [] then []
    else
      var last := ds[|ds| - 1];
      assert last in d.subdirs;
      WalkEach(d, ds[..|ds| - 1], here) + Walk(last, here)
  }

  /** Every file lies below the walked directory, and never inside a pruned directory below it. */
  lemma {:induction false} WalkSkipsPruned(d: Dir, parent: seq<string>)
    ensures forall l :: l in Walk(d, parent) ==>
      |l.dirs| > |parent| && l.dirs[..|parent| + 1] == parent + [d.name]
      && forall k :: |parent| < k < |l.dirs| ==> l.dirs[k] !in Pruned
    decreases d, |d.subdirs| + 1
  {
    var here := parent + [d.name];
    WalkEachSkipsPruned(d, Prune(d.subdirs), here);
    forall l | l in Walk(d, parent)
      ensures |l.dirs| > |parent| && l.dirs[..|parent| + 1] == here
      ensures forall k :: |parent| < k < |l.dirs| ==> l.dirs[k] !in Pruned
    {
      if l in FilesHere(d.files, here) {
        assert l.dirs == here;
      } else {
        assert l in WalkEach(d, Prune(d.subdirs), here);
      }
    }
  }

  lemma {:induction false} WalkEachSkipsPruned(d: Dir, ds: seq<Dir>, here: seq<string>)
    requires |ds| <= |d.subdirs|
    requires forall x :: x in ds ==> x in d.subdirs && x.name !in Pruned
    requires |here| > 0 && here[|here| - 1] == d.name
    ensures forall l :: l in WalkEach(d, ds, here) ==>
      |l.dirs| > |here| && l.dirs[..|here|] == here
      && forall k :: |here| - 1 < k < |l.dirs| ==> l.dirs[k] !in Pruned
    decreases d, |ds|
  {
    if ds != [] {
      var last := ds[|ds| - 1];
      WalkEachSkipsPruned(d, ds[..|ds| - 1], here);
      WalkSkipsPruned(last, here);
      forall l | l in Walk(last, here)
        ensures |l.dirs| > |here| && l.dirs[..|here|] == here
        ensures forall k :: |here| - 1 < k < |l.dirs| ==> l.dirs[k] !in Pruned
      {
        assert l.dirs[..|here| + 1] == here + [last.name];
        assert l.dirs[..|here|] == l.dirs[..|here| + 1][..|here|];
        assert l.dirs[|here|] == last.name;
      }
    }
  }

  // ---------------------------------------------------------------------------------------
  // Grouping by hash

  /** The record kept for a matching file; `path` is the list of names `os.path.join` joins. */
  datatype FileInfo = FileInfo(path: seq<string>, name: string, created: int, modified: int, size: nat)

  /** `found_files`: the hashes in insertion order, and the list of files under each. */
  datatype Groups = Groups(keys: seq<string>, lists: map<string, seq<FileInfo>>)

  /** Whether a walked file is kept, and under which hash. */
  function Match(l: Located, target: string): Option<(string, FileInfo)> {
    var f := l.file;
    if KeepCategory(CategoryOf(SplitExtension(f.name)), target)
       && f.stat.Some? && f.hash.Some? && f.hash.value != "" then
      Some((f.hash.value, FileInfo(l.dirs + [f.name], f.name, f.stat.value.created,
                                   f.stat.value.modified, f.stat.value.size)))
    else None
  }

  /** The kept files, with their hashes, in the order the walk meets them. */
  function Kept(ls: seq<Located>, target: string): seq<(string, FileInfo)> {
    if ls == [] then []
    else
      var m := Match(ls[|ls| - 1], target);
      Kept(ls[..|ls| - 1], target) + (if m.Some? then [m.value] else [])
  }

  /** `found_files[h].append(info)`, or a new list when `h` is new. */
  function AddFile(g: Groups, h: string, info: FileInfo): Groups {
    if h in g.lists then Groups(g.keys, g.lists[h := g.lists[h] + [info]])
    else Groups(g.keys + [h], g.lists[h := [info]])
  }

  function Grouping(items: seq<(string, FileInfo)>): Groups {
    if items == [] then Groups([], map[])
    else
      var last := items[|items| - 1];
      AddFile(Grouping(items[..|items| - 1]), last.0, last.1)
  }

  /** The files of `items` with hash `h`, in order. */
  function WithHash(items: seq<(string, FileInfo)>, h: string): seq<FileInfo> {
    if items == [] then []
    else
      var last := items[|items| - 1];
      WithHash(items[..|items| - 1], h) + (if last.0 == h then [last.1] else [])
  }

  /** The hashes are listed once each, exactly the keys of the map, and no list is empty. */
  predicate GroupsValid(g: Groups) {
    (forall i, j :: 0 <= i < j < |g.keys| ==> g.keys[i] != g.keys[j])
    && (forall h :: h in g.keys ==> h in g.lists)
    && (forall h :: h in g.lists ==> h in g.keys && g.lists[h] != [])
  }

  /** `sum(len(v) for v in found_files.values())`. */
  function SumSizes(keys: seq<string>, lists: map<string, seq<FileInfo>>): nat
    requires forall h :: h in keys ==> h in lists
  {
    if keys == [] then 0
    else SumSizes(keys[..|keys| - 1], lists) + |lists[keys[|keys| - 1]]|
  }

  function TotalFiles(g: Groups): nat
    requires GroupsValid(g)
  {
    SumSizes(g.keys, g.lists)
  }

  lemma {:induction false} SumIgnores(keys: seq<string>, lists: map<string, seq<FileInfo>>, h: string, v: seq<FileInfo>)
    requires forall k :: k in keys ==> k in lists
    requires h !in keys
    ensures SumSizes(keys, lists[h := v]) == SumSizes(keys, lists)
  {
    if keys != [] {
      SumIgnores(keys[..|keys| - 1], lists, h, v);
    }
  }

  lemma {:induction false} SumGrows(keys: seq<string>, lists: map<string, seq<FileInfo>>, h: string, x: FileInfo)
    requires forall k :: k in keys ==> k in lists
    requires forall i, j :: 0 <= i < j < |keys| ==> keys[i] != keys[j]
    requires h in keys
    ensures SumSizes(keys, lists[h := lists[h] + [x]]) == SumSizes(keys, lists) + 1
  {
    var n := |keys| - 1;
    var p := keys[..n];
    if keys[n] == h {
      assert h !in p;
      SumIgnores(p, lists, h, lists[h] + [x]);
    } else {
      assert h in p;
      SumGrows(p, lists, h, x);
    }
  }

  /** Grouping lists each hash once, with a non-empty list. */
  lemma {:induction false} GroupingValid(items: seq<(string, FileInfo)>)
    ensures GroupsValid(Grouping(items))
  {
    if items != [] {
      GroupingValid(items[..|items| - 1]);
    }
  }

  /** The list under a hash holds exactly the files with that hash, in the order they were met. */
  lemma {:induction false} GroupingLists(items: seq<(string, FileInfo)>)
    ensures forall h :: h in Grouping(items).lists ==> Grouping(items).lists[h] == WithHash(items, h)
  {
    if items != [] {
      var n := |items| - 1;
      var last := items[n];
      var g := Grouping(items[..n]);
      GroupingLists(items[..n]);
      GroupingKeys(items[..n]);
      forall h | h in Grouping(items).lists
        ensures Grouping(items).lists[h] == WithHash(items, h)
      {
        if h != last.0 {
          assert h in g.lists;
        } else if h !in g.lists {
          assert WithHash(items[..n], h) == [] by {
            WithHashEmpty(items[..n], h);
          }
        }
      }
    }
  }

  lemma {:induction false} WithHashEmpty(items: seq<(string, FileInfo)>, h: string)
    requires forall i :: 0 <= i < |items| ==> items[i].0 != h
    ensures WithHash(items, h) == []
  {
    if items != [] {
      WithHashEmpty(items[..|items| - 1], h);
    }
  }

  /** A hash has a group iff some kept file has that hash. */
  lemma {:induction false} GroupingKeys(items: seq<(string, FileInfo)>)
    ensures forall h :: h in Grouping(items).lists <==> exists i :: 0 <= i < |items| && items[i].0 == h
  {
    if items != [] {
      var n := |items| - 1;
      var p := items[..n];
      GroupingKeys(p);
      forall h
        ensures h in Grouping(items).lists <==> exists i :: 0 <= i < |items| && items[i].0 == h
      {
        if h in Grouping(p).lists {
          var i :| 0 <= i < |p| && p[i].0 == h;
          assert items[i].0 == h;
        }
        if exists i :: 0 <= i < |items| && items[i].0 == h {
          var i :| 0 <= i < |items| && items[i].0 == h;
          if i < n {
            assert p[i].0 == h;
          }
        }
      }
    }
  }

  /** The groups together hold every kept file once. */
  lemma {:induction false} GroupingTotal(items: seq<(string, FileInfo)>)
    ensures GroupsValid(Grouping(items)) && TotalFiles(Grouping(items)) == |items|
  {
    GroupingValid(items);
    if items != [] {
      var n := |items| - 1;
      var last := items[n];
      var g := Grouping(items[..n]);
      GroupingTotal(items[..n]);
      if last.0 in g.lists {
        SumGrows(g.keys, g.lists, last.0, last.1);
      } else {
        SumIgnores(g.keys, g.lists, last.0, [last.1]);
      }
    }
  }

  /** One more walked file either adds one kept file to the groups or changes nothing. */
  lemma KeptStep(entries: seq<Located>, i: nat, target: string)
    requires i < |entries|
    ensures var m := Match(entries[i], target);
      Kept(entries[..i + 1], target) == Kept(entries[..i], target) + (if m.Some? then [m.value] else [])
  {
    assert entries[..i + 1][..i] == entries[..i];
  }

  lemma GroupingStep(items: seq<(string, FileInfo)>, h: string, info: FileInfo)
    ensures Grouping(items + [(h, info)]) == AddFile(Grouping(items), h, info)
  {
    assert (items + [(h, info)])[..|items|] == items;
  }

  /** The `os.walk` loop of `scan_workspace`: keep, hash and group the files of the target category. */
  method ScanWorkspace(root: Dir, target: string) returns (found: Groups, fileCount: nat)
    ensures found == Grouping(Kept(Walk(root, []), target))
    ensures fileCount == |Kept(Walk(root, []), target)|
  {
    found, fileCount := ScanFiles(Walk(root, []), target);
  }

  /** The body of the walk loop for one file: its category, then its stat and hash. */
  method MatchFile(l: Located, target: string) returns (m: Option<(string, FileInfo)>)
    ensures m == Match(l, target)
  {
    var file := l.file;
    var category := GetFileCategory(SplitExtension(file.name));
    if KeepCategory(category, target) && file.stat.Some? && file.hash.Some? && file.hash.value != "" {
      var info := FileInfo(l.dirs + [file.name], file.name, file.stat.value.created,
                           file.stat.value.modified, file.stat.value.size);
      return Some((file.hash.value, info));
    }
    return None;
  }

  /** `found_files[f_hash].append(file_info)`, or a new list for a hash not seen before. */
  method AppendFile(found: Groups, h: string, info: FileInfo) returns (g: Groups)
    ensures g == AddFile(found, h, info)
  {
    if h in found.lists {
      g := found.(lists := found.lists[h := found.lists[h] + [info]]);
    } else {
      g := Groups(found.keys + [h], found.lists[h := [info]]);
    }
  }

  /** The loop over the files the walk yields, classifying each by `table`. */
  method ScanFiles(entries: seq<Located>, target: string) returns (found: Groups, fileCount: nat)
    ensures found == Grouping(Kept(entries, target))
    ensures fileCount == |Kept(entries, target)|
  {
    found := Groups([], map[]);
    fileCount := 0;
    ghost var items: seq<(string, FileInfo)> := [];
    var i := 0;
    while i < |entries|
      invariant 0 <= i <= |entries|
      invariant items == Kept(entries[..i], target)
      invariant found == Grouping(items) && fileCount == |items|
    {
      var m := MatchFile(entries[i], target);
      KeptStep(entries, i, target);
      if m.Some? {
        var h, info := m.value.0, m.value.1;
        GroupingStep(items, h, info);
        found := AppendFile(found, h, info);
        fileCount := fileCount + 1;
        items := items + [(h, info)];
      }
      i := i + 1;
    }
    assert entries[..i] == entries;
  }

  /** The scan's counter equals the number of files in all groups. */
  lemma ScanCountsEveryFile(root: Dir, target: string)
    ensures var items := Kept(Walk(root, []), target);
      GroupsValid(Grouping(items)) && TotalFiles(Grouping(items)) == |items|
  {
    GroupingTotal(Kept(Walk(root, []), target));
  }

  /** Only files of the target category, with a stat and a non-empty hash, are kept. */
  lemma {:induction false} KeptMatchTarget(ls: seq<Located>, target: string)
    ensures forall k :: 0 <= k < |Kept(ls, target)| ==>
      var item := Kept(ls, target)[k];
      CategoryOf(SplitExtension(item.1.name)) == target && item.0 != ""
  {
    if ls != [] {
      KeptMatchTarget(ls[..|ls| - 1], target);
    }
  }

  // ---------------------------------------------------------------------------------------
  // Ranking

  /** An entry of `sorted_hashes`: the primary's creation time, the hash, and the sorted files. */
  datatype Ranked = Ranked(created: int, hash: string, files: seq<FileInfo>)

  function CreatedOf(f: FileInfo): int { f.created }
  function RankOf(r: Ranked): int { r.created }

  /** One group, its files sorted oldest first; the first of them is the primary. */
  function RankGroup(h: string, files: seq<FileInfo>): Ranked
    requires files != []
  {
    var sorted := SortBy(files, CreatedOf);
    Ranked(sorted[0].created, h, sorted)
  }

  /** The ranked group holds the sorted files, and its primary is the oldest of them. */
  lemma RankGroupSpec(h: string, files: seq<FileInfo>)
    requires files != []
    ensures var r := RankGroup(h, files);
      && r.hash == h && r.files == SortBy(files, CreatedOf) && r.files != []
      && r.created == r.files[0].created
      && forall x :: x in files ==> r.created <= x.created
  {
    SortedFirstIsLeast(files, CreatedOf);
  }

  /** The groups in `found_files` order, each with its primary. */
  function Primaries(keys: seq<string>, lists: map<string, seq<FileInfo>>): (r: seq<Ranked>)
    requires forall h :: h in keys ==> h in lists && lists[h] != []
    ensures |r| == |keys|
    ensures forall i :: 0 <= i < |r| ==> r[i] == RankGroup(keys[i], lists[keys[i]])
  {
    if keys == [] then []
    else
      var n := |keys| - 1;
      assert forall h :: h in keys[..n] ==> h in keys;
      Primaries(keys[..n], lists) + [RankGroup(keys[n], lists[keys[n]])]
  }

  /** `sorted_hashes` after its sort by the primary's creation time. */
  function Ranking(g: Groups): seq<Ranked>
    requires GroupsValid(g)
  {
    SortBy(Primaries(g.keys, g.lists), RankOf)
  }

  function Min(a: int, b: int): int { if a < b then a else b }

  datatype Analysis = Analysis(totalFiles: nat, unique: nat, duplicates: int, ranking: seq<Ranked>, shown: seq<Ranked>)

  lemma PrimariesStep(keys: seq<string>, lists: map<string, seq<FileInfo>>, i: nat)
    requires forall h :: h in keys ==> h in lists && lists[h] != []
    requires i < |keys|
    ensures Primaries(keys[..i + 1], lists) == Primaries(keys[..i], lists) + [RankGroup(keys[i], lists[keys[i]])]
  {
    assert keys[..i + 1][..i] == keys[..i];
  }

  /** The loop of `analyze_results` that sorts each group and records its primary. */
  method RankGroups(g: Groups) returns (ranked: seq<Ranked>)
    requires GroupsValid(g)
    ensures ranked == Primaries(g.keys, g.lists)
  {
    ranked := [];
    var i := 0;
    while i < |g.keys|
      invariant 0 <= i <= |g.keys|
      invariant ranked == Primaries(g.keys[..i], g.lists)
    {
      var h := g.keys[i];
      var files := SortBy(g.lists[h], CreatedOf);
      SortedFirstIsLeast(g.lists[h], CreatedOf);
      assert Ranked(files[0].created, h, files) == RankGroup(h, g.lists[h]);
      PrimariesStep(g.keys, g.lists, i);
      ranked := ranked + [Ranked(files[0].created, h, files)];
      i := i + 1;
    }
    assert g.keys[..i] == g.keys;
  }

  /** The report loop: it lists the groups in order and stops once it has listed 50. */
  method ShowTop(ranked: seq<Ranked>) returns (shown: seq<Ranked>)
    ensures shown == ranked[..Min(50, |ranked|)]
  {
    shown := [];
    var count := 0;
    var j := 0;
    while j < |ranked|
      invariant 0 <= j <= |ranked| && j < 50
      invariant count == j && shown == ranked[..j]
    {
      count := count + 1;
      shown := shown + [ranked[j]];
      assert ranked[..j + 1] == ranked[..j] + [ranked[j]];
      j := j + 1;
      if count >= 50 {
        break;
      }
    }
  }

  /** `analyze_results`: the counts, the ranking, and the groups the report lists. */
  method AnalyzeResults(g: Groups) returns (a: Analysis)
    requires GroupsValid(g)
    ensures a.totalFiles == TotalFiles(g) && a.unique == |g.keys|
    ensures a.duplicates == a.totalFiles - a.unique
    ensures a.ranking == Ranking(g)
    ensures a.shown == a.ranking[..Min(50, |a.ranking|)]
  {
    var totalUnique := |g.keys|;
    var totalFiles := TotalFiles(g);
    var ranked := RankGroups(g);
    ranked := SortBy(ranked, RankOf);
    var shown := ShowTop(ranked);
    a := Analysis(totalFiles, totalUnique, totalFiles - totalUnique, ranked, shown);
  }

  /** Copies = files − groups, never negative, and zero exactly when no hash has two files. */
  lemma {:induction false} DuplicateCount(keys: seq<string>, lists: map<string, seq<FileInfo>>)
    requires forall h :: h in keys ==> h in lists && lists[h] != []
    ensures SumSizes(keys, lists) >= |keys|
    ensures SumSizes(keys, lists) == |keys| <==> forall h :: h in keys ==> |lists[h]| == 1
  {
    if keys != [] {
      var n := |keys| - 1;
      DuplicateCount(keys[..n], lists);
      assert forall h :: h in keys <==> h in keys[..n] || h == keys[n];
    }
  }

  /** The ranking is sorted oldest primary first and is a permutation of the groups. */
  lemma RankingOrdered(g: Groups)
    requires GroupsValid(g)
    ensures SortedBy(Ranking(g), RankOf)
    ensures multiset(Ranking(g)) == multiset(Primaries(g.keys, g.lists))
  {
    SortSorted(Primaries(g.keys, g.lists), RankOf);
  }

  /** Each entry of the ranking holds one group's files sorted oldest first, led by the oldest. */
  lemma RankingEntries(g: Groups)
    requires GroupsValid(g)
    ensures forall r :: r in Ranking(g) ==>
      r.hash in g.lists && multiset(r.files) == multiset(g.lists[r.hash])
      && r.files != [] && r.created == r.files[0].created
      && (forall x :: x in r.files ==> r.created <= x.created)
  {
    forall r | r in Ranking(g)
      ensures r.hash in g.lists && multiset(r.files) == multiset(g.lists[r.hash])
      ensures r.files != [] && r.created == r.files[0].created
      ensures forall x :: x in r.files ==> r.created <= x.created
    {
      var i := RankedFrom(g, r);
      PrimaryEntry(g.keys[i], g.lists[g.keys[i]], r);
    }
  }

  /** Each entry of the ranking is the primary of one of the groups. */
  lemma RankedFrom(g: Groups, r: Ranked) returns (i: nat)
    requires GroupsValid(g) && r in Ranking(g)
    ensures i < |g.keys| && r == RankGroup(g.keys[i], g.lists[g.keys[i]])
  {
    var ps := Primaries(g.keys, g.lists);
    RankingOrdered(g);
    assert r in multiset(Ranking(g));
    assert r in multiset(ps);
    i :| 0 <= i < |ps| && ps[i] == r;
  }

  lemma PrimaryEntry(h: string, files: seq<FileInfo>, r: Ranked)
    requires files != [] && r == RankGroup(h, files)
    ensures multiset(r.files) == multiset(files)
    ensures forall x :: x in r.files ==> r.created <= x.created
  {
    RankGroupSpec(h, files);
    forall x | x in r.files
      ensures r.created <= x.created
    {
      assert x in multiset(r.files);
      assert x in multiset(files);
    }
  }

  /** Groups whose primaries are equally old keep the order of `found_files`, as the sort is stable. */
  lemma RankingKeepsTies(g: Groups, t: int)
    requires GroupsValid(g)
    ensures WithKey(Ranking(g), RankOf, t) == WithKey(Primaries(g.keys, g.lists), RankOf, t)
  {
    SortKeepsTies(Primaries(g.keys, g.lists), RankOf, t);
  }

  /** Files of one group created at the same time keep the order in which the walk met them. */
  lemma GroupKeepsTies(h: string, files: seq<FileInfo>, t: int)
    requires files != []
    ensures WithKey(RankGroup(h, files).files, CreatedOf, t) == WithKey(files, CreatedOf, t)
  {
    SortKeepsTies(files, CreatedOf, t);
  }
}

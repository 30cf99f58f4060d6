/**
 * The ingest-to-ledger bridge: it reads the ingestion manifest and commits each item with a
 * new M-ID to the central ledger, never touching an entry that is already there.
 */
module Bridge {
  import opened Wrappers
  import opened PyValues
  import opened Ledger

  /** A manifest item: a JSON object's fields. */
  type Item = seq<(string, Value)>

  const Provenance: string := "TITANESS_INGESTION_WORKER"

  // ---------------------------------------------------------------------------------------
  // Loading

  /** `load_json`: `{}` for a missing file, the document otherwise; `None` where `json.load` raises. */
  function LoadJson(stored: Stored): Option<Value> {
    match stored
    case Missing => Some(Obj([]))
    case Broken => None
    case Loaded(doc) => Some(doc)
  }

  /**
   * The ledger's parts once `entries` is ensured: a document without `entries` gets an empty
   * one. `None` where the document is not an object or its `entries` is not an object.
   */
  function LedgerParts(doc: Value): (r: Option<(map<string, Value>, map<string, Value>)>)
    ensures doc.Obj? && "entries" !in ObjToMap(doc.fields) ==> r == Some((ObjToMap(doc.fields), map[]))
    ensures FileEntries(doc).Some? ==> r == Some((ObjToMap(doc.fields) - {"entries"}, FileEntries(doc).value))
    ensures r.Some? ==> doc.Obj? && "entries" !in r.value.0
    ensures r.Some? <==> doc.Obj? && ("entries" !in ObjToMap(doc.fields) || FileEntries(doc).Some?)
  {
    if !doc.Obj? then None
    else
      var top := ObjToMap(doc.fields);
      if "entries" !in top then Some((top, map[]))
      else if top["entries"].Obj? then Some((top - {"entries"}, ObjToMap(top["entries"].fields)))
      else None
  }

  /** The manifest's items: a list is its elements, any other value one item; `None` when it is empty. */
  function ManifestValues(manifest: Value): (r: Option<seq<Value>>)
    ensures r.None? <==> !Truthy(manifest)
    ensures r.Some? && manifest.List? ==> r.value == manifest.items
    ensures r.Some? && !manifest.List? ==> r.value == [manifest]
    ensures r.Some? ==> r.value != []
  {
    if !Truthy(manifest) then None
    else if manifest.List? then Some(manifest.items)
    else Some([manifest])
  }

  /** The item's M-ID, when it has a truthy one. */
  function MidOf(item: Item): Option<string> {
    var v := Get(item, "m-id");
    if v.Str? && v.s != "" then Some(v.s) else None
  }

  /** Items the model reads: objects whose `m-id` is a string or falsy. */
  predicate Readable(v: Value) {
    v.Obj? && (Get(v.fields, "m-id").Str? || !Truthy(Get(v.fields, "m-id")))
  }

  /** The ledger record for a committed item. */
  function EntryOf(item: Item): Value {
    Obj([("signet", Get(item, "signet_creator")), ("timestamp", Get(item, "generated_at")),
         ("file_ref", Get(item, "relative_path")), ("provenance", Str(Provenance))])
  }

  /**
   * A committed record has exactly four keys: the item's `signet_creator`, `generated_at` and
   * `relative_path` as `signet`, `timestamp` and `file_ref`, and the fixed provenance tag.
   */
  lemma EntryFields(item: Item)
    ensures EntryOf(item).Obj?
    ensures ObjToMap(EntryOf(item).fields) == map[
      "signet" := Get(item, "signet_creator"), "timestamp" := Get(item, "generated_at"),
      "file_ref" := Get(item, "relative_path"), "provenance" := Str(Provenance)]
  {
    var fs := EntryOf(item).fields;
    assert fs[..1][..0] == [];
    assert ObjToMap(fs[..1]) == map["signet" := fs[0].1];
    assert fs[..2][..1] == fs[..1];
    assert ObjToMap(fs[..2]) == map["signet" := fs[0].1, "timestamp" := fs[1].1];
    assert fs[..3][..2] == fs[..2];
    assert ObjToMap(fs[..3]) == map["signet" := fs[0].1, "timestamp" := fs[1].1, "file_ref" := fs[2].1];
    assert fs[..4] == fs;
  }

  // ---------------------------------------------------------------------------------------
  // The merge

  /** Item `i` is committed: its M-ID is truthy, not in the ledger, and no earlier item had it. */
  predicate FirstNew(entries: map<string, Value>, items: seq<Item>, i: int)
    requires 0 <= i < |items|
  {
    MidOf(items[i]).Some? && MidOf(items[i]).value !in entries
    && forall j :: 0 <= j < i ==> MidOf(items[j]) != MidOf(items[i])
  }

  /** The committed items, in manifest order. */
  function NewItems(entries: map<string, Value>, items: seq<Item>): seq<Item> {
    if items == [] then []
    else
      var n := |items| - 1;
      NewItems(entries, items[..n]) + (if FirstNew(entries, items, n) then [items[n]] else [])
  }

  /** The entries and the processed list after the loop has seen `items`. */
  function Merged(entries: map<string, Value>, items: seq<Item>): (map<string, Value>, seq<Item>) {
    if items == [] then (entries, [])
    else
      var n := |items| - 1;
      var (e, p) := Merged(entries, items[..n]);
      var mid := MidOf(items[n]);
      if mid.Some? && mid.value !in e then (e[mid.value := EntryOf(items[n])], p + [items[n]])
      else (e, p)
  }

  /** The ledger's entries come through the merge unchanged. */
  lemma {:induction false} MergeKeepsOld(entries: map<string, Value>, items: seq<Item>)
    ensures forall k :: k in entries ==> k in Merged(entries, items).0 && Merged(entries, items).0[k] == entries[k]
  {
    if items != [] {
      MergeKeepsOld(entries, items[..|items| - 1]);
    }
  }

  /** Some item carries the M-ID `k`. */
  predicate Carries(items: seq<Item>, k: string) {
    exists i :: 0 <= i < |items| && MidOf(items[i]) == Some(k)
  }

  lemma CarriesSnoc(items: seq<Item>, k: string)
    requires items != []
    ensures Carries(items, k) <==> Carries(items[..|items| - 1], k) || MidOf(items[|items| - 1]) == Some(k)
  {
    var n := |items| - 1;
    var p := items[..n];
    if Carries(p, k) {
      var i :| 0 <= i < |p| && MidOf(p[i]) == Some(k);
      assert items[i] == p[i];
    }
    if Carries(items, k) {
      var i :| 0 <= i < |items| && MidOf(items[i]) == Some(k);
      if i < n {
        assert items[i] == p[i];
      }
    }
  }

  /** The merged entries are the ledger's, plus exactly the truthy M-IDs of the items. */
  lemma {:induction false} MergeKeys(entries: map<string, Value>, items: seq<Item>)
    ensures forall k :: k in Merged(entries, items).0 <==> k in entries || Carries(items, k)
  {
    if items != [] {
      var n := |items| - 1;
      MergeKeys(entries, items[..n]);
      forall k
        ensures k in Merged(entries, items).0 <==> k in entries || Carries(items, k)
      {
        CarriesSnoc(items, k);
      }
    }
  }

  /** An M-ID already seen, in the ledger or earlier in the manifest, is in the merged entries. */
  lemma {:induction false} SeenIsBound(entries: map<string, Value>, items: seq<Item>, i: int)
    requires 0 <= i < |items| && MidOf(items[i]).Some?
    ensures MidOf(items[i]).value in Merged(entries, items).0
  {
    MergeKeys(entries, items);
  }

  /**
   * The loop commits an item iff its M-ID is truthy, absent from the ledger and not met
   * before in the manifest; the processed list is those items, in manifest order.
   */
  lemma {:induction false} MergeCommitsFirstNew(entries: map<string, Value>, items: seq<Item>)
    ensures Merged(entries, items).1 == NewItems(entries, items)
  {
    if items != [] {
      var n := |items| - 1;
      var p := items[..n];
      MergeCommitsFirstNew(entries, p);
      var e := Merged(entries, p).0;
      var mid := MidOf(items[n]);
      if mid.Some? {
        if mid.value in e {
          MergeKeys(entries, p);
          if mid.value !in entries {
            assert Carries(p, mid.value);
            var i :| 0 <= i < |p| && MidOf(p[i]) == mid;
            assert MidOf(items[i]) == mid;
          }
        } else {
          MergeKeys(entries, p);
          forall j | 0 <= j < n
            ensures MidOf(items[j]) != mid
          {
            assert p[j] == items[j];
          }
        }
      }
    }
  }

  /** For an M-ID new to the ledger, the first item carrying it wins; later duplicates change nothing. */
  lemma {:induction false} FirstItemWins(entries: map<string, Value>, items: seq<Item>, i: int)
    requires 0 <= i < |items| && FirstNew(entries, items, i)
    ensures MidOf(items[i]).value in Merged(entries, items).0
    ensures Merged(entries, items).0[MidOf(items[i]).value] == EntryOf(items[i])
  {
    var k := MidOf(items[i]).value;
    var n := |items| - 1;
    var p := items[..n];
    if i == n {
      MergeKeys(entries, p);
      assert !Carries(p, k) by {
        forall j | 0 <= j < |p|
          ensures MidOf(p[j]) != Some(k)
        {
          assert p[j] == items[j];
        }
      }
    } else {
      assert FirstNew(entries, p, i) by {
        assert p[i] == items[i];
        forall j | 0 <= j < i
          ensures MidOf(p[j]) != MidOf(p[i])
        {
          assert p[j] == items[j];
        }
      }
      FirstItemWins(entries, p, i);
      assert p[i] == items[i];
      SeenIsBound(entries, p, i);
    }
  }

  /** Each commit adds a key: the entries grow by exactly the number of processed items. */
  lemma {:induction false} MergeGrowth(entries: map<string, Value>, items: seq<Item>)
    ensures |Merged(entries, items).0| == |entries| + |Merged(entries, items).1|
  {
    if items != [] {
      MergeGrowth(entries, items[..|items| - 1]);
    }
  }

  /** The loop over the manifest items, committing to `ledger`. */
  method MergeItems(ledger: CentralLedger, items: seq<Item>) returns (count: nat, processed: seq<Item>)
    modifies ledger
    ensures (ledger.entries, processed) == Merged(old(ledger.entries), items)
    ensures count == |processed| && ledger.meta == old(ledger.meta)
  {
    count := 0;
    processed := [];
    ghost var start := ledger.entries;
    var i := 0;
    while i < |items|
      invariant 0 <= i <= |items|
      invariant (ledger.entries, processed) == Merged(start, items[..i])
      invariant count == |processed| && ledger.meta == old(ledger.meta)
    {
      var item := items[i];
      assert items[..i + 1][..i] == items[..i];
      var mid := Get(item, "m-id");
      if mid.Str? && mid.s != "" && mid.s !in ledger.entries {
        ledger.entries := ledger.entries[mid.s := EntryOf(item)];
        count := count + 1;
        processed := processed + [item];
      }
      i := i + 1;
    }
    assert items[..i] == items;
  }

  // ---------------------------------------------------------------------------------------
  // main

  datatype BridgeOutcome =
    | Failed                       // a load raises, or an item the model does not read
    | NoManifest                   // "No manifest found"; exit status 1
    | Committed(count: nat, processed: seq<Item>, meta: map<string, Value>, entries: map<string, Value>)

  /** The items as the model reads them: every value must be `Readable`. */
  function ItemsOf(values: seq<Value>): (r: Option<seq<Item>>)
    ensures r.Some? <==> forall i :: 0 <= i < |values| ==> Readable(values[i])
    ensures r.Some? ==> |r.value| == |values| && forall i :: 0 <= i < |values| ==> r.value[i] == values[i].fields
  {
    if values == [] then Some([])
    else
      var n := |values| - 1;
      var rest := ItemsOf(values[..n]);
      if rest.Some? && Readable(values[n]) then Some(rest.value + [values[n].fields])
      else
        assert forall i :: 0 <= i < n ==> values[..n][i] == values[i];
        None
  }

  /**
   * `main`: load the manifest and the ledger, stop on an empty manifest, ensure `entries`,
   * and merge. `Committed` carries the ledger written back and the report's items.
   */
  method RunBridge(manifestFile: Stored, ledgerFile: Stored) returns (outcome: BridgeOutcome)
    ensures outcome.NoManifest? <==>
      LoadJson(manifestFile).Some? && LoadJson(ledgerFile).Some? && !Truthy(LoadJson(manifestFile).value)
    ensures outcome.Committed? ==>
      LoadJson(manifestFile).Some? && LoadJson(ledgerFile).Some?
      && ManifestValues(LoadJson(manifestFile).value).Some?
      && LedgerParts(LoadJson(ledgerFile).value).Some?
      && ItemsOf(ManifestValues(LoadJson(manifestFile).value).value).Some? &&
      var parts := LedgerParts(LoadJson(ledgerFile).value).value;
      var items := ItemsOf(ManifestValues(LoadJson(manifestFile).value).value).value;
      (outcome.entries, outcome.processed) == Merged(parts.1, items)
      && outcome.meta == parts.0 && outcome.count == |outcome.processed|
    ensures outcome.Committed? && ledgerFile.Loaded? && FileEntries(ledgerFile.doc).Some? ==>
      var kept := FileEntries(ledgerFile.doc).value;
      forall k :: k in kept ==> k in outcome.entries && outcome.entries[k] == kept[k]
    ensures outcome.Failed? <==>
      LoadJson(manifestFile).None? || LoadJson(ledgerFile).None?
      || (Truthy(LoadJson(manifestFile).value)
          && (LedgerParts(LoadJson(ledgerFile).value).None?
              || ItemsOf(ManifestValues(LoadJson(manifestFile).value).value).None?))
  {
    var manifest := LoadJson(manifestFile);
    var doc := LoadJson(ledgerFile);
    if manifest.None? || doc.None? {
      return Failed;
    }
    var values := ManifestValues(manifest.value);
    if values.None? {
      return NoManifest;
    }
    var parts := LedgerParts(doc.value);
    var items := ItemsOf(values.value);
    if parts.None? || items.None? {
      return Failed;
    }
    var ledger := new CentralLedger.Open(parts.value.0, parts.value.1);
    var count, processed := MergeItems(ledger, items.value);
    MergeKeepsOld(parts.value.1, items.value);
    return Committed(count, processed, ledger.meta, ledger.entries);
  }
}

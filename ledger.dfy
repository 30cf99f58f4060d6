/**
 * The central ledger: a JSON document whose `entries` object maps each M-ID to the record it
 * was bound to. The signet minter binds one M-ID at a time; an entry, once written, is never
 * overwritten.
 */
module Ledger {
  import opened Wrappers
  import opened PyValues

  /** What a tool finds at the ledger's path: no file, a file `json.load` rejects, or a document. */
  datatype Stored = Missing | Broken | Loaded(doc: Value)

  const LedgerMeta: string := "TITANESS IMMUTABLE LEDGER v1"

  /** The entries after binding `mid` to `payload`, unless `mid` is bound already. */
  function Bind(entries: map<string, Value>, mid: string, payload: Value): (r: map<string, Value>)
    ensures mid in r && r[mid] == (if mid in entries then entries[mid] else payload)
    ensures forall k :: k in entries ==> k in r && r[k] == entries[k]
    ensures r.Keys == entries.Keys + {mid}
    ensures |r| == if mid in entries then |entries| else |entries| + 1
  {
    if mid in entries then entries else entries[mid := payload]
  }

  /** Binding an M-ID a second time changes nothing, whatever the second payload. */
  lemma BindOnce(entries: map<string, Value>, mid: string, payload: Value, again: Value)
    ensures Bind(Bind(entries, mid, payload), mid, again) == Bind(entries, mid, payload)
  {
  }

  /** The ledger as a tool holds it: the document's other top-level keys, and its entries. */
  class CentralLedger {
    var meta: map<string, Value>
    var entries: map<string, Value>

    /** `{"_meta": "TITANESS IMMUTABLE LEDGER v1", "entries": {}}`. */
    constructor Fresh()
      ensures meta == map["_meta" := Str(LedgerMeta)] && entries == map[]
    {
      meta := map["_meta" := Str(LedgerMeta)];
      entries := map[];
    }

    constructor Open(meta: map<string, Value>, entries: map<string, Value>)
      ensures this.meta == meta && this.entries == entries
    {
      this.meta := meta;
      this.entries := entries;
    }

    /**
     * `if m_id in ledger["entries"]: ... else: ledger["entries"][m_id] = payload`: the entry
     * already bound is reported, and only an absent M-ID is bound.
     */
    method Register(mid: string, payload: Value) returns (existing: Option<Value>)
      modifies this
      ensures entries == Bind(old(entries), mid, payload) && meta == old(meta)
      ensures existing == if mid in old(entries) then Some(old(entries)[mid]) else None
    {
      if mid in entries {
        existing := Some(entries[mid]);
      } else {
        entries := entries[mid := payload];
        existing := None;
      }
    }
  }

  /** The `entries` object a ledger document holds at its top level, when it holds one. */
  function FileEntries(doc: Value): Option<map<string, Value>> {
    if doc.Obj? && "entries" in ObjToMap(doc.fields) && ObjToMap(doc.fields)["entries"].Obj? then
      Some(ObjToMap(ObjToMap(doc.fields)["entries"].fields))
    else None
  }

  /**
   * How the minter opens the ledger: a missing or unreadable file gives a fresh ledger; a
   * document opens with its own `entries` and its other top-level keys, and one whose
   * `entries` is not an object makes it fail (`None`).
   */
  function MinterOpen(stored: Stored): (r: Option<(map<string, Value>, map<string, Value>)>)
    ensures stored.Missing? || stored.Broken? ==> r == Some((map["_meta" := Str(LedgerMeta)], map[]))
    ensures stored.Loaded? ==> (r.Some? <==> FileEntries(stored.doc).Some?)
    ensures stored.Loaded? && r.Some? ==>
      r.value.1 == FileEntries(stored.doc).value && r.value.0 == ObjToMap(stored.doc.fields) - {"entries"}
  {
    match stored
    case Missing => Some((map["_meta" := Str(LedgerMeta)], map[]))
    case Broken => Some((map["_meta" := Str(LedgerMeta)], map[]))
    case Loaded(doc) =>
      if !doc.Obj? then None
      else
        var top := ObjToMap(doc.fields);
        if "entries" in top && top["entries"].Obj? then
          Some((top - {"entries"}, ObjToMap(top["entries"].fields)))
        else None
  }
}

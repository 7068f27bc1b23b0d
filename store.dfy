/** The `SparseStore` facade (sparse.py:76-227, 395-426): its index as a table
    of records keyed by id, the mutations that go through writer transactions
    (upsert, delete by term, delete by prefix), the choice the constructor
    makes between opening, creating and an in-memory index, `initialize_index`
    and the `erase` gate. The persisted indexes live in an `IndexCatalog`. */
module Store {
  import opened Values
  import Schema
  import Mapper

  /** The index: its records, keyed by the value of their `id` field. */
  type Table = map<Value, Record>

  /** Every record sits under its own id, the engine's unique key. */
  predicate TableValid(t: Table) {
    forall id :: id in t ==> "id" in t[id] && t[id]["id"] == id
  }

  /** A persisted index: the stored names of its schema and its records. */
  datatype PersistedIndex = PersistedIndex(storedNames: set<string>, records: Table)

  function EmptyIndex(storedNames: set<string>): PersistedIndex {
    PersistedIndex(storedNames, map[])
  }

  datatype StoreError =
    | MissingIndexName                            // a directory without an index name
    | IndexAlreadyExists(path: string, name: string)

  /** What the constructor does with its index. */
  datatype OpenMode = InMemory | Attach | Create

  /** The constructor's decision (sparse.py:97-109): a persistent store needs an
      index name; it attaches to an existing index or creates one; without a
      directory the index lives in memory. */
  function OpenChoice(persistDir: Option<string>, indexName: string, present: bool): (r: Result<OpenMode, StoreError>)
    ensures r.Err? <==> TruthyText(persistDir) && indexName == ""
    ensures r.Err? ==> r.error == MissingIndexName
    ensures r == Ok(InMemory) <==> !TruthyText(persistDir)
    ensures r == Ok(Attach) <==> TruthyText(persistDir) && indexName != "" && present
    ensures r == Ok(Create) <==> TruthyText(persistDir) && indexName != "" && !present
  {
    if TruthyText(persistDir) && indexName == "" then Err(MissingIndexName)
    else if TruthyText(persistDir) then Ok(if present then Attach else Create)
    else Ok(InMemory)
  }

  /** The `erase` decision (sparse.py:232-248): an unconfirmed erase proceeds, a
      confirmed one only on the exact answer "Y"; either way only an index that
      exists is erased. */
  function EraseDecision(confirm: bool, answer: string, present: bool): (erase: bool)
    ensures erase ==> present
    ensures confirm && answer != "Y" ==> !erase
    ensures present && (!confirm || answer == "Y") ==> erase
  {
    var shall := if confirm then answer == "Y" else true;
    shall && present
  }

  /** The table after `update_document` of each record of the batch, in order. */
  function UpsertAll(t: Table, batch: seq<Record>): Table
    requires forall i :: 0 <= i < |batch| ==> "id" in batch[i]
    decreases |batch|
  {
    if batch == [] then t
    else
      var last := batch[|batch| - 1];
      UpsertAll(t, batch[..|batch| - 1])[last["id"] := last]
  }

  /** Upsert by id: an id of the batch holds the last batch record with that id,
      in full; every other id keeps its old record, and exists exactly if it did. */
  lemma {:induction false} UpsertLastWins(t: Table, batch: seq<Record>, id: Value)
    requires forall i :: 0 <= i < |batch| ==> "id" in batch[i]
    ensures id in UpsertAll(t, batch) <==> id in t || exists i :: 0 <= i < |batch| && batch[i]["id"] == id
    ensures forall i :: 0 <= i < |batch| && batch[i]["id"] == id &&
                        (forall j :: i < j < |batch| ==> batch[j]["id"] != id) ==>
                        UpsertAll(t, batch)[id] == batch[i]
    ensures (forall i :: 0 <= i < |batch| ==> batch[i]["id"] != id) && id in t ==>
              UpsertAll(t, batch)[id] == t[id]
    decreases |batch|
  {
    if batch != [] {
      var init := batch[..|batch| - 1];
      assert forall i :: 0 <= i < |init| ==> init[i] == batch[i];
      UpsertLastWins(t, init, id);
      if batch[|batch| - 1]["id"] != id {
        assert forall i :: 0 <= i < |batch| && batch[i]["id"] == id ==> i < |init|;
      }
    }
  }

  lemma {:induction false} UpsertKeepsTableValid(t: Table, batch: seq<Record>)
    requires TableValid(t)
    requires forall i :: 0 <= i < |batch| ==> "id" in batch[i]
    ensures TableValid(UpsertAll(t, batch))
    decreases |batch|
  {
    if batch != [] {
      UpsertKeepsTableValid(t, batch[..|batch| - 1]);
    }
  }

  /** Upserting records whose ids are new and pairwise distinct adds one record
      per document and leaves every existing record as it was. */
  lemma {:induction false} UpsertOfNewIdsGrowsTable(t: Table, batch: seq<Record>)
    requires forall i :: 0 <= i < |batch| ==> "id" in batch[i]
    requires forall i :: 0 <= i < |batch| ==> batch[i]["id"] !in t
    requires forall i, j :: 0 <= i < j < |batch| ==> batch[i]["id"] != batch[j]["id"]
    ensures |UpsertAll(t, batch)| == |t| + |batch|
    ensures forall id :: id in t ==> id in UpsertAll(t, batch) && UpsertAll(t, batch)[id] == t[id]
    decreases |batch|
  {
    if batch != [] {
      var init := batch[..|batch| - 1];
      UpsertOfNewIdsGrowsTable(t, init);
      UpsertLastWins(t, init, batch[|batch| - 1]["id"]);
    }
  }

  /** The records `add_documents` writes, one `doc2dict` per document. */
  function MapBatch(storedNames: set<string>, docs: seq<Mapper.Document>, freshIds: seq<string>,
                    normalize: string -> string): (batch: seq<Record>)
    requires |freshIds| == |docs|
    ensures forall i :: 0 <= i < |batch| ==> "id" in batch[i]
  {
    seq(|docs|, i requires 0 <= i < |docs| => Mapper.MapDocument(storedNames, docs[i], freshIds[i], normalize))
  }

  /** A document whose metadata carries no truthy id gets the fresh one. */
  predicate HasNoCallerId(doc: Mapper.Document) {
    var v := Mapper.Lookup(doc.metadata, "id");
    v.None? || !Truthy(v.value)
  }

  /** Documents without an id, given distinct fresh ids not yet in the index,
      each become a new record; nothing already indexed is replaced. */
  lemma FreshIdsAddOneRecordEach(t: Table, storedNames: set<string>, docs: seq<Mapper.Document>,
                                 freshIds: seq<string>, normalize: string -> string)
    requires |freshIds| == |docs|
    requires forall i :: 0 <= i < |docs| ==> HasNoCallerId(docs[i])
    requires forall i, j :: 0 <= i < j < |freshIds| ==> freshIds[i] != freshIds[j]
    requires forall i :: 0 <= i < |freshIds| ==> StrVal(freshIds[i]) !in t
    ensures |UpsertAll(t, MapBatch(storedNames, docs, freshIds, normalize))| == |t| + |docs|
    ensures forall id :: id in t ==> id in UpsertAll(t, MapBatch(storedNames, docs, freshIds, normalize)) &&
                                     UpsertAll(t, MapBatch(storedNames, docs, freshIds, normalize))[id] == t[id]
  {
    var batch := MapBatch(storedNames, docs, freshIds, normalize);
    assert forall i :: 0 <= i < |batch| ==> batch[i]["id"] == StrVal(freshIds[i]);
    UpsertOfNewIdsGrowsTable(t, batch);
  }

  /** `Prefix(field, prefix)`: a plain string-prefix match on the field's value. */
  predicate PrefixMatches(rec: Record, field: string, prefix: string) {
    field in rec && rec[field].StrVal? && StartsWith(rec[field].s, prefix)
  }

  /** The ids of the records a prefix query finds. */
  function PrefixMatched(t: Table, field: string, prefix: string): set<Value> {
    set id | id in t && PrefixMatches(t[id], field, prefix)
  }

  /** A string prefix is not a path prefix: `/a/b` also matches `/a/bc/x.pdf`. */
  lemma PrefixIsPlainStringPrefix()
    ensures PrefixMatches(map["source" := StrVal("/a/bc/x.pdf")], "source", "/a/b")
  {
    assert "/a/bc/x.pdf"[..4] == "/a/b";
  }

  lemma CardinalityOfRemoval(t: Table, s: set<Value>)
    requires s <= t.Keys
    ensures |t - s| == |t| - |s|
  {
    assert (t - s).Keys == t.Keys - s;
    assert t.Keys == (t.Keys - s) + s;
  }

  /** The table left once every id of `s` has been deleted from `t`. */
  lemma RemovedAll(r: Table, t: Table, s: set<Value>)
    requires TableValid(t) && s <= t.Keys
    requires r.Keys == t.Keys - s
    requires forall id :: id in r ==> r[id] == t[id]
    ensures r == t - s && TableValid(r) && |r| == |t| - |s|
  {
    assert r == t - s;
    CardinalityOfRemoval(t, s);
  }

  /** The persisted indexes, by (directory, index name). */
  class IndexCatalog {
    var persisted: map<(string, string), PersistedIndex>

    ghost predicate Valid()
      reads this
    {
      forall key :: key in persisted ==> TableValid(persisted[key].records)
    }

    constructor (initial: map<(string, string), PersistedIndex>)
      requires forall key :: key in initial ==> TableValid(initial[key].records)
      ensures Valid() && persisted == initial
    {
      persisted := initial;
    }

    /** `initialize_index`: refuses to overwrite an existing index; otherwise
        creates an empty one with the given schema, the default when none. */
    method InitializeIndex(path: string, name: string, schema: Option<set<string>>)
      returns (r: Result<PersistedIndex, StoreError>)
      requires Valid()
      modifies this
      ensures Valid()
      ensures (path, name) in old(persisted) ==>
                r == Err(IndexAlreadyExists(path, name)) && persisted == old(persisted)
      ensures (path, name) !in old(persisted) ==>
                r == Ok(EmptyIndex(if schema.Some? then schema.value else Schema.DefaultStoredNames())) &&
                persisted == old(persisted)[(path, name) := r.value]
    {
      var storedNames := if schema.Some? then schema.value else Schema.DefaultStoredNames();
      if (path, name) in persisted {
        return Err(IndexAlreadyExists(path, name));
      }
      var ix := EmptyIndex(storedNames);
      persisted := persisted[(path, name) := ix];
      return Ok(ix);
    }
  }

  class SparseStore {
    const persistDir: Option<string>
    const indexName: string
    /** The persisted indexes a persistent store reads from and commits to. */
    const catalog: IndexCatalog
    /** The stored names of the index's schema, which `doc2dict` consults. */
    const storedNames: set<string>
    /** The records of the index, as the store's handle sees them. */
    var records: Table
    /** The number of writer transactions committed through this store. */
    var commits: nat

    ghost predicate Valid()
      reads this, catalog
    {
      TableValid(records) && catalog.Valid()
    }

    function Size(): nat
      reads this
    {
      |records|
    }

    /** The persisted indexes once this store's table is committed: a
        persistent store's index holds the table; an in-memory one touches nothing. */
    function Committed(before: map<(string, string), PersistedIndex>): map<(string, string), PersistedIndex>
      reads this
    {
      if TruthyText(persistDir) then before[(persistDir.value, indexName) := PersistedIndex(storedNames, records)]
      else before
    }

    constructor Init(catalog: IndexCatalog, persistDir: Option<string>, indexName: string, ix: PersistedIndex)
      requires TableValid(ix.records) && catalog.Valid()
      ensures Valid()
      ensures this.catalog == catalog && this.persistDir == persistDir && this.indexName == indexName
      ensures storedNames == ix.storedNames && records == ix.records && commits == 0
    {
      this.catalog := catalog;
      this.persistDir := persistDir;
      this.indexName := indexName;
      this.storedNames := ix.storedNames;
      this.records := ix.records;
      this.commits := 0;
    }

    /** The constructor: an error for a directory without an index name; else
        attach to the persisted index, create it, or make an in-memory one. */
    static method Open(catalog: IndexCatalog, persistDir: Option<string>, indexName: string)
      returns (r: Result<SparseStore, StoreError>)
      requires catalog.Valid()
      modifies catalog
      ensures catalog.Valid()
      ensures r.Err? <==> TruthyText(persistDir) && indexName == ""
      ensures r.Err? ==> r.error == MissingIndexName && catalog.persisted == old(catalog.persisted)
      ensures r.Ok? ==> fresh(r.value) && r.value.Valid() && r.value.commits == 0 && r.value.catalog == catalog &&
                        r.value.persistDir == persistDir && r.value.indexName == indexName
      ensures r.Ok? && !TruthyText(persistDir) ==>
                catalog.persisted == old(catalog.persisted) &&
                r.value.records == map[] && r.value.storedNames == Schema.DefaultStoredNames()
      ensures r.Ok? && TruthyText(persistDir) && (persistDir.value, indexName) in old(catalog.persisted) ==>
                catalog.persisted == old(catalog.persisted) &&
                r.value.records == old(catalog.persisted)[(persistDir.value, indexName)].records &&
                r.value.storedNames == old(catalog.persisted)[(persistDir.value, indexName)].storedNames
      ensures r.Ok? && TruthyText(persistDir) && (persistDir.value, indexName) !in old(catalog.persisted) ==>
                catalog.persisted == old(catalog.persisted)[(persistDir.value, indexName) := EmptyIndex(Schema.DefaultStoredNames())] &&
                r.value.records == map[] && r.value.storedNames == Schema.DefaultStoredNames()
    {
      var present := TruthyText(persistDir) && (persistDir.value, indexName) in catalog.persisted;
      var choice := OpenChoice(persistDir, indexName, present);
      if choice.Err? {
        return Err(choice.error);
      }
      var ix := EmptyIndex(Schema.DefaultStoredNames());
      if choice.value == Attach {
        ix := catalog.persisted[(persistDir.value, indexName)];
      } else if choice.value == Create {
        var created := catalog.InitializeIndex(persistDir.value, indexName, None);
        ix := created.value;
      }
      var store := new SparseStore.Init(catalog, persistDir, indexName, ix);
      return Ok(store);
    }

    /** `writer.commit()`: one more transaction; a persistent store's index on
        disk now holds the store's table. */
    method Commit()
      requires Valid()
      modifies this, catalog
      ensures Valid()
      ensures records == old(records) && commits == old(commits) + 1
      ensures catalog.persisted == Committed(old(catalog.persisted))
    {
      if TruthyText(persistDir) {
        catalog.persisted := catalog.persisted[(persistDir.value, indexName) := PersistedIndex(storedNames, records)];
      }
      commits := commits + 1;
    }

    /** `add_documents`: one writer transaction that maps each document and
        upserts it by id. `freshIds[i]` is the id generated for document i. */
    method AddDocuments(docs: seq<Mapper.Document>, freshIds: seq<string>, normalize: string -> string)
      requires Valid() && |freshIds| == |docs|
      modifies this, catalog
      ensures Valid()
      ensures records == UpsertAll(old(records), MapBatch(storedNames, docs, freshIds, normalize))
      ensures commits == old(commits) + 1
      ensures catalog.persisted == Committed(old(catalog.persisted))
    {
      ghost var batch := MapBatch(storedNames, docs, freshIds, normalize);
      for i := 0 to |docs|
        invariant records == UpsertAll(old(records), batch[..i])
        invariant commits == old(commits) && catalog.persisted == old(catalog.persisted)
      {
        var d := Mapper.Doc2Dict(storedNames, docs[i], freshIds[i], normalize);
        assert batch[..i + 1][..i] == batch[..i];
        records := records[d["id"] := d];
      }
      assert batch[..|docs|] == batch;
      UpsertKeepsTableValid(old(records), batch);
      Commit();
    }

    /** `update_documents`: each dictionary made a document (`fromDict` is the
        conversion, not modelled), then `add_documents`. */
    method UpdateDocuments(docDicts: seq<Record>, fromDict: Record -> Mapper.Document,
                           freshIds: seq<string>, normalize: string -> string)
      requires Valid() && |freshIds| == |docDicts|
      modifies this, catalog
      ensures Valid()
      ensures records == UpsertAll(old(records),
                MapBatch(storedNames, seq(|docDicts|, i requires 0 <= i < |docDicts| => fromDict(docDicts[i])),
                         freshIds, normalize))
      ensures commits == old(commits) + 1
      ensures catalog.persisted == Committed(old(catalog.persisted))
    {
      var docs := seq(|docDicts|, i requires 0 <= i < |docDicts| => fromDict(docDicts[i]));
      AddDocuments(docs, freshIds, normalize);
    }

    /** `remove_document`: one writer transaction deleting exactly the records
        whose `field` holds `value`. */
    method RemoveDocument(value: string, field: string)
      requires Valid()
      modifies this, catalog
      ensures Valid()
      ensures forall id :: id in records <==> id in old(records) && !TermMatches(old(records)[id], field, StrVal(value))
      ensures forall id :: id in records ==> records[id] == old(records)[id]
      ensures commits == old(commits) + 1
      ensures catalog.persisted == Committed(old(catalog.persisted))
    {
      records := map id | id in records && !TermMatches(records[id], field, StrVal(value)) :: records[id];
      Commit();
    }

    /** `delete_by_prefix`: finds every record whose `field` starts with
        `prefix`; when there is none it returns 0 and opens no writer, else it
        deletes them all in one transaction and returns how many. */
    method DeleteByPrefix(prefix: string, field: string) returns (count: nat)
      requires Valid()
      modifies this, catalog
      ensures Valid()
      ensures count == |PrefixMatched(old(records), field, prefix)|
      ensures records == old(records) - PrefixMatched(old(records), field, prefix)
      ensures Size() == old(Size()) - count
      ensures commits == old(commits) + (if count > 0 then 1 else 0)
      ensures catalog.persisted == if count > 0 then Committed(old(catalog.persisted)) else old(catalog.persisted)
    {
      var matched := PrefixMatched(records, field, prefix);
      if matched == {} {
        return 0;
      }
      ghost var before := records;
      var remaining := matched;
      while remaining != {}
        invariant remaining <= matched
        invariant forall id :: id in records <==> id in before && (id !in matched || id in remaining)
        invariant forall id :: id in records ==> records[id] == before[id]
        invariant commits == old(commits) && catalog.persisted == old(catalog.persisted)
        decreases remaining
      {
        var id :| id in remaining;
        records := records - {id};
        remaining := remaining - {id};
      }
      assert records.Keys == before.Keys - matched;
      RemovedAll(records, before, matched);
      Commit();
      count := |matched|;
    }

    /** `remove_source`: every record whose `source` starts with the given path
        or folder. */
    method RemoveSource(source: string) returns (count: nat)
      requires Valid()
      modifies this, catalog
      ensures Valid()
      ensures count == |PrefixMatched(old(records), "source", source)|
      ensures records == old(records) - PrefixMatched(old(records), "source", source)
      ensures commits == old(commits) + (if count > 0 then 1 else 0)
      ensures catalog.persisted == if count > 0 then Committed(old(catalog.persisted)) else old(catalog.persisted)
    {
      count := DeleteByPrefix(source, "source");
    }

    /** `erase`: when the decision says so, the persisted index is recreated
        empty with the default schema and the result is true; otherwise nothing
        changes and the result is false. `answer` is what the prompt would read. */
    method Erase(confirm: bool, answer: string) returns (erased: bool)
      requires Valid()
      modifies catalog
      ensures Valid()
      ensures erased == EraseDecision(confirm, answer,
                          TruthyText(persistDir) && (persistDir.value, indexName) in old(catalog.persisted))
      ensures erased ==>
                catalog.persisted == old(catalog.persisted)[(persistDir.value, indexName) := EmptyIndex(Schema.DefaultStoredNames())]
      ensures !erased ==> catalog.persisted == old(catalog.persisted)
    {
      var shall := true;
      if confirm {
        shall := answer == "Y";
      }
      if shall && TruthyText(persistDir) && (persistDir.value, indexName) in catalog.persisted {
        catalog.persisted := catalog.persisted[(persistDir.value, indexName) := EmptyIndex(Schema.DefaultStoredNames())];
        return true;
      }
      return false;
    }
  }

  /** What `add_documents` commits to a persistent index is what a store that
      opens the same directory and index name afterwards sees. */
  method CommittedDocumentsSurviveReopen(catalog: IndexCatalog, dir: string, name: string,
                                         docs: seq<Mapper.Document>, freshIds: seq<string>,
                                         normalize: string -> string)
    returns (first: SparseStore, second: SparseStore)
    requires catalog.Valid() && dir != "" && name != "" && |freshIds| == |docs|
    modifies catalog
    ensures second.records == first.records
    ensures second.storedNames == first.storedNames
    ensures first.records == UpsertAll(
              if (dir, name) in old(catalog.persisted) then old(catalog.persisted)[(dir, name)].records else map[],
              MapBatch(first.storedNames, docs, freshIds, normalize))
  {
    var attached := SparseStore.Open(catalog, Some(dir), name);
    first := attached.value;
    first.AddDocuments(docs, freshIds, normalize);
    var reopened := SparseStore.Open(catalog, Some(dir), name);
    second := reopened.value;
  }
}

/** The document mapper `doc2dict` (sparse.py:440-468): turns a document,
    free text plus ordered metadata, into the record handed to the index. */
module Mapper {
  import opened Values
  import Schema

  /** A document: its text and its metadata, as the ordered pairs of a Python dict. */
  datatype Document = Document(pageContent: string, metadata: seq<(string, Value)>)

  /** The record built by the metadata loop alone: every pair, in order, is
      written under its renamed key, so a later pair overwrites an earlier one. */
  function MetadataFields(storedNames: set<string>, md: seq<(string, Value)>): Record
    decreases |md|
  {
    if md == [] then map[]
    else
      var d := MetadataFields(storedNames, md[..|md| - 1]);
      var last := md[|md| - 1];
      match Schema.RenamedKey(storedNames, last.0, last.1)
      case Some(t) => d[t := last.1]
      case None => d
  }

  /** `metadata.get(key)`: the value of the last pair with that key. */
  function Lookup(md: seq<(string, Value)>, key: string): (r: Option<Value>)
    ensures r.Some? <==> exists i :: 0 <= i < |md| && md[i].0 == key
    ensures r.Some? ==> exists i :: 0 <= i < |md| && md[i].0 == key && r.value == md[i].1 &&
                                    forall j :: i < j < |md| ==> md[j].0 != key
    decreases |md|
  {
    if md == [] then None
    else if md[|md| - 1].0 == key then Some(md[|md| - 1].1)
    else Lookup(md[..|md| - 1], key)
  }

  /** The id of the record: the caller's when it is truthy, else the fresh one. */
  function RecordId(md: seq<(string, Value)>, freshId: string): Value {
    match Lookup(md, "id")
    case Some(v) => if Truthy(v) then v else StrVal(freshId)
    case None => StrVal(freshId)
  }

  /** The keys the mapper writes after the metadata loop. */
  const Overwritten: set<string> := {"id", "page_content", "source_search", "filepath_search"}

  /** The full record `doc2dict` returns. `normalize` is the text normaliser,
      `freshId` what the id generator would produce for this document. */
  function MapDocument(storedNames: set<string>, doc: Document, freshId: string,
                       normalize: string -> string): (d: Record)
    ensures "id" in d && d["id"] == RecordId(doc.metadata, freshId)
    ensures "page_content" in d && d["page_content"] == StrVal(normalize(doc.pageContent))
    ensures "source" in d ==> "source_search" in d && d["source_search"] == d["source"]
    ensures "filepath" in d ==> "filepath_search" in d && d["filepath_search"] == d["filepath"]
    ensures "source" !in d ==>
              ("source_search" in d <==> "source_search" in MetadataFields(storedNames, doc.metadata)) &&
              ("source_search" in d ==> d["source_search"] == MetadataFields(storedNames, doc.metadata)["source_search"])
    ensures "filepath" !in d ==>
              ("filepath_search" in d <==> "filepath_search" in MetadataFields(storedNames, doc.metadata)) &&
              ("filepath_search" in d ==> d["filepath_search"] == MetadataFields(storedNames, doc.metadata)["filepath_search"])
    ensures forall t :: t !in Overwritten ==>
              (t in d <==> t in MetadataFields(storedNames, doc.metadata)) &&
              (t in d ==> d[t] == MetadataFields(storedNames, doc.metadata)[t])
  {
    var d0 := MetadataFields(storedNames, doc.metadata);
    var d1 := d0["id" := RecordId(doc.metadata, freshId)]["page_content" := StrVal(normalize(doc.pageContent))];
    var d2 := if "source" in d1 then d1["source_search" := d1["source"]] else d1;
    if "filepath" in d2 then d2["filepath_search" := d2["filepath"]] else d2
  }

  /** `doc2dict` as the source runs it: a loop over the metadata that fills the
      record key by key, then the id, the normalised text and the shadow copies. */
  method Doc2Dict(storedNames: set<string>, doc: Document, freshId: string,
                  normalize: string -> string) returns (d: Record)
    ensures d == MapDocument(storedNames, doc, freshId, normalize)
  {
    var md := doc.metadata;
    d := map[];
    var i := 0;
    while i < |md|
      invariant 0 <= i <= |md|
      invariant d == MetadataFields(storedNames, md[..i])
    {
      assert md[..i + 1][..i] == md[..i];
      var (k, v) := md[i];
      var target := Schema.RenamedKey(storedNames, k, v);
      if target.Some? {
        d := d[target.value := v];
      }
      i := i + 1;
    }
    assert md[..|md|] == md;
    var id := if Lookup(md, "id").Some? && Truthy(Lookup(md, "id").value) then Lookup(md, "id").value
              else StrVal(freshId);
    d := d["id" := id];
    d := d["page_content" := StrVal(normalize(doc.pageContent))];
    if "source" in d {
      d := d["source_search" := d["source"]];
    }
    if "filepath" in d {
      d := d["filepath_search" := d["filepath"]];
    }
  }

  /** The metadata loop, characterised pair by pair: a target key is present
      exactly when some pair renames to it, and it then holds the value of the
      last such pair. */
  lemma {:induction false} MetadataFieldsLastWins(storedNames: set<string>, md: seq<(string, Value)>, t: string)
    ensures t in MetadataFields(storedNames, md) <==>
              exists i :: 0 <= i < |md| && Schema.RenamedKey(storedNames, md[i].0, md[i].1) == Some(t)
    ensures forall i :: 0 <= i < |md| && Schema.RenamedKey(storedNames, md[i].0, md[i].1) == Some(t) &&
                        (forall j :: i < j < |md| ==> Schema.RenamedKey(storedNames, md[j].0, md[j].1) != Some(t)) ==>
                        MetadataFields(storedNames, md)[t] == md[i].1
    decreases |md|
  {
    if md != [] {
      var init := md[..|md| - 1];
      MetadataFieldsLastWins(storedNames, init, t);
      assert forall i :: 0 <= i < |init| ==> init[i] == md[i];
      var last := md[|md| - 1];
      if Schema.RenamedKey(storedNames, last.0, last.1) != Some(t) {
        assert forall i :: 0 <= i < |md| && Schema.RenamedKey(storedNames, md[i].0, md[i].1) == Some(t) ==> i < |init|;
      }
    }
  }

  /** Under the default schema a stored name is the target of no other key:
      renamed keys all end in an underscore and a letter, and no stored name does. */
  lemma OnlyItselfRenamesToStoredName(key: string, v: Value, name: string)
    requires name in Schema.DefaultStoredNames()
    ensures Schema.RenamedKey(Schema.DefaultStoredNames(), key, v) == Some(name) <==> key == name
  {
    Schema.RenamedKeyShape(Schema.DefaultStoredNames(), key, v);
    if key !in Schema.DefaultStoredNames() && Schema.RenamedKey(Schema.DefaultStoredNames(), key, v) == Some(name) {
      Schema.DeclaredNamesHaveNoGlobSuffix(name);
      Schema.EndsWithLastTwo(name, "_b");
      Schema.EndsWithLastTwo(name, "_n");
      Schema.EndsWithLastTwo(name, "_d");
      Schema.EndsWithLastTwo(name, "_k");
    }
  }

  /** With the default schema, a metadata key that is a stored name keeps its
      name: the record holds, under it, the value of the last pair with that key
      (unless the mapper writes that name itself afterwards). */
  lemma DefaultStoredNameKeepsItsKey(doc: Document, freshId: string, normalize: string -> string, i: nat)
    requires i < |doc.metadata| && doc.metadata[i].0 in Schema.DefaultStoredNames()
    requires doc.metadata[i].0 !in Overwritten
    requires forall j :: i < j < |doc.metadata| ==> doc.metadata[j].0 != doc.metadata[i].0
    ensures doc.metadata[i].0 in MapDocument(Schema.DefaultStoredNames(), doc, freshId, normalize)
    ensures MapDocument(Schema.DefaultStoredNames(), doc, freshId, normalize)[doc.metadata[i].0] == doc.metadata[i].1
  {
    var md := doc.metadata;
    var name := md[i].0;
    forall j | 0 <= j < |md|
      ensures Schema.RenamedKey(Schema.DefaultStoredNames(), md[j].0, md[j].1) == Some(name) <==> md[j].0 == name
    {
      OnlyItselfRenamesToStoredName(md[j].0, md[j].1, name);
    }
    MetadataFieldsLastWins(Schema.DefaultStoredNames(), md, name);
  }
}

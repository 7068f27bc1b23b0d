/** The default index schema (sparse.py:39-66) and the rule that renames a
    metadata key so that it lands in a declared field or in a dynamic field
    whose kind suits the value (sparse.py:446-460). */
module Schema {
  import opened Values

  datatype FieldKind = Text | Identifier | Keyword | Boolean | Numeric | DateTime

  /** The explicitly declared fields of the default schema; every one is stored. */
  const DeclaredFields: map<string, FieldKind> := map[
    "page_content" := Text, "id" := Identifier, "source" := Keyword,
    "source_search" := Text, "filepath" := Keyword, "filepath_search" := Text,
    "filename" := Keyword, "ocr" := Boolean, "table" := Boolean,
    "markdown" := Boolean, "page" := Numeric, "document_title" := Text,
    "md5" := Keyword, "mimetype" := Keyword, "extension" := Keyword,
    "filesize" := Numeric, "createdate" := DateTime, "modifydate" := DateTime,
    "tags" := Keyword, "notes" := Text, "msg" := Text]

  /** The stored names of the default schema. The glob fields are not among them. */
  function DefaultStoredNames(): set<string> {
    DeclaredFields.Keys
  }

  /** The dynamic fields `*_t`, `*_k`, `*_b`, `*_n`, `*_d`, tried in the order they were added. */
  function GlobKind(name: string): (k: Option<FieldKind>)
    ensures k.Some? ==> |name| >= 2 && name[|name| - 2] == '_'
  {
    EndsWithLastTwo(name, "_t"); EndsWithLastTwo(name, "_k"); EndsWithLastTwo(name, "_b");
    EndsWithLastTwo(name, "_n"); EndsWithLastTwo(name, "_d");
    if EndsWith(name, "_t") then Some(Text)
    else if EndsWith(name, "_k") then Some(Keyword)
    else if EndsWith(name, "_b") then Some(Boolean)
    else if EndsWith(name, "_n") then Some(Numeric)
    else if EndsWith(name, "_d") then Some(DateTime)
    else None
  }

  /** The field a name resolves to in the default schema: a declared field first, else a glob. */
  function LookupKind(name: string): Option<FieldKind> {
    if name in DeclaredFields then Some(DeclaredFields[name]) else GlobKind(name)
  }

  /** The key under which a metadata pair is indexed, or None when the pair is dropped. */
  function RenamedKey(storedNames: set<string>, key: string, v: Value): Option<string> {
    if key in storedNames then Some(key)
    else match v
      case BoolVal(_) => Some(if EndsWith(key, "_b") then key else key + "_b")
      case StrVal(_) =>
        if EndsWith(key, "_date") then Some(key + "_d")
        else Some(if EndsWith(key, "_k") then key else key + "_k")
      case IntVal(_) => Some(if EndsWith(key, "_n") then key else key + "_n")
      case FloatVal(_) => Some(if EndsWith(key, "_n") then key else key + "_n")
      case OtherVal(_) => None
  }

  /** The kind of field a value of this type is meant to be indexed in. */
  function IntendedKind(key: string, v: Value): Option<FieldKind> {
    match v
    case BoolVal(_) => Some(Boolean)
    case StrVal(_) => Some(if EndsWith(key, "_date") then DateTime else Keyword)
    case IntVal(_) => Some(Numeric)
    case FloatVal(_) => Some(Numeric)
    case OtherVal(_) => None
  }

  /** No declared name ends in an underscore and one more character. */
  lemma DeclaredNamesHaveNoGlobSuffix(name: string)
    requires name in DeclaredFields
    ensures |name| < 2 || name[|name| - 2] != '_'
  {
  }

  lemma EndsWithLastTwo(s: string, suffix: string)
    requires |suffix| == 2
    ensures EndsWith(s, suffix) <==> |s| >= 2 && s[|s| - 2] == suffix[0] && s[|s| - 1] == suffix[1]
  {
    if |s| >= 2 {
      assert s[|s| - 2..] == [s[|s| - 2], s[|s| - 1]];
    }
  }

  lemma AppendedSuffix(key: string, suffix: string)
    requires |suffix| == 2
    ensures EndsWith(key + suffix, suffix)
  {
    assert (key + suffix)[|key + suffix| - 2..] == suffix;
  }

  /** A stored name keeps its name whatever its value. Renaming only ever
      appends a two-character suffix to the key, and a key that is not a stored name comes out with the suffix of its value's type,
      which is appended exactly when the key does not already end in it (a
      `_date` key always gets `_d`). */
  lemma RenamedKeyShape(storedNames: set<string>, key: string, v: Value)
    ensures RenamedKey(storedNames, key, v).None? <==> key !in storedNames && v.OtherVal?
    ensures key in storedNames ==> RenamedKey(storedNames, key, v) == Some(key)
    ensures RenamedKey(storedNames, key, v).Some? ==>
              var t := RenamedKey(storedNames, key, v).value;
              StartsWith(t, key) && (t == key || |t| == |key| + 2)
    ensures key !in storedNames && v.BoolVal? ==> EndsWith(RenamedKey(storedNames, key, v).value, "_b")
    ensures key !in storedNames && (v.IntVal? || v.FloatVal?) ==> EndsWith(RenamedKey(storedNames, key, v).value, "_n")
    ensures key !in storedNames && v.StrVal? ==>
              EndsWith(RenamedKey(storedNames, key, v).value, if EndsWith(key, "_date") then "_d" else "_k")
    ensures key !in storedNames && v.BoolVal? ==>
              (EndsWith(key, "_b") <==> RenamedKey(storedNames, key, v) == Some(key))
    ensures key !in storedNames && (v.IntVal? || v.FloatVal?) ==>
              (EndsWith(key, "_n") <==> RenamedKey(storedNames, key, v) == Some(key))
    ensures key !in storedNames && v.StrVal? && !EndsWith(key, "_date") ==>
              (EndsWith(key, "_k") <==> RenamedKey(storedNames, key, v) == Some(key))
    ensures key !in storedNames && v.StrVal? && EndsWith(key, "_date") ==>
              RenamedKey(storedNames, key, v) == Some(key + "_d")
  {
    var r := RenamedKey(storedNames, key, v);
    if r.Some? {
      assert (key + r.value[|key|..])[..|key|] == key;
      if r.value != key {
        assert r.value == key + r.value[|key|..];
      }
    }
    AppendedSuffix(key, "_b");
    AppendedSuffix(key, "_n");
    AppendedSuffix(key, "_d");
    AppendedSuffix(key, "_k");
  }

  /** Under the default schema every renamed key that is not a stored name
      resolves to a dynamic field of exactly the kind its value is meant for,
      and a pair is dropped exactly when no kind fits its value. */
  lemma {:induction false} RenamedKeyLandsInMatchingField(key: string, v: Value)
    requires key !in DefaultStoredNames()
    ensures RenamedKey(DefaultStoredNames(), key, v).None? <==> IntendedKind(key, v).None?
    ensures RenamedKey(DefaultStoredNames(), key, v).Some? ==>
              LookupKind(RenamedKey(DefaultStoredNames(), key, v).value) == IntendedKind(key, v)
  {
    var r := RenamedKey(DefaultStoredNames(), key, v);
    RenamedKeyShape(DefaultStoredNames(), key, v);
    if r.Some? {
      var t := r.value;
      var suffix := if v.BoolVal? then "_b" else if v.StrVal? then (if EndsWith(key, "_date") then "_d" else "_k") else "_n";
      assert EndsWith(t, suffix);
      EndsWithLastTwo(t, suffix);
      if t in DeclaredFields {
        DeclaredNamesHaveNoGlobSuffix(t);
      }
      assert t !in DeclaredFields;
      EndsWithLastTwo(t, "_t");
      EndsWithLastTwo(t, "_k");
      EndsWithLastTwo(t, "_b");
      EndsWithLastTwo(t, "_n");
      EndsWithLastTwo(t, "_d");
    }
  }
}

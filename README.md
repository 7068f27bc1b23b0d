# SparseStore, modelled in Dafny

This project models `SparseStore`, the full-text store in
`onprem/ingest/stores/sparse.py`. The lexical engine behind it is reduced to a
table of records: a map from a record's `id` value to the record, where each
record maps field names to values. On top of that table the model covers:

- the document mapper `doc2dict`, which renames metadata keys by their value's
  type and writes `id`, `page_content` and the `*_search` shadow copies;
- the query-text preprocessing `_preprocess_query`;
- query assembly in `query`: the `(q) AND (w)` composition, the AND-ed
  exact-term filter, the page-beyond-end gate and the `hl_` highlight entries;
- the mutations: upsert by id (`add_documents`, `update_documents`),
  delete by term (`remove_document`), and the counted prefix delete
  (`delete_by_prefix`, `remove_source`);
- the rerank step of `semantic_search`: a stable sort by descending score,
  cut to `k`;
- the gates: the constructor's open/create/in-memory/error choice,
  `initialize_index` refusing to overwrite, and the `erase` confirmation.

Oracles are parameters:

- `normalize` stands for NFKC normalisation;
- `isWord` and `isSpace` stand for the regular-expression classes `\w` and `\s`;
- `freshIds` are the ids `uuid4().hex` would generate;
- the engine's ranked hit window, its `total_hits` and its highlight fragments
  are inputs to `Results.Query`;
- the similarity scores are inputs to `Rerank.SemanticSearch`;
- the answer typed at the `erase` prompt is the `answer` parameter.

Modules, one file each:

- `Values`: Python values (`bool`, `str`, `int`, `float`, other) and their truthiness.
- `Schema`: the default schema and the key-renaming rule.
- `Mapper`: `doc2dict`.
- `QueryText`: `_preprocess_query`.
- `QueryPlan`: text composition and filters.
- `Results`: highlighting, the page gate and `query`.
- `Rerank`: `semantic_search`.
- `Store`: the `SparseStore` class, its mutations and gates, and the `IndexCatalog` class of persisted indexes.

Writer transactions are counted by `SparseStore.commits`. This makes it visible
that `delete_by_prefix` opens no writer when nothing matches.

## Model

| member | source | states |
|---|---|---|
| Schema.DeclaredNamesHaveNoGlobSuffix | onprem/ingest/stores/sparse.py:39-61 | no explicitly declared field name ends in `_` plus one character, so it cannot be mistaken for a glob field |
| Schema.DefaultStoredNames | onprem/ingest/stores/sparse.py:39-61 | the stored names of the default schema: the 21 explicitly declared fields of `DeclaredFields`, all stored, and none of the glob patterns (a definition) |
| Schema.GlobKind | onprem/ingest/stores/sparse.py:62-66 | the glob field a name falls into, `*_t`, `*_k`, `*_b`, `*_n` or `*_d`, tried in the order they were added; a name that falls into one has `_` as its second-to-last character |
| Schema.LookupKind | onprem/ingest/stores/sparse.py:39-66 | the field kind a name resolves to: a declared field first, else a glob field (a definition, used by `RenamedKeyLandsInMatchingField`) |
| Schema.RenamedKey | onprem/ingest/stores/sparse.py:446-460 | the suffix rule as a definition: the key under which a metadata pair is written, or none when the pair is dropped; its properties are the two lemmas below |
| Schema.RenamedKeyShape | onprem/ingest/stores/sparse.py:446-460 | a pair is dropped exactly when its key is not a stored name and its value is of no handled type; a stored name is always kept as it is, whatever its value and whichever schema the names come from; any other key is only ever kept or given a two-character suffix; an unstored key ends in `_b` for a bool (tested before numbers), `_n` for an int or float, and `_d` for a str whose key ends in `_date`, else `_k`; the key is kept unchanged exactly when it already ends in that `_b`, `_n` or `_k`, and a `_date` key always gets `_d` appended |
| Schema.RenamedKeyLandsInMatchingField | onprem/ingest/stores/sparse.py:446-460 | under the default schema, an unstored key is renamed onto a glob field whose kind (boolean, numeric, datetime, keyword) matches its value, and is dropped exactly when no kind fits |
| Mapper.MetadataFields | onprem/ingest/stores/sparse.py:446-460 | the metadata loop as a definition: each pair in order written under its renamed key; characterised by `MetadataFieldsLastWins` |
| Mapper.RecordId | onprem/ingest/stores/sparse.py:461 | the id as a definition: the metadata `id` when present and truthy, else the fresh id |
| Mapper.Lookup | onprem/ingest/stores/sparse.py:461 | `metadata.get(key)` finds a value exactly when some pair has that key, and the value found is that of the last pair with the key |
| Mapper.MapDocument | onprem/ingest/stores/sparse.py:440-468 | the record's `id` is the metadata id when that is truthy, else the fresh id; `page_content` is the normalised text; `source_search` and `filepath_search` copy `source` and `filepath` when present, and when `source` (or `filepath`) is absent, `source_search` (or `filepath_search`) is what the metadata loop wrote, if anything; every other key is what the metadata loop wrote |
| Mapper.Doc2Dict | onprem/ingest/stores/sparse.py:440-468 | the key-by-key metadata loop followed by the four assignments builds exactly the record `MapDocument` describes |
| Mapper.MetadataFieldsLastWins | onprem/ingest/stores/sparse.py:446-460 | a target key is present exactly when some metadata pair renames to it, and it holds the value of the last such pair |
| Mapper.OnlyItselfRenamesToStoredName | onprem/ingest/stores/sparse.py:446-449 | under the default schema, only the stored name itself renames to a stored name |
| Mapper.DefaultStoredNameKeepsItsKey | onprem/ingest/stores/sparse.py:444-468 | a metadata key that is a stored name, other than `id`, `page_content`, `source_search` and `filepath_search` (which the mapper writes itself afterwards), appears in the record under its own name, holding the value of its last occurrence |
| QueryText.Strip | onprem/ingest/stores/sparse.py:266 | the substitution as a definition: a left-to-right scan of non-overlapping matches of a word character, a `?`, and then white space, a quote or the end; white space or a quote is tried before the end, and the end also matches before a final newline; each match loses its `?` |
| QueryText.Preprocess | onprem/ingest/stores/sparse.py:259-267 | `_preprocess_query` as a definition: drop one final `?`, then apply the substitution |
| QueryText.StripDeletedFrom | onprem/ingest/stores/sparse.py:266 | every position the scan deletes is the `?` of a match: it directly follows a word character and is followed by white space, a quote, the end of the text, or a final newline |
| QueryText.StripDeletesEveryMatch | onprem/ingest/stores/sparse.py:266 | with Python's character classes, conversely, the `?` of every match is deleted, since matches cannot overlap |
| QueryText.PreprocessDeleted | onprem/ingest/stores/sparse.py:259-267 | every position preprocessing deletes holds a `?` that is either the query's final character or the `?` of a match in the query with its final `?` dropped (after a word character, before white space, a quote or the end) |
| QueryText.PreprocessDeletesExactlyTheMatches | onprem/ingest/stores/sparse.py:259-267 | with Python's character classes, a position is deleted if and only if it is the final `?` or the `?` of such a match |
| QueryText.PreprocessKeepsWildcardInsideTerm | onprem/ingest/stores/sparse.py:252-266 | a `?` followed by a word character, the one-character wildcard inside a term as in `te?t`, is never deleted |
| QueryText.StripDeletesOnlyQuestionMarks | onprem/ingest/stores/sparse.py:266 | the substitution's result is the text with exactly the positions named by `StripDeletedFrom` deleted; every other character is kept, in order |
| QueryText.PreprocessDeletesOnlyQuestionMarks | onprem/ingest/stores/sparse.py:259-267 | the preprocessed query is the query with exactly the positions named by `PreprocessDeleted` deleted: a final `?` and `?`s that follow a word character; every other character is kept, in order |
| QueryText.StripWithoutMatchIsIdentity | onprem/ingest/stores/sparse.py:266 | with no word character followed by `?` and then white space, a quote or the end, the text is unchanged |
| QueryText.PreprocessWithoutQuestionMark | onprem/ingest/stores/sparse.py:251-267 | a query containing no `?` is returned unchanged |
| QueryText.PreprocessKeepsQuestionMarkAfterNonWord | onprem/ingest/stores/sparse.py:260-266 | in any query, a character at any position but the last that starts the query or follows a non-word character is not deleted; in particular such a `?` is kept (in `a? ?b` the second `?`) |
| QueryText.QuestionIsSameQueryAsStatement | onprem/ingest/stores/sparse.py:260-261 | dropping one final `?` makes a question the same query as the statement |
| QueryText.StripLeavesNoMatch | onprem/ingest/stores/sparse.py:266 | with Python's character classes, no deletable `?` is left after the substitution |
| QueryText.StripIdempotent | onprem/ingest/stores/sparse.py:266 | a second pass of the substitution changes nothing |
| QueryText.PreprocessLeavesNoWordQuestionMark | onprem/ingest/stores/sparse.py:259-267 | the preprocessed query has no word character followed by `?` and then white space, a quote or the end |
| QueryPlan.FilterOf | onprem/ingest/stores/sparse.py:306-311 | no filter exactly when `filters` is empty; otherwise the definition gives one `Term(key, value)` per filter key, in order |
| QueryPlan.BuildFilter | onprem/ingest/stores/sparse.py:306-311 | the appending loop builds exactly that filter |
| QueryPlan.FilterIsConjunction | onprem/ingest/stores/sparse.py:306-311 | a record passes the filter exactly when it holds every filtered field with the filtered value |
| QueryPlan.ComposeText | onprem/ingest/stores/sparse.py:300-303 | the text is the preprocessed query; with a non-empty sub-query it is `(` + preprocessed + `) AND (` + sub-query + `)`, the sub-query verbatim |
| QueryPlan.PlanOf | onprem/ingest/stores/sparse.py:300-311 | what `query` hands the engine: the composed text and the filter built from `filters` (a definition; characterised by `ComposeText`, `FilterIsConjunction` and `PlainQueryPlan`) |
| QueryPlan.PlainQueryPlan | onprem/ingest/stores/sparse.py:300-311 | with no sub-query and no filters, the engine gets the query unchanged (when it has no `?`) and no filter |
| Results.Highlighted | onprem/ingest/stores/sparse.py:324-328 | the highlighted hit as a definition (closed form of the loop); characterised by `HighlightedEntries` |
| Results.HighlightedEntries | onprem/ingest/stores/sparse.py:322-329 | an `hl_f` entry exists for each searched field `f` whose stored value is a non-empty string, holding the highlight when it is non-empty, else the raw value; every other stored field is copied unchanged, and no other key is added |
| Results.HighlightedStep | onprem/ingest/stores/sparse.py:326-328 | each searched field adds or overwrites one `hl_` entry, or adds nothing |
| Results.FirstMissing | onprem/ingest/stores/sparse.py:326-327 | finds the first searched field the hit does not store, which `r[f]` fails on, or none when all are stored |
| Results.ShapeHit | onprem/ingest/stores/sparse.py:322-329 | `process_result` as a definition: the stored fields when highlighting is off, else a key error for the first unstored searched field or the highlighted hit |
| Results.ProcessResult | onprem/ingest/stores/sparse.py:322-329 | the highlight loop returns the stored fields when highlighting is off, a key error for the first unstored searched field, and otherwise the highlighted hit |
| Results.ShapeAll | onprem/ingest/stores/sparse.py:358 | every hit of the window is shaped, in order; the list fails exactly when some hit fails, and then with the error of the first failing hit |
| Results.ProcessResults | onprem/ingest/stores/sparse.py:358 | the list comprehension over the hits returns exactly `ShapeAll` of them: every hit shaped in order, or the first key error |
| Results.CeilDiv | onprem/ingest/stores/sparse.py:336 | `ceil(n/d)` is the least multiple count covering n: `n <= r*d < n + d` |
| Results.PastLastPage | onprem/ingest/stores/sparse.py:355 | the gate `page > math.ceil(total_hits/limit)` as a definition; characterised by the next lemma |
| Results.PastLastPageIffPageStartsPastEnd | onprem/ingest/stores/sparse.py:355-356 | the gate `page > ceil(total_hits/limit)` fires exactly when the page's first position `(page-1)*limit` is at or beyond `total_hits` |
| Results.ShapePage | onprem/ingest/stores/sparse.py:352-359 | past the last page, the hits are empty and `total_hits` is returned unchanged; otherwise the hits are the shaped window, and the page fails exactly when shaping fails, with the error of the first failing hit; `total_hits` always passes through |
| Results.Query | onprem/ingest/stores/sparse.py:300-359 | `query` hands the engine the composed text and filter, and returns the gated, shaped page for the window the engine returned |
| Results.ReturnedHitsSatisfyFilters | onprem/ingest/stores/sparse.py:306-329 | when the engine honours the filter, and no filter key is an `hl_` name, every returned hit holds every filtered field with its value |
| Rerank.Scored | onprem/ingest/stores/sparse.py:387-388 | candidate i with its `score` set: it keeps its position and carries the score, its `score` field is the score, and every other field is the candidate's own |
| Rerank.SliceLength | onprem/ingest/stores/sparse.py:391 | `[:k]` keeps `min(k, n)` elements for `k >= 0`, and never more than n |
| Rerank.SortByScore | onprem/ingest/stores/sparse.py:391 | the sort yields a permutation of the candidates in non-increasing score order, with equal scores in their original order |
| Rerank.SortedPrefixIsTop | onprem/ingest/stores/sparse.py:391 | the cut keeps the top of that order: every candidate left out ranks after every kept one |
| Rerank.SemanticSearch | onprem/ingest/stores/sparse.py:374-391 | an empty candidate list returns empty without calling the embedding model; otherwise the result has `min(k, n)` candidates, each carrying its own score, in stable descending order, and no omitted candidate outranks a kept one |
| Store.OpenChoice | onprem/ingest/stores/sparse.py:97-109 | a truthy directory with an empty index name is an error; a truthy directory attaches to an existing index and creates a missing one; no directory means in memory |
| Store.EraseDecision | onprem/ingest/stores/sparse.py:232-241 | an erase happens only if the index exists; a confirmed erase also needs the exact answer `"Y"`; an unconfirmed one needs nothing else |
| Store.UpsertAll | onprem/ingest/stores/sparse.py:136-140 | the batch of `update_document` calls as a definition: each record written under its id, in order; characterised by `UpsertLastWins` |
| Store.UpsertLastWins | onprem/ingest/stores/sparse.py:136-140 | after the batch, each batch id holds the whole last batch record with that id; every other id keeps its old record and is present exactly when it was |
| Store.UpsertKeepsTableValid | onprem/ingest/stores/sparse.py:136-140 | upserting keeps every record under its own id |
| Store.UpsertOfNewIdsGrowsTable | onprem/ingest/stores/sparse.py:136-140 | a batch of distinct new ids adds one record each and replaces nothing |
| Store.MapBatch | onprem/ingest/stores/sparse.py:137-138 | the batch holds one `doc2dict` record per document, in order, each with an `id` |
| Store.FreshIdsAddOneRecordEach | onprem/ingest/stores/sparse.py:461 | documents without an id, given distinct fresh ids, each become a new record; nothing indexed before is replaced |
| Store.PrefixMatched | onprem/ingest/stores/sparse.py:180-182 | the ids of the records whose field is a string starting with the prefix: what `Prefix(field, prefix)` finds |
| Store.PrefixIsPlainStringPrefix | onprem/ingest/stores/sparse.py:180-182 | the prefix match is on strings, not paths: `/a/b` matches `/a/bc/x.pdf` |
| Store.IndexCatalog.constructor | onprem/ingest/stores/sparse.py:100-103 | the catalog starts as the given set of persisted indexes |
| Store.IndexCatalog.InitializeIndex | onprem/ingest/stores/sparse.py:403-426 | an existing index is an error and changes nothing; otherwise an empty index with the given schema (the default when none is given) is persisted under that path and name |
| Store.SparseStore.Size | onprem/ingest/stores/sparse.py:219-225 | `get_size()`, the engine's `doc_count`: the number of records in the table (a definition) |
| Store.SparseStore.Init | onprem/ingest/stores/sparse.py:95-109 | the store holds its directory, name, schema and records, with no transaction yet |
| Store.SparseStore.Open | onprem/ingest/stores/sparse.py:95-109 | a directory with an empty index name fails and persists nothing; an existing index is attached as it is; a missing one is created empty with the default schema; with no directory, an empty in-memory index with the default schema is used |
| Store.SparseStore.Committed | onprem/ingest/stores/sparse.py:140 | the persisted indexes after a commit: a persistent store's index holds the store's table; an in-memory store changes nothing on disk |
| Store.SparseStore.Commit | onprem/ingest/stores/sparse.py:140 | `writer.commit()`: one more transaction, and the persisted indexes become `Committed` of the old ones, with the table unchanged |
| Store.SparseStore.AddDocuments | onprem/ingest/stores/sparse.py:126-140 | one transaction that upserts `doc2dict` of each document, in order, and commits the new table to a persistent index |
| Store.SparseStore.UpdateDocuments | onprem/ingest/stores/sparse.py:194-201 | converts each dictionary to a document and adds them like `add_documents` |
| Store.SparseStore.RemoveDocument | onprem/ingest/stores/sparse.py:143-152 | one transaction that removes exactly the records whose field equals the value, leaves the rest unchanged, and commits the new table to a persistent index |
| Store.SparseStore.DeleteByPrefix | onprem/ingest/stores/sparse.py:166-191 | returns the number of records whose field value starts with the prefix, and makes them exactly the removed ones; the size drops by that count; a transaction, and a write to a persistent index, happens only when the count is non-zero |
| Store.SparseStore.RemoveSource | onprem/ingest/stores/sparse.py:155-163 | is `delete_by_prefix` on the `source` field |
| Store.SparseStore.Erase | onprem/ingest/stores/sparse.py:228-248 | returns the erase decision; on true, the persisted index is replaced by an empty one with the default schema; on false, nothing changes |
| Store.CommittedDocumentsSurviveReopen | onprem/ingest/stores/sparse.py:99-140 | documents added to a persistent index through one store are exactly what a store that later opens the same directory and index name sees |

## Left out

- The lexical engine is not modelled: tokenisation, stemming, `Variations`, `MultifieldParser` with `OrGroup` parsing, scoring, `highlights()` and the `search`/`search_page` windowing. The ranked window, `total_hits` (the engine's `scored_length()`) and the fragments are inputs.
- Mapper.Document: metadata is a sequence of pairs, which may repeat a key where a Python dict cannot. On duplicate-free metadata, the only kind a dict gives, the pairs are applied in the dict's order; with a repeated key the model applies them in sequence order, which need not be the order of the dict built from them. The `filters` argument of `query` (`QueryPlan.FilterOf`) is likewise a sequence of pairs: a repeated key gives one clause per pair, all AND-ed, where a dict would keep only the last value.
- Keyword fields are single string values; the comma tokenisation of `KEYWORD(commas=True)` fields is not modelled.
- Exact-term clauses and `delete_by_term` are read as field equality. This is an assumption about the engine: on a tokenised text field it would match on a single token instead.
- Upsert by id is assumed to replace also between two documents of the same batch. This is an assumption about the engine, whose `update_document` is documented to replace committed documents; two uncommitted documents with one id might both be kept.
- Reading a hit's field `r[f]` that the hit does not store is modelled as a key error, an assumption about the engine's hit lookup.
- NFKC normalisation (`normalize_text`), `\w`, `\s` and `uuid4` are parameters. For the idempotence and no-leftover lemmas, `\w` and `\s` are assumed to satisfy the facts Python's classes satisfy (`QueryText.PythonLikeClasses`).
- Embeddings and cosine similarity are foreign floating-point work. The scores are given reals, so IEEE effects such as NaN ordering are not modelled.
- Results.CeilDiv: the source computes `math.ceil(total_hits/limit)` in floating point; the model is exact, which agrees for counts below 2^53.
- Results.Query: requires `limit > 0`; for a zero limit the source's division raises, and a non-positive limit or page is rejected by the engine, neither of which is modelled.
- The generator form of `query` returns the same hits as the list form; the searcher's lifetime (`searcher.close()`) is resource management and is left out.
- `return_dict=False`, and the final conversion in `semantic_search`, turn records into documents with `doc_from_dict`. That function is not part of this model, so records are returned instead; `Store.SparseStore.UpdateDocuments` takes the conversion as a parameter.
- Rerank.SemanticSearch: the lexical query it runs first, with `limit=n_candidates`, is `Results.Query`; its candidates are taken as a parameter here, after shaping.
- `get_all_docs`, `get_doc`, `get_db`, `exists`, `get_size(include_deleted=True)` (the count of deleted documents not yet optimised away), `index_exists_in` and `init_embedding_model` depend on the engine or on model loading and are not modelled; `SparseStore.Size` is `get_size()` without deleted documents.
- The `optimize`, `limitmb` and extra writer arguments, writer locking and concurrency are engine bookkeeping and are not modelled.
- Filesystem work (`exists_in`, `open_dir`, `create_in`, `os.makedirs`, `RamStorage`) is the `IndexCatalog`, persisted indexes keyed by directory and name. Every commit of a persistent store writes the store's whole table to its entry (`SparseStore.Commit`). Several stores open on the same index keep separate tables between commits; concurrent writers are not modelled. The `warnings` message and the `tqdm` progress bar are left out.
- Store.IndexCatalog.InitializeIndex: a schema is modelled by its stored names. A schema object that is falsy because it has no fields falls back to the default in the source but not in the model. Failing to create the directory is not modelled.
- Store.SparseStore.Erase: the new index is bound to a local in the source and `self.ix` is not reassigned, so the model leaves the store's own table as it was, and a later commit through the same store writes that table over the erased index; what the engine's handle reads after `erase` is engine behaviour and is not modelled. For an in-memory store the directory is `None`: the source's `exists_in(None, …)` reaches `os.path.exists(None)`, which raises instead of returning false; the model's `false` stands in for that exception.

/** Result shaping in `query` (sparse.py:313-359): the page-beyond-end gate,
    the `hl_` highlight entries of each hit, and the query method that ties the
    plan to the page it returns. The engine's ranked window of hits and its
    count `total_hits` are inputs. */
module Results {
  import opened Values
  import QueryText
  import QueryPlan

  /** A hit as the engine returns it: its stored fields and, per field, the
      highlighted fragment the engine made for it (absent means none). */
  datatype EngineHit = EngineHit(stored: Record, fragments: map<string, string>)

  /** Reading a field the hit does not store raises a key error. */
  datatype QueryError = MissingField(field: string)

  /** The returned dictionary `{'hits': ..., 'total_hits': ...}`. */
  datatype Page = Page(hits: seq<Record>, totalHits: nat)

  /** `r.highlights(f)`: the fragment, or "" when none was produced. */
  function Fragment(hit: EngineHit, f: string): string {
    if f in hit.fragments then hit.fragments[f] else ""
  }

  /** A field gets an `hl_` entry when its stored value is a non-empty string. */
  predicate Highlightable(hit: EngineHit, f: string) {
    f in hit.stored && hit.stored[f].StrVal? && hit.stored[f].s != ""
  }

  /** `r.highlights(f) or r[f]`: the fragment when non-empty, else the raw value. */
  function HighlightOf(hit: EngineHit, f: string): Value
    requires Highlightable(hit, f)
  {
    var frag := Fragment(hit, f);
    StrVal(if frag != "" then frag else hit.stored[f].s)
  }

  /** k is the `hl_` key of a highlightable searched field. */
  predicate IsHighlightKey(hit: EngineHit, fields: seq<string>, k: string) {
    StartsWith(k, "hl_") && k[3..] in fields && Highlightable(hit, k[3..])
  }

  function HighlightKeys(hit: EngineHit, fields: seq<string>): set<string> {
    set f | f in fields && Highlightable(hit, f) :: "hl_" + f
  }

  lemma HighlightKeyPrefix(f: string)
    ensures StartsWith("hl_" + f, "hl_") && ("hl_" + f)[3..] == f
  {
  }

  lemma HighlightKeysAreHighlightKeys(hit: EngineHit, fields: seq<string>)
    ensures forall k :: k in HighlightKeys(hit, fields) <==> IsHighlightKey(hit, fields, k)
  {
    forall k | k in HighlightKeys(hit, fields)
      ensures IsHighlightKey(hit, fields, k)
    {
      var f :| f in fields && Highlightable(hit, f) && k == "hl_" + f;
      HighlightKeyPrefix(f);
    }
    forall k | IsHighlightKey(hit, fields, k)
      ensures k in HighlightKeys(hit, fields)
    {
      assert k == "hl_" + k[3..];
    }
  }

  /** The highlighted hit, in closed form: every stored field, plus one `hl_`
      entry per highlightable searched field (which wins over a stored field of
      the same name). */
  function Highlighted(hit: EngineHit, fields: seq<string>): Record {
    HighlightKeysAreHighlightKeys(hit, fields);
    map k | k in hit.stored.Keys + HighlightKeys(hit, fields) ::
      if IsHighlightKey(hit, fields, k) then HighlightOf(hit, k[3..]) else hit.stored[k]
  }

  /** What highlighting does to a hit: an `hl_f` entry holding the fragment or
      the raw value for exactly the searched fields f whose stored value is a
      non-empty string; every other stored field copied unchanged. */
  lemma HighlightedEntries(hit: EngineHit, fields: seq<string>)
    ensures forall f :: f in fields && Highlightable(hit, f) ==>
              "hl_" + f in Highlighted(hit, fields) && Highlighted(hit, fields)["hl_" + f] == HighlightOf(hit, f)
    ensures forall k :: k in Highlighted(hit, fields) && k !in hit.stored ==> IsHighlightKey(hit, fields, k)
    ensures forall k :: k in hit.stored && !IsHighlightKey(hit, fields, k) ==>
              k in Highlighted(hit, fields) && Highlighted(hit, fields)[k] == hit.stored[k]
  {
    HighlightKeysAreHighlightKeys(hit, fields);
    forall f | f in fields && Highlightable(hit, f)
      ensures "hl_" + f in Highlighted(hit, fields) && Highlighted(hit, fields)["hl_" + f] == HighlightOf(hit, f)
    {
      HighlightKeyPrefix(f);
    }
  }

  /** One more searched field adds (or overwrites) one `hl_` entry, or nothing. */
  lemma HighlightedStep(hit: EngineHit, fields: seq<string>, f: string)
    ensures Highlighted(hit, fields + [f]) ==
              if Highlightable(hit, f) then Highlighted(hit, fields)["hl_" + f := HighlightOf(hit, f)]
              else Highlighted(hit, fields)
  {
    var a := Highlighted(hit, fields + [f]);
    var b := if Highlightable(hit, f) then Highlighted(hit, fields)["hl_" + f := HighlightOf(hit, f)]
             else Highlighted(hit, fields);
    HighlightKeysAreHighlightKeys(hit, fields);
    HighlightKeysAreHighlightKeys(hit, fields + [f]);
    HighlightKeyPrefix(f);
    forall k
      ensures IsHighlightKey(hit, fields + [f], k) <==>
                IsHighlightKey(hit, fields, k) || (Highlightable(hit, f) && k == "hl_" + f)
    {
      if StartsWith(k, "hl_") && k[3..] == f {
        assert k == "hl_" + f;
      }
    }
    assert a.Keys == b.Keys;
    forall k | k in a
      ensures a[k] == b[k]
    {
    }
  }

  /** The first searched field the hit does not store. */
  function FirstMissing(stored: Record, fields: seq<string>): (r: Option<string>)
    ensures r.None? <==> forall j :: 0 <= j < |fields| ==> fields[j] in stored
    ensures r.Some? ==> exists i :: 0 <= i < |fields| && fields[i] == r.value && r.value !in stored &&
                                    forall j :: 0 <= j < i ==> fields[j] in stored
    decreases |fields|
  {
    if fields == [] then None
    else if fields[0] !in stored then Some(fields[0])
    else
      var r := FirstMissing(stored, fields[1..]);
      assert r.Some? ==> exists i :: 1 <= i < |fields| && fields[i] == r.value && r.value !in stored &&
                                     forall j :: 1 <= j < i ==> fields[j] in stored;
      r
  }

  lemma {:induction false} FirstMissingAt(stored: Record, fields: seq<string>, i: nat)
    requires i < |fields| && fields[i] !in stored
    requires forall j :: 0 <= j < i ==> fields[j] in stored
    ensures FirstMissing(stored, fields) == Some(fields[i])
    decreases i
  {
    if i > 0 {
      FirstMissingAt(stored, fields[1..], i - 1);
    }
  }

  /** `process_result` on one hit: with highlighting off the stored fields as
      they are; with it on, a key error for the first searched field the hit
      does not store, else the highlighted hit. */
  function ShapeHit(hit: EngineHit, fields: seq<string>, highlight: bool): Result<Record, QueryError> {
    if !highlight then Ok(hit.stored)
    else match FirstMissing(hit.stored, fields)
      case Some(f) => Err(MissingField(f))
      case None => Ok(Highlighted(hit, fields))
  }

  /** `process_result` as the source runs it: a loop over the searched fields. */
  method ProcessResult(hit: EngineHit, fields: seq<string>, highlight: bool)
    returns (res: Result<Record, QueryError>)
    ensures res == ShapeHit(hit, fields, highlight)
  {
    var d := hit.stored;
    if highlight {
      assert Highlighted(hit, []) == hit.stored;
      for i := 0 to |fields|
        invariant forall j :: 0 <= j < i ==> fields[j] in hit.stored
        invariant d == Highlighted(hit, fields[..i])
      {
        var f := fields[i];
        if f !in hit.stored {
          FirstMissingAt(hit.stored, fields, i);
          return Err(MissingField(f));
        }
        assert fields[..i + 1] == fields[..i] + [f];
        HighlightedStep(hit, fields[..i], f);
        if hit.stored[f].StrVal? && hit.stored[f].s != "" {
          d := d["hl_" + f := HighlightOf(hit, f)];
        }
      }
      assert fields[..|fields|] == fields;
    }
    return Ok(d);
  }

  /** The shaped window: every hit shaped in order; the first key error wins. */
  function ShapeAll(window: seq<EngineHit>, fields: seq<string>, highlight: bool): (r: Result<seq<Record>, QueryError>)
    ensures r.Ok? ==> |r.value| == |window| &&
                      forall i :: 0 <= i < |window| ==> ShapeHit(window[i], fields, highlight) == Ok(r.value[i])
    ensures r.Err? <==> exists i :: 0 <= i < |window| && ShapeHit(window[i], fields, highlight).Err?
    ensures r.Err? ==> exists i :: 0 <= i < |window| && ShapeHit(window[i], fields, highlight) == Err(r.error) &&
                                   forall j :: 0 <= j < i ==> ShapeHit(window[j], fields, highlight).Ok?
    decreases |window|
  {
    if window == [] then Ok([])
    else
      var init := window[..|window| - 1];
      assert forall i :: 0 <= i < |init| ==> init[i] == window[i];
      match ShapeAll(init, fields, highlight)
      case Err(e) => Err(e)
      case Ok(ds) =>
        match ShapeHit(window[|window| - 1], fields, highlight)
        case Err(e) => Err(e)
        case Ok(d) => Ok(ds + [d])
  }

  lemma {:induction false} ShapeAllErrorPersists(window: seq<EngineHit>, i: nat, fields: seq<string>, highlight: bool)
    requires i <= |window| && ShapeAll(window[..i], fields, highlight).Err?
    ensures ShapeAll(window, fields, highlight) == ShapeAll(window[..i], fields, highlight)
    decreases |window|
  {
    if i < |window| {
      var init := window[..|window| - 1];
      assert init[..i] == window[..i];
      ShapeAllErrorPersists(init, i, fields, highlight);
    } else {
      assert window[..i] == window;
    }
  }

  /** `math.ceil(n / d)` for a count n and a positive d. */
  function CeilDiv(n: nat, d: int): (r: nat)
    requires d > 0
    ensures n <= r * d < n + d
  {
    var r := (n + d - 1) / d;
    assert r * d + (n + d - 1) % d == n + d - 1;
    r
  }

  /** The gate `page > math.ceil(total_hits / limit)`. */
  predicate PastLastPage(page: int, totalHits: nat, limit: int)
    requires limit > 0
  {
    page > CeilDiv(totalHits, limit)
  }

  lemma MultiplyMonotone(a: int, b: int, c: int)
    requires a <= b && c > 0
    ensures a * c <= b * c
  {
    assert b * c - a * c == (b - a) * c;
  }

  /** The gate empties the page exactly when the page's first position,
      `(page - 1) * limit`, is at or past the last hit: it never drops a page
      that has hits and always drops one that cannot have any. */
  lemma PastLastPageIffPageStartsPastEnd(page: int, totalHits: nat, limit: int)
    requires limit > 0
    ensures PastLastPage(page, totalHits, limit) <==> (page - 1) * limit >= totalHits
  {
    var c := CeilDiv(totalHits, limit);
    if page > c {
      MultiplyMonotone(c, page - 1, limit);
    } else {
      MultiplyMonotone(page - 1, c - 1, limit);
      assert (c - 1) * limit == c * limit - limit;
    }
  }

  /** The page `query` returns for an engine window: empty past the last page,
      else the shaped window; `total_hits` is passed through either way. */
  function ShapePage(window: seq<EngineHit>, totalHits: nat, page: int, limit: int,
                     fields: seq<string>, highlight: bool): (r: Result<Page, QueryError>)
    requires limit > 0
    ensures PastLastPage(page, totalHits, limit) ==> r == Ok(Page([], totalHits))
    ensures r.Ok? ==> r.value.totalHits == totalHits
    ensures !PastLastPage(page, totalHits, limit) ==>
              (r.Ok? <==> ShapeAll(window, fields, highlight).Ok?) &&
              (r.Ok? ==> r.value.hits == ShapeAll(window, fields, highlight).value)
    ensures !PastLastPage(page, totalHits, limit) && r.Err? ==> r == Err(ShapeAll(window, fields, highlight).error)
  {
    if PastLastPage(page, totalHits, limit) then Ok(Page([], totalHits))
    else match ShapeAll(window, fields, highlight)
      case Ok(hs) => Ok(Page(hs, totalHits))
      case Err(e) => Err(e)
  }

  /** `query`: preprocess and compose the text, build the filter, then apply the
      page gate to the window the engine returned for that plan and shape each
      hit. The list and the generator form return the same hits. */
  method Query(q: string, fields: seq<string>, highlight: bool, limit: int, page: int,
               filters: seq<(string, Value)>, whereDocument: Option<string>,
               isWord: char -> bool, isSpace: char -> bool,
               window: seq<EngineHit>, totalHits: nat)
    returns (plan: QueryPlan.Plan, outcome: Result<Page, QueryError>)
    requires limit > 0
    ensures plan == QueryPlan.PlanOf(q, filters, whereDocument, isWord, isSpace)
    ensures outcome == ShapePage(window, totalHits, page, limit, fields, highlight)
  {
    var text := QueryText.Preprocess(q, isWord, isSpace);
    if TruthyText(whereDocument) {
      text := "(" + text + ") AND (" + whereDocument.value + ")";
    }
    var combined := QueryPlan.BuildFilter(filters);
    plan := QueryPlan.Plan(text, combined);

    var results := window;
    if PastLastPage(page, totalHits, limit) {
      results := [];
    }
    var shaped := ProcessResults(results, fields, highlight);
    outcome := match shaped
      case Ok(hits) => Ok(Page(hits, totalHits))
      case Err(e) => Err(e);
  }

  /** `[process_result(r) for r in results]`: the hits shaped in order; the
      first key error ends the list. */
  method ProcessResults(results: seq<EngineHit>, fields: seq<string>, highlight: bool)
    returns (shaped: Result<seq<Record>, QueryError>)
    ensures shaped == ShapeAll(results, fields, highlight)
  {
    var hits: seq<Record> := [];
    for i := 0 to |results|
      invariant ShapeAll(results[..i], fields, highlight) == Ok(hits)
    {
      assert results[..i + 1][..i] == results[..i];
      var r := ProcessResult(results[i], fields, highlight);
      if r.Err? {
        ShapeAllErrorPersists(results, i + 1, fields, highlight);
        return Err(r.error);
      }
      hits := hits + [r.value];
    }
    assert results[..|results|] == results;
    return Ok(hits);
  }

  /** Filters hold on what `query` returns: when the engine honours the filter
      built from `filters` and no filtered field is an `hl_` name, every returned
      hit holds every filtered field with the filtered value. */
  lemma ReturnedHitsSatisfyFilters(window: seq<EngineHit>, totalHits: nat, page: int, limit: int,
                                   fields: seq<string>, highlight: bool, filters: seq<(string, Value)>)
    requires limit > 0
    requires forall i :: 0 <= i < |window| ==> QueryPlan.Admits(QueryPlan.FilterOf(filters), window[i].stored)
    requires forall j :: 0 <= j < |filters| ==> !StartsWith(filters[j].0, "hl_")
    ensures var r := ShapePage(window, totalHits, page, limit, fields, highlight);
            r.Ok? ==> forall h, j :: h in r.value.hits && 0 <= j < |filters| ==>
                        filters[j].0 in h && h[filters[j].0] == filters[j].1
  {
    var r := ShapePage(window, totalHits, page, limit, fields, highlight);
    if r.Ok? && !PastLastPage(page, totalHits, limit) {
      var hs := r.value.hits;
      forall h, j | h in hs && 0 <= j < |filters|
        ensures filters[j].0 in h && h[filters[j].0] == filters[j].1
      {
        var i :| 0 <= i < |hs| && hs[i] == h;
        QueryPlan.FilterIsConjunction(filters, window[i].stored);
        HighlightedEntries(window[i], fields);
        assert ShapeHit(window[i], fields, highlight) == Ok(h);
      }
    }
  }
}

/** Query assembly in `query` (sparse.py:300-311): the preprocessed text, the
    optional sub-query conjoined to it, and the exact-term filter built from
    the `filters` argument. Parsing the text is the engine's work. */
module QueryPlan {
  import opened Values
  import QueryText

  /** An exact-term clause `Term(field, value)`. */
  datatype Term = Term(field: string, value: Value)

  /** What `query` hands to the engine: the query text and the filter, if any. */
  datatype Plan = Plan(text: string, filter: Option<seq<Term>>)

  /** A record passes the filter when it matches every clause of the conjunction;
      no filter passes every record. */
  predicate Admits(filter: Option<seq<Term>>, rec: Record) {
    filter.None? || forall i :: 0 <= i < |filter.value| ==> TermMatches(rec, filter.value[i].field, filter.value[i].value)
  }

  /** The filter of a `filters` mapping, given as its ordered pairs: no filter
      when it is empty (or absent), else one clause per pair, in order. */
  function FilterOf(filters: seq<(string, Value)>): (f: Option<seq<Term>>)
    ensures f.None? <==> filters == []
  {
    if filters == [] then None
    else Some(seq(|filters|, i requires 0 <= i < |filters| => Term(filters[i].0, filters[i].1)))
  }

  /** The filter-building loop of `query`: one clause appended per key. */
  method BuildFilter(filters: seq<(string, Value)>) returns (combined: Option<seq<Term>>)
    ensures combined == FilterOf(filters)
  {
    combined := None;
    if |filters| > 0 {
      var terms: seq<Term> := [];
      for i := 0 to |filters|
        invariant |terms| == i
        invariant forall j :: 0 <= j < i ==> terms[j] == Term(filters[j].0, filters[j].1)
      {
        terms := terms + [Term(filters[i].0, filters[i].1)];
      }
      assert terms == FilterOf(filters).value;
      combined := Some(terms);
    }
  }

  /** The filter is the conjunction of its pairs: a record passes exactly when
      it holds every filtered field with the filtered value. */
  lemma FilterIsConjunction(filters: seq<(string, Value)>, rec: Record)
    ensures Admits(FilterOf(filters), rec) <==>
              forall i :: 0 <= i < |filters| ==> filters[i].0 in rec && rec[filters[i].0] == filters[i].1
  {
    var f := FilterOf(filters);
    if f.Some? {
      if Admits(f, rec) {
        forall i | 0 <= i < |filters|
          ensures filters[i].0 in rec && rec[filters[i].0] == filters[i].1
        {
          assert TermMatches(rec, f.value[i].field, f.value[i].value);
        }
      }
    }
  }

  /** The query text: preprocessed, and when a sub-query is given, wrapped as
      `(text) AND (sub-query)` with the sub-query left verbatim. */
  function ComposeText(q: string, whereDocument: Option<string>,
                       isWord: char -> bool, isSpace: char -> bool): (text: string)
    ensures !TruthyText(whereDocument) ==> text == QueryText.Preprocess(q, isWord, isSpace)
    ensures TruthyText(whereDocument) ==>
              var p := QueryText.Preprocess(q, isWord, isSpace);
              var w := whereDocument.value;
              |text| == |p| + |w| + 9 &&
              text[..1] == "(" && text[1..|p| + 1] == p &&
              text[|p| + 1..|p| + 8] == ") AND (" &&
              text[|p| + 8..|text| - 1] == w && text[|text| - 1] == ')'
  {
    var p := QueryText.Preprocess(q, isWord, isSpace);
    if TruthyText(whereDocument) then "(" + p + ") AND (" + whereDocument.value + ")" else p
  }

  /** The plan `query` executes. */
  function PlanOf(q: string, filters: seq<(string, Value)>, whereDocument: Option<string>,
                  isWord: char -> bool, isSpace: char -> bool): Plan {
    Plan(ComposeText(q, whereDocument, isWord, isSpace), FilterOf(filters))
  }

  /** Without a sub-query and without filters, the engine is given exactly the
      preprocessed text and no filter; the unchanged text when it holds no `?`. */
  lemma PlainQueryPlan(q: string, isWord: char -> bool, isSpace: char -> bool)
    requires '?' !in q
    ensures PlanOf(q, [], None, isWord, isSpace) == Plan(q, None)
  {
    QueryText.PreprocessWithoutQuestionMark(q, isWord, isSpace);
  }
}

/** The rerank step of `semantic_search` (sparse.py:374-392): the lexical
    candidates, each given its similarity score, sorted by descending score
    (stably) and cut to `k`. The scores are what the embedding model yields. */
module Rerank {
  import opened Values

  /** A scored candidate: its position in the candidate list, the record with
      its `score` field set, and the score. */
  datatype Ranked = Ranked(pos: nat, doc: Record, score: real)

  /** a comes before b in a stable descending sort by score. */
  predicate Before(a: Ranked, b: Ranked) {
    a.score > b.score || (a.score == b.score && a.pos < b.pos)
  }

  /** Non-increasing scores, equal scores in their original order. */
  predicate RankedOrder(s: seq<Ranked>) {
    forall i, j :: 0 <= i < j < |s| ==> Before(s[i], s[j])
  }

  /** Candidate i with `results[i]['score'] = scores[i]` applied. */
  function Scored(candidates: seq<Record>, scores: seq<real>, i: nat): (r: Ranked)
    requires i < |candidates| && i < |scores|
    ensures r.pos == i && r.score == scores[i]
    ensures "score" in r.doc && r.doc["score"] == FloatVal(scores[i])
    ensures forall f :: f != "score" ==>
              (f in r.doc <==> f in candidates[i]) && (f in r.doc ==> r.doc[f] == candidates[i][f])
  {
    Ranked(i, candidates[i]["score" := FloatVal(scores[i])], scores[i])
  }

  /** The number of elements of `s[:k]` for a list of n elements (a negative k
      counts from the end, as Python slicing does). */
  function SliceLength(n: nat, k: int): (m: nat)
    ensures m <= n
    ensures k >= 0 ==> m == if k < n then k else n
  {
    if k >= 0 then (if k < n then k else n)
    else if n + k > 0 then n + k else 0
  }

  /** Insert x after every element with a score at least as high. */
  function Insert(s: seq<Ranked>, x: Ranked): seq<Ranked>
    decreases |s|
  {
    if s == [] then [x]
    else if s[0].score >= x.score then [s[0]] + Insert(s[1..], x)
    else [x] + s
  }

  /** Insertion adds exactly the inserted candidate. */
  lemma {:induction false} InsertAddsOne(s: seq<Ranked>, x: Ranked)
    ensures multiset(Insert(s, x)) == multiset(s) + multiset{x}
    decreases |s|
  {
    if s != [] && s[0].score >= x.score {
      InsertAddsOne(s[1..], x);
      assert s == [s[0]] + s[1..];
    }
  }

  /** Prepending an element that comes before every element of a sorted list keeps it sorted. */
  lemma PrependKeepsOrder(h: Ranked, rest: seq<Ranked>)
    requires RankedOrder(rest)
    requires forall e :: e in rest ==> Before(h, e)
    ensures RankedOrder([h] + rest)
  {
    var r := [h] + rest;
    forall i, j | 0 <= i < j < |r|
      ensures Before(r[i], r[j])
    {
      assert r[j] == rest[j - 1];
      if i > 0 {
        assert r[i] == rest[i - 1];
      } else {
        assert rest[j - 1] in rest;
      }
    }
  }

  /** Inserting a candidate that comes after all the sorted ones in the
      original order keeps the order. */
  lemma {:induction false} InsertKeepsOrder(s: seq<Ranked>, x: Ranked)
    requires RankedOrder(s)
    requires forall e :: e in s ==> e.pos < x.pos
    ensures RankedOrder(Insert(s, x))
    decreases |s|
  {
    if s != [] {
      var tail := s[1..];
      if s[0].score >= x.score {
        assert forall e :: e in tail ==> e in s;
        InsertKeepsOrder(tail, x);
        InsertAddsOne(tail, x);
        forall e | e in Insert(tail, x)
          ensures Before(s[0], e)
        {
          assert e in multiset(Insert(tail, x));
          if e != x {
            var j :| 0 <= j < |tail| && tail[j] == e;
            assert s[j + 1] == e;
          }
        }
        PrependKeepsOrder(s[0], Insert(tail, x));
      } else {
        forall e | e in s
          ensures Before(x, e)
        {
          var j :| 0 <= j < |s| && s[j] == e;
          if j > 0 {
            assert Before(s[0], s[j]);
          }
        }
        PrependKeepsOrder(x, s);
      }
    }
  }

  /** `sorted(items, key=score, reverse=True)`: a stable sort by descending score. */
  method SortByScore(items: seq<Ranked>) returns (sorted: seq<Ranked>)
    requires forall i :: 0 <= i < |items| ==> items[i].pos == i
    ensures RankedOrder(sorted)
    ensures multiset(sorted) == multiset(items)
  {
    sorted := [];
    for i := 0 to |items|
      invariant RankedOrder(sorted)
      invariant multiset(sorted) == multiset(items[..i])
      invariant forall e :: e in sorted ==> e.pos < i
    {
      assert items[..i + 1] == items[..i] + [items[i]];
      InsertKeepsOrder(sorted, items[i]);
      InsertAddsOne(sorted, items[i]);
      sorted := Insert(sorted, items[i]);
      forall e | e in sorted
        ensures e.pos < i + 1
      {
        assert e in multiset(items[..i + 1]);
      }
    }
    assert items[..|items|] == items;
  }

  /** The first m elements of a sorted permutation of the candidates are the
      top m: each is a candidate, and every candidate left out comes after all
      of them. */
  lemma SortedPrefixIsTop(sorted: seq<Ranked>, items: seq<Ranked>, m: nat)
    requires RankedOrder(sorted) && multiset(sorted) == multiset(items) && m <= |sorted|
    ensures |sorted| == |items|
    ensures forall i :: 0 <= i < m ==> sorted[i] in items
    ensures forall p :: 0 <= p < |items| && (forall i :: 0 <= i < m ==> sorted[i] != items[p]) ==>
              forall i :: 0 <= i < m ==> Before(sorted[i], items[p])
  {
    assert |multiset(sorted)| == |multiset(items)|;
    forall i | 0 <= i < m
      ensures sorted[i] in items
    {
      assert sorted[i] in multiset(items);
    }
    forall p | 0 <= p < |items| && (forall i :: 0 <= i < m ==> sorted[i] != items[p])
      ensures forall i :: 0 <= i < m ==> Before(sorted[i], items[p])
    {
      assert items[p] in multiset(sorted);
      var j :| 0 <= j < |sorted| && sorted[j] == items[p];
      assert j >= m;
    }
  }

  /** `semantic_search` after the lexical query: an empty candidate list is
      returned as it is without consulting the embedding model (`embedded` is
      false); otherwise every candidate gets its score, the list is sorted by
      descending score, keeping equal scores in their original order, and cut to
      `k`. The result is the top of that order: nothing left out ranks above
      anything kept. */
  method SemanticSearch(candidates: seq<Record>, scores: seq<real>, k: int)
    returns (top: seq<Ranked>, embedded: bool)
    requires |scores| == |candidates|
    ensures embedded <==> candidates != []
    ensures |top| == SliceLength(|candidates|, k)
    ensures RankedOrder(top)
    ensures forall i :: 0 <= i < |top| ==> top[i].pos < |candidates| && top[i] == Scored(candidates, scores, top[i].pos)
    ensures forall p :: 0 <= p < |candidates| && (forall i :: 0 <= i < |top| ==> top[i].pos != p) ==>
              forall i :: 0 <= i < |top| ==> Before(top[i], Scored(candidates, scores, p))
  {
    if candidates == [] {
      return [], false;
    }
    embedded := true;

    var results := candidates;
    for i := 0 to |candidates|
      invariant |results| == |candidates|
      invariant forall j :: 0 <= j < i ==> results[j] == candidates[j]["score" := FloatVal(scores[j])]
      invariant forall j :: i <= j < |candidates| ==> results[j] == candidates[j]
    {
      results := results[i := results[i]["score" := FloatVal(scores[i])]];
    }

    var items := seq(|results|, i requires 0 <= i < |results| => Ranked(i, results[i], scores[i]));
    assert forall i :: 0 <= i < |items| ==> items[i] == Scored(candidates, scores, i);
    var sorted := SortByScore(items);
    var m := SliceLength(|sorted|, k);
    SortedPrefixIsTop(sorted, items, m);
    top := sorted[..m];
    assert forall i :: 0 <= i < |top| ==> top[i] == sorted[i];
    forall i | 0 <= i < |top|
      ensures top[i].pos < |candidates| && top[i] == Scored(candidates, scores, top[i].pos)
    {
      var j :| 0 <= j < |items| && items[j] == top[i];
    }
  }
}

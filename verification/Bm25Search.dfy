// Searching the inverted index (search_where of src/memory/bm25.rs): every allowed document with a
// query term, scored once per distinct term, ranked and cut to the best k.
module Bm25Search {
  import opened Wrappers
  import opened Bytes
  import opened Bm25
  import opened Ranking

  // The contribution of one term: from the number of documents, the total of all lengths, the number
  // of documents with the term, and the document's count of the term and length.
  type Weight = (nat, nat, nat, nat, nat) -> real

  // What a search asks for besides its words.
  datatype Filter = Filter(allowed: Option<set<u64>>, accept: u64 -> bool)
  {
    predicate Admits(doc: u64) {
      (allowed.Some? ==> doc in allowed.value) && accept(doc)
    }
  }

  // The distinct terms in the order of their first occurrence.
  function Uniques(tokens: seq<Term>): seq<Term> {
    if tokens == [] then []
    else
      var front, last := tokens[..|tokens| - 1], tokens[|tokens| - 1];
      if last in front then Uniques(front) else Uniques(front) + [last]
  }

  // ---- what the score of a document is ----

  ghost function DocumentFrequency(live: Live, term: Term): nat {
    |set d | d in live && term in live[d]|
  }

  ghost function TermScore(live: Live, w: Weight, doc: u64, term: Term): real
    requires doc in live
  {
    if term in live[doc] then
      w(|live|, Sum(Lengths(live)), DocumentFrequency(live, term), Count(live[doc], term), |live[doc]|)
    else 0.0
  }

  ghost function Score(live: Live, w: Weight, doc: u64, terms: seq<Term>): real
    requires doc in live
  {
    if terms == [] then 0.0
    else Score(live, w, doc, terms[..|terms| - 1]) + TermScore(live, w, doc, terms[|terms| - 1])
  }

  ghost predicate HasTerm(tokens: seq<Term>, terms: seq<Term>) {
    exists t :: t in terms && t in tokens
  }

  // The scores of all documents that a search may return.
  ghost function ScoreMap(live: Live, w: Weight, filter: Filter, terms: seq<Term>): map<u64, real> {
    map d | d in live && filter.Admits(d) && HasTerm(live[d], terms) :: Score(live, w, d, terms)
  }

  // ---- one term ----

  // Add a value to the score of each admitted document of the postings.
  function Added(scores: map<u64, real>, filter: Filter, ps: seq<Posting>, value: Posting -> real): map<u64, real> {
    if ps == [] then scores
    else
      var front, last := Added(scores, filter, ps[..|ps| - 1], value), ps[|ps| - 1];
      if filter.Admits(last.0) then front[last.0 := (if last.0 in front then front[last.0] else 0.0) + value(last)] else front
  }

  ghost predicate DistinctDocs(ps: seq<Posting>) {
    forall i, j :: 0 <= i < j < |ps| ==> ps[i].0 != ps[j].0
  }

  lemma {:induction false} AddedOthers(scores: map<u64, real>, filter: Filter, ps: seq<Posting>,
                                       value: Posting -> real, d: u64)
    requires !filter.Admits(d) || forall p :: p in ps ==> p.0 != d
    ensures var r := Added(scores, filter, ps, value); (d in r <==> d in scores) && (d in scores ==> r[d] == scores[d])
  {
    if ps != [] {
      AddedOthers(scores, filter, ps[..|ps| - 1], value, d);
    }
  }

  lemma {:induction false} AddedOnce(scores: map<u64, real>, filter: Filter, ps: seq<Posting>,
                                     value: Posting -> real, p: Posting)
    requires DistinctDocs(ps) && p in ps && filter.Admits(p.0)
    ensures var r := Added(scores, filter, ps, value);
            p.0 in r && r[p.0] == (if p.0 in scores then scores[p.0] else 0.0) + value(p)
  {
    var front, last := ps[..|ps| - 1], ps[|ps| - 1];
    assert ps == front + [last];
    if p == last {
      assert forall q :: q in front ==> q.0 != p.0;
      AddedOthers(scores, filter, front, value, p.0);
    } else {
      AddedOnce(scores, filter, front, value, p);
      var i :| 0 <= i < |front| && front[i] == p;
      assert ps[i].0 != ps[|ps| - 1].0;
    }
  }

  // ---- from the postings to the live documents ----

  lemma PostingsDistinct(ps: seq<Posting>, live: Live, term: Term)
    requires PostingsHold(ps, live, term)
    ensures DistinctDocs(ps)
    ensures forall d :: d in live && term in live[d] ==> (d, Count(live[d], term)) in ps
    ensures forall p :: p in ps ==> p.0 in live && term in live[p.0] && p.1 == Count(live[p.0], term)
  {
    forall p | p in ps ensures p.0 in live && term in live[p.0] && p.1 == Count(live[p.0], term) {
      assert p in multiset(ps);
      CountIff(live[p.0], term);
    }
    forall d | d in live && term in live[d] ensures (d, Count(live[d], term)) in ps {
      CountIff(live[d], term);
      assert (d, Count(live[d], term)) in multiset(ps);
    }
    forall i, j | 0 <= i < j < |ps| ensures ps[i].0 != ps[j].0 {
      assert ps[i] in ps && ps[j] in ps;
      TwiceListed(ps, i, j);
    }
  }

  lemma TwiceListed(ps: seq<Posting>, i: nat, j: nat)
    requires i < j < |ps|
    ensures ps[i] == ps[j] ==> multiset(ps)[ps[i]] >= 2
  {
    assert ps == ps[..i] + [ps[i]] + ps[i + 1..j] + [ps[j]] + ps[j + 1..];
  }

  lemma {:induction false} DocsSize(ps: seq<Posting>)
    requires DistinctDocs(ps)
    ensures |(set p | p in ps :: p.0)| == |ps|
  {
    if ps == [] {
      assert (set p | p in ps :: p.0) == {};
    } else {
      var front, last := ps[..|ps| - 1], ps[|ps| - 1];
      assert ps == front + [last];
      DocsSize(front);
      assert (set p | p in ps :: p.0) == (set p | p in front :: p.0) + {last.0};
    }
  }

  // The length of a posting list is the document frequency of its term.
  lemma PostingsSize(ps: seq<Posting>, live: Live, term: Term)
    requires PostingsHold(ps, live, term)
    ensures |ps| == DocumentFrequency(live, term)
  {
    PostingsDistinct(ps, live, term);
    DocsSize(ps);
    assert (set p | p in ps :: p.0) == set d | d in live && term in live[d] by {
      forall d | d in live && term in live[d] ensures d in (set p | p in ps :: p.0) {
        assert (d, Count(live[d], term)) in ps;
      }
    }
  }

  // Scoring the postings of one more term.
  lemma OneMoreTerm(live: Live, w: Weight, filter: Filter, terms: seq<Term>, term: Term, ps: seq<Posting>,
                    value: Posting -> real)
    requires PostingsHold(ps, live, term)
    requires forall p :: p in ps ==> p.0 in live && value(p) == TermScore(live, w, p.0, term)
    ensures Added(ScoreMap(live, w, filter, terms), filter, ps, value) == ScoreMap(live, w, filter, terms + [term])
  {
    hide PostingsHold, Added, Count, TermScore;
    var scores, more := ScoreMap(live, w, filter, terms), ScoreMap(live, w, filter, terms + [term]);
    var r := Added(scores, filter, ps, value);
    PostingsDistinct(ps, live, term);
    forall d: u64 ensures (d in r <==> d in more) && (d in more ==> r[d] == more[d]) {
      if d in live && filter.Admits(d) && term in live[d] {
        AddedOnce(scores, filter, ps, value, (d, Count(live[d], term)));
        ScoreOneMore(live, w, d, terms, term);
        assert term in terms + [term];
        if d !in scores {
          ScoreWithoutTerms(live, w, d, terms);
        }
      } else {
        AddedOthers(scores, filter, ps, value, d);
        if d in live {
          ScoreOneMore(live, w, d, terms, term);
          SameTerms(live[d], terms, term);
        }
      }
    }
    assert r == more;
  }

  lemma SameTerms(tokens: seq<Term>, terms: seq<Term>, term: Term)
    ensures HasTerm(tokens, terms + [term]) <==> HasTerm(tokens, terms) || term in tokens
  {
    assert term in terms + [term];
    forall t | t in terms ensures t in terms + [term] {
    }
  }

  lemma ScoreOneMore(live: Live, w: Weight, doc: u64, terms: seq<Term>, term: Term)
    requires doc in live
    ensures Score(live, w, doc, terms + [term]) == Score(live, w, doc, terms) + TermScore(live, w, doc, term)
    ensures term !in live[doc] ==> TermScore(live, w, doc, term) == 0.0
  {
    assert (terms + [term])[..|terms|] == terms;
  }

  lemma {:induction false} ScoreWithoutTerms(live: Live, w: Weight, doc: u64, terms: seq<Term>)
    requires doc in live && !HasTerm(live[doc], terms)
    ensures Score(live, w, doc, terms) == 0.0
  {
    if terms != [] {
      var front, last := terms[..|terms| - 1], terms[|terms| - 1];
      assert terms == front + [last];
      SameTerms(live[doc], front, last);
      ScoreWithoutTerms(live, w, doc, front);
    }
  }

  // ---- the search ----

  function PostingValue(w: Weight, n: nat, total: nat, df: nat, lengths: map<u64, nat>): Posting -> real {
    (p: Posting) => w(n, total, df, p.1, if p.0 in lengths then lengths[p.0] else 0)
  }

  method ScorePostings(scores: map<u64, real>, filter: Filter, ps: seq<Posting>, w: Weight, n: nat, total: nat,
                       lengths: map<u64, nat>)
    returns (r: map<u64, real>)
    ensures r == Added(scores, filter, ps, PostingValue(w, n, total, |ps|, lengths))
  {
    r := scores;
    for i := 0 to |ps|
      invariant r == Added(scores, filter, ps[..i], PostingValue(w, n, total, |ps|, lengths))
    {
      assert ps[..i + 1][..i] == ps[..i];
      var (doc, tf) := ps[i];
      if (filter.allowed.Some? && doc !in filter.allowed.value) || !filter.accept(doc) {
        continue;
      }
      var len := if doc in lengths then lengths[doc] else 0;
      r := r[doc := (if doc in r then r[doc] else 0.0) + w(n, total, |ps|, tf, len)];
    }
    assert ps[..|ps|] == ps;
  }

  lemma ValuesAreScores(live: Live, w: Weight, ps: seq<Posting>, term: Term)
    requires PostingsHold(ps, live, term)
    ensures var value := PostingValue(w, |live|, Sum(Lengths(live)), |ps|, Lengths(live));
            forall p :: p in ps ==> p.0 in live && value(p) == TermScore(live, w, p.0, term)
  {
    hide Sum;
    PostingsDistinct(ps, live, term);
    PostingsSize(ps, live, term);
  }

  lemma {:induction false} UniquesMembers(tokens: seq<Term>, t: Term)
    ensures t in Uniques(tokens) <==> t in tokens
  {
    if tokens != [] {
      assert tokens == tokens[..|tokens| - 1] + [tokens[|tokens| - 1]];
      UniquesMembers(tokens[..|tokens| - 1], t);
    }
  }

  // Every word once.
  lemma {:induction false} UniquesOnce(tokens: seq<Term>)
    ensures forall i, j :: 0 <= i < j < |Uniques(tokens)| ==> Uniques(tokens)[i] != Uniques(tokens)[j]
  {
    if tokens != [] {
      UniquesOnce(tokens[..|tokens| - 1]);
      UniquesMembers(tokens[..|tokens| - 1], tokens[|tokens| - 1]);
    }
  }

  lemma UniquesStep(tokens: seq<Term>, i: nat)
    requires i < |tokens|
    ensures Uniques(tokens[..i + 1])
         == if tokens[i] in tokens[..i] then Uniques(tokens[..i])
            else Uniques(tokens[..i]) + [tokens[i]]
  {
    assert tokens[..i + 1][..i] == tokens[..i];
  }

  // A term that is not indexed occurs nowhere.
  lemma TermNotIndexed(index: map<Term, seq<Posting>>, live: Live, w: Weight, filter: Filter, terms: seq<Term>,
                       term: Term)
    requires IndexHolds(index, live) && term !in index
    ensures ScoreMap(live, w, filter, terms + [term]) == ScoreMap(live, w, filter, terms)
  {
    hide PostingsHold, TermScore;
    var value := (p: Posting) => 0.0;
    assert PostingsHold(Posted(index, term), live, term);
    OneMoreTerm(live, w, filter, terms, term, [], value);
  }

  // The scores of all admitted documents for the words of a query.
  method ScoreAll(index: Bm25Index, query: seq<Term>, filter: Filter, w: Weight, total: nat, ghost live: Live)
    returns (scores: map<u64, real>)
    requires index.Valid(live) && total == Sum(index.docLengths)
    ensures scores == ScoreMap(live, w, filter, Uniques(query))
  {
    hide IndexHolds, PostingsHold, Sum, ScoreMap, Added, Uniques, TermsHold, Lengths;
    var n := |index.docLengths|;
    LengthsKeys(live);
    scores := map[];
    var seen: set<Term> := {};
    NoScores(live, w, filter);
    assert query[..0] == [];
    for i := 0 to |query|
      invariant scores == ScoreMap(live, w, filter, Uniques(query[..i]))
      invariant forall t :: t in seen <==> t in query[..i]
    {
      var token := query[i];
      UniquesStep(query, i);
      assert query[..i + 1] == query[..i] + [token];
      if token in seen {
        continue;
      }
      seen := seen + {token};
      if token in index.invertedIndex {
        var postings := index.invertedIndex[token];
        PostedHolds(index.invertedIndex, live, token);
        ValuesAreScores(live, w, postings, token);
        OneMoreTerm(live, w, filter, Uniques(query[..i]), token, postings,
                    PostingValue(w, n, total, |postings|, index.docLengths));
        scores := ScorePostings(scores, filter, postings, w, n, total, index.docLengths);
      } else {
        TermNotIndexed(index.invertedIndex, live, w, filter, Uniques(query[..i]), token);
      }
    }
    assert query[..|query|] == query;
  }

  lemma PostedHolds(index: map<Term, seq<Posting>>, live: Live, term: Term)
    requires IndexHolds(index, live)
    ensures PostingsHold(Posted(index, term), live, term)
  {
    hide PostingsHold;
  }

  lemma NoScores(live: Live, w: Weight, filter: Filter)
    ensures ScoreMap(live, w, filter, Uniques([])) == map[]
  {
  }

  // ---- ranking the scores ----

  ghost predicate Lists(s: seq<Scored>, m: map<u64, real>) {
    && DistinctIds(s) && |s| == |m|
    && (forall x :: x in s <==> x.0 in m && m[x.0] == x.1)
  }

  // The k best entries of m, in order: those left out come behind all of them.
  ghost predicate BestOf(r: seq<Scored>, m: map<u64, real>, k: nat) {
    && |r| == (if |m| < k then |m| else k)
    && (forall i, j :: 0 <= i < j < |r| ==> r[i].1 > r[j].1 || (r[i].1 == r[j].1 && r[i].0 < r[j].0))
    && (forall x :: x in r ==> x.0 in m && m[x.0] == x.1)
    && (forall x, d :: x in r && d in m && (d, m[d]) !in r ==> x.1 > m[d] || (x.1 == m[d] && x.0 < d))
  }

  // The entries of a map, in any order.
  method Entries(m: map<u64, real>) returns (s: seq<Scored>)
    ensures Lists(s, m)
  {
    s := [];
    var rest := m.Keys;
    ghost var taken: map<u64, real> := map[];
    while rest != {}
      invariant rest <= m.Keys && taken.Keys == m.Keys - rest && |s| == |m.Keys| - |rest|
      invariant forall d :: d in taken ==> taken[d] == m[d]
      invariant DistinctIds(s) && forall x :: x in s <==> x.0 in taken && taken[x.0] == x.1
      decreases rest
    {
      var d :| d in rest;
      s := s + [(d, m[d])];
      taken := taken[d := m[d]];
      rest := rest - {d};
    }
    assert taken == m;
    assert |m| == |m.Keys|;
  }

  // Stands for select_nth_unstable_by: the k best in front, in any order.
  method Select(s: seq<Scored>, k: nat) returns (p: seq<Scored>)
    requires DistinctIds(s) && k <= |s|
    ensures Selected(p, s, k)
  {
    // Any partition will do; a sorted sequence is one.
    p := Sorted(s);
    SortedOrdered(s);
    SameMembers(p, s);
  }

  // The search: the k best of the scores, by descending score and then ascending id.
  method SearchWhere(index: Bm25Index, query: seq<Term>, topK: nat, filter: Filter, w: Weight, ghost live: Live)
    returns (result: seq<Scored>)
    requires index.Valid(live)
    ensures BestOf(result, ScoreMap(live, w, filter, Uniques(query)), topK)
    ensures forall x :: x in result ==>
      && x.0 in live && (exists t :: t in query && t in live[x.0])
      && (filter.allowed.Some? ==> x.0 in filter.allowed.value) && filter.accept(x.0)
  {
    hide ScoreMap, Uniques, Best, BestOf, Lists, IndexHolds, Sum, Lengths, TermsHold, Selected, Sorted;
    if topK == 0 || |query| == 0 || |index.docLengths| == 0 {
      NothingToFind(index, query, topK, filter, w, live);
      return [];
    }
    var total;
    if index.totalTokens.Some? {
      total := index.totalTokens.value;
    } else {
      total := SumOfLengths(index.docLengths);
    }
    var scores := ScoreAll(index, query, filter, w, total, live);
    var entries := Entries(scores);
    ListsDistinct(entries, scores);
    result := entries;
    if |result| > topK {
      result := Select(result, topK);
      SelectedThenSorted(result, entries, topK);
      SelectedLength(result, entries, topK);
      result := result[..topK];
    } else {
      AllAreBest(entries, topK);
    }
    result := Sorted(result);
    BestEntries(result, entries, scores, topK);
    FoundAdmitted(result, live, w, filter, query, topK);
  }

  lemma FoundAdmitted(r: seq<Scored>, live: Live, w: Weight, filter: Filter, query: seq<Term>, k: nat)
    requires BestOf(r, ScoreMap(live, w, filter, Uniques(query)), k)
    ensures forall x :: x in r ==>
      && x.0 in live && (exists t :: t in query && t in live[x.0])
      && (filter.allowed.Some? ==> x.0 in filter.allowed.value) && filter.accept(x.0)
  {
    hide Uniques, Score;
    forall x | x in r ensures exists t :: t in query && t in live[x.0] {
      assert HasTerm(live[x.0], Uniques(query));
      var t :| t in Uniques(query) && t in live[x.0];
      UniquesMembers(query, t);
    }
  }

  lemma ListsDistinct(s: seq<Scored>, m: map<u64, real>)
    requires Lists(s, m)
    ensures DistinctIds(s)
  {
  }

  lemma SelectedLength(p: seq<Scored>, s: seq<Scored>, k: nat)
    requires Selected(p, s, k)
    ensures k <= |p|
  {
  }

  lemma AllAreBest(s: seq<Scored>, k: nat)
    requires DistinctIds(s) && |s| <= k
    ensures Best(Sorted(s), s, k)
  {
    SortedOrdered(s);
    SameMembers(Sorted(s), s);
  }

  lemma BestEntries(r: seq<Scored>, s: seq<Scored>, m: map<u64, real>, k: nat)
    requires Lists(s, m) && Best(r, s, k)
    ensures BestOf(r, m, k)
  {
    forall x, d | x in r && d in m && (d, m[d]) !in r ensures Before(x, (d, m[d])) {
      assert (d, m[d]) in s;
    }
  }

  lemma NothingToFind(index: Bm25Index, query: seq<Term>, topK: nat, filter: Filter, w: Weight, live: Live)
    requires index.Valid(live) && (topK == 0 || query == [] || |index.docLengths| == 0)
    ensures BestOf([], ScoreMap(live, w, filter, Uniques(query)), topK)
  {
    hide IndexHolds, Sum, TermsHold, Score;
    LengthsKeys(live);
    if topK > 0 {
      assert ScoreMap(live, w, filter, Uniques(query)) == map[];
    }
  }
}

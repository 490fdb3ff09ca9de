// The inverted index (src/memory/bm25.rs): indexing, re-indexing and removing documents keep it
// equal to one rebuilt from the live documents.
module Bm25 {
  import opened Wrappers
  import opened Bytes

  type Term = string

  // A document and how often the term occurs in it.
  type Posting = (u64, nat)

  type Live = map<u64, seq<Term>>

  ghost function Lengths(live: Live): map<u64, nat> {
    map d | d in live :: |live[d]|
  }

  ghost function TermsOf(tokens: seq<Term>): set<Term> {
    set t | t in tokens
  }

  function Count(tokens: seq<Term>, term: Term): nat {
    if tokens == [] then 0 else Count(tokens[..|tokens| - 1], term) + if tokens[|tokens| - 1] == term then 1 else 0
  }

  lemma {:induction false} CountIff(tokens: seq<Term>, term: Term)
    ensures Count(tokens, term) > 0 <==> term in tokens
  {
    if tokens != [] {
      var front, last := tokens[..|tokens| - 1], tokens[|tokens| - 1];
      CountIff(front, term);
      assert tokens == front + [last];
    }
  }

  // ---- sums over maps ----

  ghost function Sum(m: map<u64, nat>): nat
    decreases |m|
  {
    if m == map[] then 0 else var k :| k in m; assert |m - {k}| < |m| by { Smaller(m, k); } m[k] + Sum(m - {k})
  }

  lemma Smaller(m: map<u64, nat>, k: u64)
    requires k in m
    ensures |m - {k}| < |m|
  {
    assert (m - {k}).Keys == m.Keys - {k};
    assert |m - {k}| == |(m - {k}).Keys| && |m| == |m.Keys|;
  }

  lemma {:induction false} SumWithout(m: map<u64, nat>, k: u64)
    requires k in m
    ensures Sum(m) == m[k] + Sum(m - {k})
    decreases |m|
  {
    var x :| x in m && Sum(m) == m[x] + Sum(m - {x});
    if x != k {
      Smaller(m, x);
      Smaller(m, k);
      SumWithout(m - {x}, k);
      SumWithout(m - {k}, x);
      assert m - {x} - {k} == m - {k} - {x};
    }
  }

  lemma SumWith(m: map<u64, nat>, k: u64, v: nat)
    requires k !in m
    ensures Sum(m[k := v]) == v + Sum(m)
  {
    SumWithout(m[k := v], k);
    assert m[k := v] - {k} == m;
  }

  method SumOfLengths(m: map<u64, nat>) returns (sum: nat)
    ensures sum == Sum(m)
  {
    var rest := m;
    sum := 0;
    while rest != map[]
      invariant sum + Sum(rest) == Sum(m)
      decreases |rest|
    {
      var k :| k in rest;
      SumWithout(rest, k);
      Smaller(rest, k);
      sum := sum + rest[k];
      rest := rest - {k};
    }
  }

  // ---- postings ----

  // postings.retain(|(id, _)| *id != doc_id)
  function Without(ps: seq<Posting>, doc: u64): seq<Posting> {
    if ps == [] then []
    else Without(ps[..|ps| - 1], doc) + if ps[|ps| - 1].0 == doc then [] else [ps[|ps| - 1]]
  }

  lemma {:induction false} WithoutCounts(ps: seq<Posting>, doc: u64, p: Posting)
    ensures multiset(Without(ps, doc))[p] == if p.0 == doc then 0 else multiset(ps)[p]
  {
    if ps != [] {
      var front, last := ps[..|ps| - 1], ps[|ps| - 1];
      WithoutCounts(front, doc, p);
      assert ps == front + [last];
    }
  }

  function Posted(index: map<Term, seq<Posting>>, term: Term): seq<Posting> {
    if term in index then index[term] else []
  }

  // Each live document that contains the term once, with its count, and nothing else.
  ghost predicate PostingsHold(ps: seq<Posting>, live: Live, term: Term) {
    forall p: Posting :: multiset(ps)[p] == if p.0 in live && p.1 == Count(live[p.0], term) > 0 then 1 else 0
  }

  ghost predicate IndexHolds(index: map<Term, seq<Posting>>, live: Live) {
    && (forall term :: PostingsHold(Posted(index, term), live, term))
    && (forall term :: term in index ==> index[term] != [])
  }

  lemma PostingsRemoved(ps: seq<Posting>, live: Live, term: Term, doc: u64)
    requires PostingsHold(ps, live, term)
    ensures PostingsHold(Without(ps, doc), live - {doc}, term)
  {
    forall p: Posting
      ensures multiset(Without(ps, doc))[p]
           == if p.0 in live - {doc} && p.1 == Count((live - {doc})[p.0], term) > 0 then 1 else 0
    {
      WithoutCounts(ps, doc, p);
    }
  }

  lemma PostingsAdded(ps: seq<Posting>, live: Live, term: Term, doc: u64, tokens: seq<Term>)
    requires PostingsHold(ps, live, term) && doc !in live
    ensures var c := Count(tokens, term);
            PostingsHold(if c > 0 then ps + [(doc, c)] else ps, live[doc := tokens], term)
  {
    var c := Count(tokens, term);
    var ps' := if c > 0 then ps + [(doc, c)] else ps;
    forall p: Posting
      ensures multiset(ps')[p]
           == if p.0 in live[doc := tokens] && p.1 == Count(live[doc := tokens][p.0], term) > 0 then 1 else 0
    {
      if c > 0 {
        assert multiset(ps')[p] == multiset(ps)[p] + if p == (doc, c) then 1 else 0;
      }
    }
  }

  // The postings of one term without the document; a term without postings is dropped.
  function WithoutTerm(index: map<Term, seq<Posting>>, term: Term, doc: u64): map<Term, seq<Posting>> {
    if term in index then
      var postings := Without(index[term], doc);
      if postings == [] then index - {term} else index[term := postings]
    else index
  }

  // All postings without the document, as for indexes saved without term lists.
  function WithoutDocument(index: map<Term, seq<Posting>>, doc: u64): map<Term, seq<Posting>> {
    map t | t in index && Without(index[t], doc) != [] :: Without(index[t], doc)
  }

  function WithPosting(index: map<Term, seq<Posting>>, term: Term, p: Posting): map<Term, seq<Posting>> {
    index[term := Posted(index, term) + [p]]
  }

  // The document is gone from the postings of the terms done so far.
  ghost predicate RemovedFrom(index: map<Term, seq<Posting>>, before: map<Term, seq<Posting>>, doc: u64,
                              done: set<Term>) {
    && (forall t :: Posted(index, t) == if t in done then Without(Posted(before, t), doc) else Posted(before, t))
    && (forall t :: t in index ==> index[t] != [])
  }

  lemma NothingRemoved(index: map<Term, seq<Posting>>, live: Live, doc: u64)
    requires IndexHolds(index, live)
    ensures RemovedFrom(index, index, doc, {})
  {
    hide PostingsHold;
  }

  lemma RemoveOne(index: map<Term, seq<Posting>>, before: map<Term, seq<Posting>>, doc: u64, done: set<Term>,
                  term: Term)
    requires RemovedFrom(index, before, doc, done) && term !in done
    ensures RemovedFrom(WithoutTerm(index, term, doc), before, doc, done + {term})
  {
    hide Without;
    assert Posted(index, term) == Posted(before, term);
    NoPostings(doc);
  }

  lemma NoPostings(doc: u64)
    ensures Without([], doc) == []
  {
  }

  lemma AllRemoved(index: map<Term, seq<Posting>>, before: map<Term, seq<Posting>>, live: Live, doc: u64,
                   terms: set<Term>)
    requires IndexHolds(before, live) && doc in live && terms == TermsOf(live[doc])
    requires RemovedFrom(index, before, doc, terms)
    ensures IndexHolds(index, live - {doc})
  {
    hide Without, Count, PostingsHold;
    forall t ensures PostingsHold(Posted(index, t), live - {doc}, t) {
      assert PostingsHold(Posted(before, t), live, t);
      if t in terms {
        PostingsRemoved(Posted(before, t), live, t, doc);
      } else {
        AbsentUntouched(Posted(before, t), live, t, doc);
      }
    }
  }

  ghost predicate AddedTo(index: map<Term, seq<Posting>>, before: map<Term, seq<Posting>>, doc: u64,
                          counts: map<Term, nat>, done: set<Term>)
  {
    && done <= counts.Keys
    && (forall t :: Posted(index, t) == Posted(before, t) + if t in done then [(doc, counts[t])] else [])
    && (forall t :: t in index ==> index[t] != [])
  }

  lemma NothingAdded(index: map<Term, seq<Posting>>, live: Live, doc: u64, counts: map<Term, nat>)
    requires IndexHolds(index, live)
    ensures AddedTo(index, index, doc, counts, {})
  {
    hide PostingsHold;
  }

  lemma AddOne(index: map<Term, seq<Posting>>, before: map<Term, seq<Posting>>, doc: u64, counts: map<Term, nat>,
               done: set<Term>, term: Term)
    requires AddedTo(index, before, doc, counts, done) && term in counts && term !in done
    ensures AddedTo(WithPosting(index, term, (doc, counts[term])), before, doc, counts, done + {term})
  {
    assert Posted(index, term) == Posted(before, term);
  }

  lemma AllAdded(index: map<Term, seq<Posting>>, before: map<Term, seq<Posting>>, live: Live, doc: u64,
                 counts: map<Term, nat>, tokens: seq<Term>)
    requires IndexHolds(before, live) && doc !in live && Counts(counts, tokens)
    requires AddedTo(index, before, doc, counts, counts.Keys)
    ensures IndexHolds(index, live[doc := tokens])
  {
    hide Count, PostingsHold;
    forall t ensures PostingsHold(Posted(index, t), live[doc := tokens], t) {
      assert PostingsHold(Posted(before, t), live, t);
      PostingsAdded(Posted(before, t), live, t, doc, tokens);
      assert Posted(before, t) + [] == Posted(before, t);
    }
  }

  // The recorded term lists are right; older indexes may lack some.
  ghost predicate TermsHold(terms: map<u64, set<Term>>, live: Live) {
    forall d :: d in terms ==> d in live && terms[d] == TermsOf(live[d])
  }

  lemma TermsWith(terms: map<u64, set<Term>>, live: Live, doc: u64, tokens: seq<Term>)
    requires TermsHold(terms, live) && doc !in live
    ensures TermsHold(terms, live[doc := tokens]) && TermsHold(terms[doc := TermsOf(tokens)], live[doc := tokens])
  {
    hide TermsOf;
  }

  lemma TermsWithout(terms: map<u64, set<Term>>, live: Live, doc: u64)
    requires TermsHold(terms, live)
    ensures TermsHold(terms - {doc}, live - {doc})
    ensures doc in terms ==> doc in live && terms[doc] == TermsOf(live[doc])
  {
    hide TermsOf;
  }

  // Of a document that is not live no terms are recorded.
  lemma NoTermsOf(terms: map<u64, set<Term>>, live: Live, doc: u64)
    requires TermsHold(terms, live) && doc !in Lengths(live)
    ensures terms - {doc} == terms
  {
    hide TermsOf;
  }

  lemma NotLive(live: Live, doc: u64)
    requires doc !in Lengths(live)
    ensures live - {doc} == live
  {
  }

  lemma LengthsWithout(live: Live, doc: u64)
    ensures Lengths(live) - {doc} == Lengths(live - {doc})
  {
  }

  // ---- the index ----

  class Bm25Index {
    var invertedIndex: map<Term, seq<Posting>>
    var docLengths: map<u64, nat>
    var totalTokens: Option<nat>
    var documentTerms: map<u64, set<Term>>

    // The index of the live documents; indexes saved by older versions lack totals or term lists.
    ghost predicate Valid(live: Live)
      reads this
    {
      && docLengths == Lengths(live)
      && IndexHolds(invertedIndex, live)
      && (totalTokens.Some? ==> totalTokens.value == Sum(docLengths))
      && TermsHold(documentTerms, live)
    }

    constructor ()
      ensures Valid(map[])
    {
      invertedIndex, docLengths, totalTokens, documentTerms := map[], map[], Some(0), map[];
    }

    // The total, computed from the lengths when it was not saved.
    method EnsureTotal() returns (total: nat)
      modifies this`totalTokens
      ensures old(totalTokens).Some? ==> totalTokens == old(totalTokens)
      ensures totalTokens == Some(total) && (old(totalTokens).None? ==> total == Sum(docLengths))
    {
      if totalTokens.None? {
        var sum := SumOfLengths(docLengths);
        totalTokens := Some(sum);
      }
      return totalTokens.value;
    }

    method RemoveDocument(doc: u64, ghost live: Live)
      requires Valid(live)
      modifies this
      ensures Valid(live - {doc})
      ensures totalTokens.Some? && documentTerms == old(documentTerms) - {doc}
    {
      hide IndexHolds, Sum, TermsHold, TermsOf, Lengths;
      var total := EnsureTotal();
      if doc !in docLengths {
        NotLive(live, doc);
        NoTermsOf(documentTerms, live, doc);
        return;
      }
      LengthsWithout(live, doc);
      SumWithout(docLengths, doc);
      var length := docLengths[doc];
      docLengths := docLengths - {doc};
      totalTokens := Some(if total >= length then total - length else 0);
      DropPostings(doc, live);
    }

    // The document's postings and term list, found by the list or, where there is none, everywhere.
    method DropPostings(doc: u64, ghost live: Live)
      requires IndexHolds(invertedIndex, live) && TermsHold(documentTerms, live)
      modifies this`invertedIndex, this`documentTerms
      ensures IndexHolds(invertedIndex, live - {doc}) && TermsHold(documentTerms, live - {doc})
      ensures documentTerms == old(documentTerms) - {doc}
    {
      hide IndexHolds, TermsHold, TermsOf, WithoutDocument;
      TermsWithout(documentTerms, live, doc);
      if doc in documentTerms {
        var terms := documentTerms[doc];
        documentTerms := documentTerms - {doc};
        RemovePostings(doc, terms, live);
      } else {
        assert documentTerms - {doc} == documentTerms;
        LegacyRemoved(invertedIndex, live, doc);
        invertedIndex := WithoutDocument(invertedIndex, doc);
      }
    }

    // Take the document out of the postings of its terms.
    method RemovePostings(doc: u64, terms: set<Term>, ghost live: Live)
      requires IndexHolds(invertedIndex, live) && doc in live && terms == TermsOf(live[doc])
      modifies this`invertedIndex
      ensures IndexHolds(invertedIndex, live - {doc})
    {
      hide IndexHolds, RemovedFrom, WithoutTerm;
      ghost var before := invertedIndex;
      NothingRemoved(before, live, doc);
      var rest := terms;
      assert terms - rest == {};
      while rest != {}
        invariant rest <= terms
        invariant RemovedFrom(invertedIndex, before, doc, terms - rest)
        decreases rest
      {
        var term :| term in rest;
        RemoveOne(invertedIndex, before, doc, terms - rest, term);
        assert terms - (rest - {term}) == terms - rest + {term};
        invertedIndex := WithoutTerm(invertedIndex, term, doc);
        rest := rest - {term};
      }
      assert terms - rest == terms;
      AllRemoved(invertedIndex, before, live, doc, terms);
    }

    // Index the tokens of a document, replacing what was indexed for it before.
    method IndexDocument(doc: u64, tokens: seq<Term>, ghost live: Live)
      requires Valid(live)
      modifies this
      ensures Valid(live[doc := tokens])
      ensures documentTerms == if tokens == [] then old(documentTerms) - {doc} else old(documentTerms)[doc := TermsOf(tokens)]
      ensures tokens != [] || doc in live || old(totalTokens).Some? ==> totalTokens.Some?
    {
      hide IndexHolds, Sum, TermsHold, TermsOf, Lengths;
      LengthsKeys(live);
      ghost var rest := live - {doc};
      if doc in docLengths {
        RemoveDocument(doc, live);
      } else {
        assert rest == live;
        NoTermsOf(documentTerms, live, doc);
      }
      AddDocument(doc, tokens, rest);
      assert live[doc := tokens] == rest[doc := tokens];
    }

    method AddDocument(doc: u64, tokens: seq<Term>, ghost live: Live)
      requires Valid(live) && doc !in live
      modifies this
      ensures Valid(live[doc := tokens])
      ensures documentTerms == if tokens == [] then old(documentTerms) else old(documentTerms)[doc := TermsOf(tokens)]
      ensures tokens != [] || old(totalTokens).Some? ==> totalTokens.Some?
    {
      hide IndexHolds, Sum, Counts, TermsHold, TermsOf, Lengths;
      LengthsKeys(live);
      LengthsWith(live, doc, tokens);
      TermsWith(documentTerms, live, doc, tokens);
      SumWith(docLengths, doc, |tokens|);
      if |tokens| == 0 {
        EmptyAdded(invertedIndex, live, doc);
        docLengths := docLengths[doc := 0];
        return;
      }
      var total := EnsureTotal();
      totalTokens := Some(total + |tokens|);
      docLengths := docLengths[doc := |tokens|];
      var counts := CountTerms(tokens);
      documentTerms := documentTerms[doc := counts.Keys];
      AddPostings(doc, counts, tokens, live);
    }

    method AddPostings(doc: u64, counts: map<Term, nat>, ghost tokens: seq<Term>, ghost live: Live)
      requires IndexHolds(invertedIndex, live) && doc !in live && Counts(counts, tokens)
      modifies this`invertedIndex
      ensures IndexHolds(invertedIndex, live[doc := tokens])
    {
      hide IndexHolds, AddedTo, WithPosting;
      ghost var before := invertedIndex;
      NothingAdded(before, live, doc, counts);
      var rest := counts.Keys;
      assert counts.Keys - rest == {};
      while rest != {}
        invariant rest <= counts.Keys
        invariant AddedTo(invertedIndex, before, doc, counts, counts.Keys - rest)
        decreases rest
      {
        var term :| term in rest;
        AddOne(invertedIndex, before, doc, counts, counts.Keys - rest, term);
        assert counts.Keys - (rest - {term}) == counts.Keys - rest + {term};
        invertedIndex := WithPosting(invertedIndex, term, (doc, counts[term]));
        rest := rest - {term};
      }
      assert counts.Keys - rest == counts.Keys;
      AllAdded(invertedIndex, before, live, doc, counts, tokens);
    }

    // Average document length; arithmetic over the reals.
    method AvgDocLength(ghost live: Live) returns (avg: real)
      requires Valid(live)
      ensures avg == if live == map[] then 0.0 else Sum(docLengths) as real / |live| as real
    {
      LengthsKeys(live);
      if docLengths == map[] {
        assert live == map[];
        return 0.0;
      }
      var sum;
      if totalTokens.Some? {
        sum := totalTokens.value;
      } else {
        sum := SumOfLengths(docLengths);
      }
      assert |docLengths| > 0;
      return sum as real / |docLengths| as real;
    }
  }

  ghost predicate Counts(counts: map<Term, nat>, tokens: seq<Term>) {
    && (forall t :: t in counts <==> Count(tokens, t) > 0)
    && (forall t :: t in counts ==> counts[t] == Count(tokens, t))
  }

  // The distinct terms with their numbers of occurrences.
  method CountTerms(tokens: seq<Term>) returns (counts: map<Term, nat>)
    ensures Counts(counts, tokens) && counts.Keys == TermsOf(tokens)
  {
    counts := map[];
    for i := 0 to |tokens|
      invariant forall t :: t in counts <==> Count(tokens[..i], t) > 0
      invariant forall t :: t in counts ==> counts[t] == Count(tokens[..i], t)
    {
      assert tokens[..i + 1][..i] == tokens[..i];
      var token := tokens[i];
      counts := counts[token := (if token in counts then counts[token] else 0) + 1];
    }
    assert tokens[..|tokens|] == tokens;
    forall t ensures Count(tokens, t) > 0 <==> t in tokens {
      CountIff(tokens, t);
    }
  }

  lemma LengthsKeys(live: Live)
    ensures Lengths(live).Keys == live.Keys && |Lengths(live)| == |live|
  {
    assert Lengths(live).Keys == live.Keys;
    assert |Lengths(live)| == |Lengths(live).Keys| && |live| == |live.Keys|;
  }

  lemma LengthsWith(live: Live, doc: u64, tokens: seq<Term>)
    requires doc !in live
    ensures Lengths(live)[doc := |tokens|] == Lengths(live[doc := tokens])
  {
  }

  // A document without the term has no posting to remove.
  lemma AbsentUntouched(ps: seq<Posting>, live: Live, term: Term, doc: u64)
    requires PostingsHold(ps, live, term) && doc in live && term !in live[doc]
    ensures PostingsHold(ps, live - {doc}, term)
  {
    CountIff(live[doc], term);
  }

  lemma EmptyAdded(index: map<Term, seq<Posting>>, live: Live, doc: u64)
    requires IndexHolds(index, live) && doc !in live
    ensures IndexHolds(index, live[doc := []])
  {
    forall t ensures PostingsHold(Posted(index, t), live[doc := []], t) {
      PostingsAdded(Posted(index, t), live, t, doc, []);
    }
  }

  lemma LegacyRemoved(index: map<Term, seq<Posting>>, live: Live, doc: u64)
    requires IndexHolds(index, live)
    ensures IndexHolds(WithoutDocument(index, doc), live - {doc})
  {
    var index' := WithoutDocument(index, doc);
    forall t ensures PostingsHold(Posted(index', t), live - {doc}, t) {
      PostingsRemoved(Posted(index, t), live, t, doc);
      assert Posted(index', t) == Without(Posted(index, t), doc);
    }
  }

  // ---- whole histories ----

  datatype Change = Indexed(doc: u64, tokens: seq<Term>) | Removed(doc: u64)

  function LiveAfter(live: Live, changes: seq<Change>): Live
    decreases |changes|
  {
    if changes == [] then live
    else
      var live' := match changes[0]
                   case Indexed(doc, tokens) => live[doc := tokens]
                   case Removed(doc) => live - {doc};
      LiveAfter(live', changes[1..])
  }

  // Any history keeps the index exact, from a new index or from one an older version saved.
  method Maintain(index: Bm25Index, changes: seq<Change>, ghost live: Live)
    requires index.Valid(live)
    modifies index
    ensures index.Valid(LiveAfter(live, changes))
    decreases |changes|
  {
    if |changes| == 0 {
      return;
    }
    ghost var live';
    match changes[0] {
      case Indexed(doc, tokens) =>
        index.IndexDocument(doc, tokens, live);
        live' := live[doc := tokens];
      case Removed(doc) =>
        index.RemoveDocument(doc, live);
        live' := live - {doc};
    }
    Maintain(index, changes[1..], live');
  }

  // A new index of the live documents, in any order.
  method Rebuild(live: Live) returns (index: Bm25Index)
    ensures fresh(index) && index.Valid(live)
  {
    index := new Bm25Index();
    var rest := live.Keys;
    ghost var done: Live := map[];
    while rest != {}
      invariant rest <= live.Keys && index.Valid(done) && fresh(index)
      invariant done.Keys == live.Keys - rest && forall d :: d in done ==> done[d] == live[d]
      decreases rest
    {
      var doc :| doc in rest;
      index.IndexDocument(doc, live[doc], done);
      done := done[doc := live[doc]];
      rest := rest - {doc};
    }
    assert done == live;
  }

  // Two indexes of the same documents, however they came about, agree: lengths, terms, and for each
  // term the same postings, in whatever order.
  lemma RebuiltIsSame(a: Bm25Index, b: Bm25Index, live: Live)
    requires a.Valid(live) && b.Valid(live)
    ensures a.docLengths == b.docLengths
    ensures a.totalTokens.Some? && b.totalTokens.Some? ==> a.totalTokens == b.totalTokens
    ensures a.invertedIndex.Keys == b.invertedIndex.Keys
    ensures forall t :: multiset(Posted(a.invertedIndex, t)) == multiset(Posted(b.invertedIndex, t))
  {
    forall t ensures multiset(Posted(a.invertedIndex, t)) == multiset(Posted(b.invertedIndex, t)) {
      assert PostingsHold(Posted(a.invertedIndex, t), live, t) && PostingsHold(Posted(b.invertedIndex, t), live, t);
    }
    forall t ensures t in a.invertedIndex <==> t in b.invertedIndex {
      assert |multiset(Posted(a.invertedIndex, t))| == |multiset(Posted(b.invertedIndex, t))|;
    }
  }
}

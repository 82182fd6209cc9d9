/**
 * The query side (searcher.hpp): aggregating postings per document,
 * ranking the candidates, and rendering one (title, snippet, url) record
 * per candidate whose document exists.
 */
module Searching {
  import opened Tools
  import opened Indexing

  /** One candidate: a document id, its summed weight, and the matched words in query order. */
  datatype InvertedElemPrint = InvertedElemPrint(id: nat, weight: int, words: seq<Str>)

  /** One rendered record: the JSON object {title, content, url} of the source. */
  datatype SearchResult = SearchResult(title: Str, content: Str, url: Str)

  type Counts = map<nat, InvertedElemPrint>

  // ---------------------------------------------------------------------
  // Aggregation of postings per document id (the `cnt` map)
  // ---------------------------------------------------------------------

  /** `cnt[id]`, which default-constructs the entry (id 0, weight 0, no words) when absent. */
  function Entry(cnt: Counts, id: nat): InvertedElemPrint
  {
    if id in cnt then cnt[id] else InvertedElemPrint(0, 0, [])
  }

  /** One posting added to its document's entry. */
  function Tick(cnt: Counts, item: InvertedItem): Counts
  {
    var e := Entry(cnt, item.id);
    cnt[item.id := InvertedElemPrint(item.id, e.weight + item.weight, e.words + [item.word])]
  }

  /** Every posting of one list added, in list order. */
  function AddList(cnt: Counts, ps: InvertedList): Counts
  {
    if ps == [] then cnt else Tick(AddList(cnt, ps[..|ps| - 1]), ps[|ps| - 1])
  }

  /** The entries after the query terms `qs`, starting from `cnt`; unknown terms are skipped. */
  function Gather(cnt: Counts, inv: map<Str, InvertedList>, qs: seq<Str>): Counts
  {
    if qs == [] then cnt
    else
      var prev := Gather(cnt, inv, qs[..|qs| - 1]);
      var q := qs[|qs| - 1];
      if q in inv then AddList(prev, inv[q]) else prev
  }

  /** The `cnt` map a search over the lower-cased query terms `qs` builds. */
  function Aggregate(inv: map<Str, InvertedList>, qs: seq<Str>): Counts
  {
    Gather(map[], inv, qs)
  }

  /** The lower-cased, stop-word-free tokens of a query. */
  function QueryTerms(segment: Str -> seq<Str>, stops: set<Str>, query: Str): seq<Str>
  {
    LowerAll(CutString(segment, stops, query))
  }

  /** The reference definitions, document by document. */
  function ListWeight(ps: InvertedList, id: nat): int
  {
    if ps == [] then 0
    else ListWeight(ps[..|ps| - 1], id) + (if ps[|ps| - 1].id == id then ps[|ps| - 1].weight else 0)
  }

  function ListWords(ps: InvertedList, id: nat): seq<Str>
  {
    if ps == [] then []
    else ListWords(ps[..|ps| - 1], id) + (if ps[|ps| - 1].id == id then [ps[|ps| - 1].word] else [])
  }

  /** The sum, over the query terms with multiplicity, of the document's posting weights. */
  function Score(inv: map<Str, InvertedList>, qs: seq<Str>, id: nat): int
  {
    if qs == [] then 0 else Score(inv, qs[..|qs| - 1], id) + ListWeight(Lookup(inv, qs[|qs| - 1]), id)
  }

  /** The words of the document's postings, query term by query term. */
  function MatchedWords(inv: map<Str, InvertedList>, qs: seq<Str>, id: nat): seq<Str>
  {
    if qs == [] then [] else MatchedWords(inv, qs[..|qs| - 1], id) + ListWords(Lookup(inv, qs[|qs| - 1]), id)
  }

  /** Every entry sits under its own id. */
  predicate Keyed(cnt: Counts)
  {
    forall k :: k in cnt ==> cnt[k].id == k
  }

  lemma {:induction false} AddListAt(cnt: Counts, ps: InvertedList, id: nat)
    requires Keyed(cnt)
    ensures Keyed(AddList(cnt, ps))
    ensures id in AddList(cnt, ps) <==> id in cnt || ListWords(ps, id) != []
    ensures Entry(AddList(cnt, ps), id).weight == Entry(cnt, id).weight + ListWeight(ps, id)
    ensures Entry(AddList(cnt, ps), id).words == Entry(cnt, id).words + ListWords(ps, id)
  {
    if ps != [] {
      AddListAt(cnt, ps[..|ps| - 1], id);
    }
  }

  lemma GatherAt(cnt: Counts, inv: map<Str, InvertedList>, qs: seq<Str>, id: nat)
    requires Keyed(cnt)
    ensures Keyed(Gather(cnt, inv, qs))
    ensures id in Gather(cnt, inv, qs) <==> id in cnt || MatchedWords(inv, qs, id) != []
    ensures Entry(Gather(cnt, inv, qs), id).weight == Entry(cnt, id).weight + Score(inv, qs, id)
    ensures Entry(Gather(cnt, inv, qs), id).words == Entry(cnt, id).words + MatchedWords(inv, qs, id)
  {
    GatherKeyed(cnt, inv, qs, id);
    GatherWeight(cnt, inv, qs, id);
    GatherWords(cnt, inv, qs, id);
  }

  lemma {:induction false} GatherKeyed(cnt: Counts, inv: map<Str, InvertedList>, qs: seq<Str>, id: nat)
    requires Keyed(cnt)
    ensures Keyed(Gather(cnt, inv, qs))
    ensures id in Gather(cnt, inv, qs) <==> id in cnt || MatchedWords(inv, qs, id) != []
  {
    if qs != [] {
      var init := qs[..|qs| - 1];
      var q := qs[|qs| - 1];
      GatherKeyed(cnt, inv, init, id);
      if q in inv {
        AddListAt(Gather(cnt, inv, init), inv[q], id);
      }
    }
  }

  lemma {:induction false} GatherWeight(cnt: Counts, inv: map<Str, InvertedList>, qs: seq<Str>, id: nat)
    requires Keyed(cnt)
    ensures Entry(Gather(cnt, inv, qs), id).weight == Entry(cnt, id).weight + Score(inv, qs, id)
  {
    if qs != [] {
      var init := qs[..|qs| - 1];
      var q := qs[|qs| - 1];
      GatherWeight(cnt, inv, init, id);
      if q in inv {
        GatherKeyed(cnt, inv, init, id);
        AddListAt(Gather(cnt, inv, init), inv[q], id);
      }
    }
  }

  lemma {:induction false} GatherWords(cnt: Counts, inv: map<Str, InvertedList>, qs: seq<Str>, id: nat)
    requires Keyed(cnt)
    ensures Entry(Gather(cnt, inv, qs), id).words == Entry(cnt, id).words + MatchedWords(inv, qs, id)
  {
    if qs != [] {
      var init := qs[..|qs| - 1];
      var q := qs[|qs| - 1];
      var prev := Gather(cnt, inv, init);
      var a := Entry(cnt, id).words;
      var b := MatchedWords(inv, init, id);
      var c := ListWords(Lookup(inv, q), id);
      assert MatchedWords(inv, qs, id) == b + c;
      assert Entry(prev, id).words == a + b by {
        GatherWords(cnt, inv, init, id);
      }
      GatherWordsStep(cnt, inv, qs, id);
      assert (a + b) + c == a + (b + c);
    }
  }

  /** One more query term appends that term's words for the document. */
  lemma GatherWordsStep(cnt: Counts, inv: map<Str, InvertedList>, qs: seq<Str>, id: nat)
    requires Keyed(cnt) && qs != []
    ensures Entry(Gather(cnt, inv, qs), id).words
         == Entry(Gather(cnt, inv, qs[..|qs| - 1]), id).words + ListWords(Lookup(inv, qs[|qs| - 1]), id)
  {
    var init := qs[..|qs| - 1];
    var q := qs[|qs| - 1];
    var prev := Gather(cnt, inv, init);
    if q in inv {
      GatherKeyed(cnt, inv, init, id);
      AddListAt(prev, inv[q], id);
    } else {
      assert Entry(prev, id).words + [] == Entry(prev, id).words;
    }
  }

  /**
   * A document is a candidate exactly when some query term matched it, and
   * its entry holds its id, its score and its matched words.
   */
  lemma AggregateAt(inv: map<Str, InvertedList>, qs: seq<Str>, id: nat)
    ensures Keyed(Aggregate(inv, qs))
    ensures id in Aggregate(inv, qs) <==> MatchedWords(inv, qs, id) != []
    ensures id in Aggregate(inv, qs) ==>
              Aggregate(inv, qs)[id] == InvertedElemPrint(id, Score(inv, qs, id), MatchedWords(inv, qs, id))
  {
    AggregateKeyed(inv, qs);
    AggregateEntry(inv, qs, id);
  }

  lemma AggregateKeyed(inv: map<Str, InvertedList>, qs: seq<Str>)
    ensures Keyed(Aggregate(inv, qs))
  {
    GatherKeyed(map[], inv, qs, 0);
  }

  lemma AggregateEntry(inv: map<Str, InvertedList>, qs: seq<Str>, id: nat)
    ensures id in Aggregate(inv, qs) <==> MatchedWords(inv, qs, id) != []
    ensures Entry(Aggregate(inv, qs), id) == InvertedElemPrint(Entry(Aggregate(inv, qs), id).id, Score(inv, qs, id), MatchedWords(inv, qs, id))
  {
    GatherKeyed(map[], inv, qs, id);
    GatherWeight(map[], inv, qs, id);
    GatherWords(map[], inv, qs, id);
  }

  lemma {:induction false} GatherAppend(cnt: Counts, inv: map<Str, InvertedList>, a: seq<Str>, b: seq<Str>)
    ensures Gather(cnt, inv, a + b) == Gather(Gather(cnt, inv, a), inv, b)
    decreases |b|
  {
    if b == [] {
      assert a + b == a;
    } else {
      GatherAppend(cnt, inv, a, b[..|b| - 1]);
      assert (a + b)[..|a + b| - 1] == a + b[..|b| - 1];
    }
  }

  /** A query token with no posting list contributes nothing. */
  lemma UnknownTermIgnored(inv: map<Str, InvertedList>, a: seq<Str>, q: Str, b: seq<Str>)
    requires q !in inv
    ensures Aggregate(inv, a + [q] + b) == Aggregate(inv, a + b)
  {
    GatherAppend(map[], inv, a + [q], b);
    GatherAppend(map[], inv, a, b);
    assert (a + [q])[..|a + [q]| - 1] == a;
  }

  // ---------------------------------------------------------------------
  // What the aggregate means over a valid index
  // ---------------------------------------------------------------------

  /** The weight of a document summed over the query terms, with multiplicity. */
  function DocScore(d: Doc, qs: seq<Str>, segment: Str -> seq<Str>, stops: set<Str>): int
  {
    if qs == [] then 0
    else DocScore(d, qs[..|qs| - 1], segment, stops) + DocWeight(d, qs[|qs| - 1], segment, stops)
  }

  /** The query terms, with multiplicity and in query order, that are terms of the document. */
  function DocMatches(d: Doc, qs: seq<Str>, segment: Str -> seq<Str>, stops: set<Str>): seq<Str>
  {
    if qs == [] then []
    else
      DocMatches(d, qs[..|qs| - 1], segment, stops)
        + (if qs[|qs| - 1] in DocTally(d, segment, stops) then [qs[|qs| - 1]] else [])
  }

  /** The list of `w` holds at most one posting per document: its weight and its word. */
  lemma ListOfDoc(docs: seq<Doc>, w: Str, id: nat, segment: Str -> seq<Str>, stops: set<Str>)
    requires ContiguousIds(docs)
    ensures ListWeight(PostingsFor(docs, w, segment, stops), id)
         == (if id < |docs| then DocWeight(docs[id], w, segment, stops) else 0)
    ensures ListWords(PostingsFor(docs, w, segment, stops), id)
         == (if id < |docs| && w in DocTally(docs[id], segment, stops) then [w] else [])
  {
    ListWeightOfDoc(docs, w, id, segment, stops);
    ListWordsOfDoc(docs, w, id, segment, stops);
  }

  /** The weight half of ListOfDoc. */
  lemma {:induction false} ListWeightOfDoc(docs: seq<Doc>, w: Str, id: nat, segment: Str -> seq<Str>, stops: set<Str>)
    requires ContiguousIds(docs)
    ensures ListWeight(PostingsFor(docs, w, segment, stops), id)
         == (if id < |docs| then DocWeight(docs[id], w, segment, stops) else 0)
  {
    if docs != [] {
      var init := docs[..|docs| - 1];
      var d := docs[|docs| - 1];
      var prev := PostingsFor(init, w, segment, stops);
      var tally := DocTally(d, segment, stops);
      var extra: InvertedList := if w in tally then [InvertedItem(d.id, w, Weight(tally[w]))] else [];
      assert PostingsFor(docs, w, segment, stops) == prev + extra;
      assert ListWeight(prev, id) == (if id < |init| then DocWeight(init[id], w, segment, stops) else 0) by {
        ListWeightOfDoc(init, w, id, segment, stops);
      }
      assert ListWeight(prev + extra, id) == ListWeight(prev, id) + (if id == d.id then DocWeight(d, w, segment, stops) else 0) by {
        DocTallyWeight(d, w, segment, stops);
        if w in tally {
          ListWeightSnoc(prev, extra[0], id);
          assert prev + extra == prev + [extra[0]];
        } else {
          assert prev + extra == prev;
        }
      }
      if id < |init| {
        assert docs[id] == init[id];
      }
    }
  }

  /** The words half of ListOfDoc. */
  lemma {:induction false} ListWordsOfDoc(docs: seq<Doc>, w: Str, id: nat, segment: Str -> seq<Str>, stops: set<Str>)
    requires ContiguousIds(docs)
    ensures ListWords(PostingsFor(docs, w, segment, stops), id)
         == (if id < |docs| && w in DocTally(docs[id], segment, stops) then [w] else [])
  {
    if docs != [] {
      var init := docs[..|docs| - 1];
      var d := docs[|docs| - 1];
      var prev := PostingsFor(init, w, segment, stops);
      var tally := DocTally(d, segment, stops);
      var extra: InvertedList := if w in tally then [InvertedItem(d.id, w, Weight(tally[w]))] else [];
      assert PostingsFor(docs, w, segment, stops) == prev + extra;
      assert ListWords(prev, id) == (if id < |init| && w in DocTally(init[id], segment, stops) then [w] else []) by {
        ListWordsOfDoc(init, w, id, segment, stops);
      }
      assert ListWords(prev + extra, id) == ListWords(prev, id) + (if id == d.id && w in tally then [w] else []) by {
        if w in tally {
          ListWordsSnoc(prev, extra[0], id);
          assert prev + extra == prev + [extra[0]];
        } else {
          assert prev + extra == prev;
        }
      }
      if id < |init| {
        assert docs[id] == init[id];
      }
    }
  }

  lemma ListWeightSnoc(ps: InvertedList, p: InvertedItem, id: nat)
    ensures ListWeight(ps + [p], id) == ListWeight(ps, id) + (if p.id == id then p.weight else 0)
  {
    assert (ps + [p])[..|ps|] == ps;
  }

  lemma ListWordsSnoc(ps: InvertedList, p: InvertedItem, id: nat)
    ensures ListWords(ps + [p], id) == ListWords(ps, id) + (if p.id == id then [p.word] else [])
  {
    assert (ps + [p])[..|ps|] == ps;
  }

  /**
   * Over an index built from `docs`, a candidate's score is its summed
   * relevance to the query terms and its words are the terms it holds.
   */
  lemma Relevance(docs: seq<Doc>, qs: seq<Str>, id: nat, segment: Str -> seq<Str>, stops: set<Str>)
    requires ContiguousIds(docs)
    ensures Score(BuildInverted(docs, segment, stops), qs, id)
         == (if id < |docs| then DocScore(docs[id], qs, segment, stops) else 0)
    ensures MatchedWords(BuildInverted(docs, segment, stops), qs, id)
         == (if id < |docs| then DocMatches(docs[id], qs, segment, stops) else [])
  {
    RelevanceScore(docs, qs, id, segment, stops);
    RelevanceWords(docs, qs, id, segment, stops);
  }

  /** The score half of Relevance. */
  lemma {:induction false} RelevanceScore(docs: seq<Doc>, qs: seq<Str>, id: nat, segment: Str -> seq<Str>, stops: set<Str>)
    requires ContiguousIds(docs)
    ensures Score(BuildInverted(docs, segment, stops), qs, id)
         == (if id < |docs| then DocScore(docs[id], qs, segment, stops) else 0)
  {
    if qs != [] {
      var q := qs[|qs| - 1];
      RelevanceScore(docs, qs[..|qs| - 1], id, segment, stops);
      InvertedPerTerm(docs, q, segment, stops);
      ListOfDoc(docs, q, id, segment, stops);
    }
  }

  /** The words half of Relevance. */
  lemma {:induction false} RelevanceWords(docs: seq<Doc>, qs: seq<Str>, id: nat, segment: Str -> seq<Str>, stops: set<Str>)
    requires ContiguousIds(docs)
    ensures MatchedWords(BuildInverted(docs, segment, stops), qs, id)
         == (if id < |docs| then DocMatches(docs[id], qs, segment, stops) else [])
  {
    if qs != [] {
      var q := qs[|qs| - 1];
      RelevanceWords(docs, qs[..|qs| - 1], id, segment, stops);
      InvertedPerTerm(docs, q, segment, stops);
      ListOfDoc(docs, q, id, segment, stops);
    }
  }

  // ---------------------------------------------------------------------
  // Ranking (std::sort, descending weight; ties by ascending id)
  // ---------------------------------------------------------------------

  /** `a` is ranked before `b`: higher weight first, then lower id. */
  predicate Before(a: InvertedElemPrint, b: InvertedElemPrint)
  {
    a.weight > b.weight || (a.weight == b.weight && a.id < b.id)
  }

  predicate StrictlyRanked(r: seq<InvertedElemPrint>)
  {
    forall i, j :: 0 <= i < j < |r| ==> Before(r[i], r[j])
  }

  predicate DistinctIds(s: seq<InvertedElemPrint>)
  {
    forall i, j :: 0 <= i < j < |s| ==> s[i].id != s[j].id
  }

  /** `r` lists exactly the entries of `agg`, best first. */
  predicate IsRanking(r: seq<InvertedElemPrint>, agg: Counts)
  {
    && (forall i :: 0 <= i < |r| ==> r[i].id in agg && agg[r[i].id] == r[i])
    && (forall k :: k in agg ==> agg[k] in r)
    && StrictlyRanked(r)
  }

  /** Inserts `x` before the first element not ranked before it. */
  function Insert(x: InvertedElemPrint, s: seq<InvertedElemPrint>): seq<InvertedElemPrint>
  {
    if s == [] || !Before(s[0], x) then [x] + s else [s[0]] + Insert(x, s[1..])
  }

  /** Insertion sort by `Before`. */
  function SortRanked(s: seq<InvertedElemPrint>): seq<InvertedElemPrint>
  {
    if s == [] then [] else Insert(s[|s| - 1], SortRanked(s[..|s| - 1]))
  }

  lemma {:induction false} InsertSpec(x: InvertedElemPrint, s: seq<InvertedElemPrint>)
    ensures |Insert(x, s)| == |s| + 1
    ensures forall y :: y in Insert(x, s) <==> y == x || y in s
    ensures StrictlyRanked(s) && (forall i :: 0 <= i < |s| ==> s[i].id != x.id) ==> StrictlyRanked(Insert(x, s))
  {
    if s != [] && Before(s[0], x) {
      InsertSpec(x, s[1..]);
      var t := Insert(x, s[1..]);
      assert Insert(x, s) == [s[0]] + t;
      forall y ensures y in Insert(x, s) <==> y == x || y in s {
        assert y in s <==> y == s[0] || y in s[1..];
      }
      if StrictlyRanked(s) && (forall i :: 0 <= i < |s| ==> s[i].id != x.id) {
        assert forall i :: 0 <= i < |s[1..]| ==> s[1..][i].id != x.id by {
          forall i | 0 <= i < |s[1..]| ensures s[1..][i].id != x.id {
            assert s[1..][i] == s[i + 1];
          }
        }
        assert StrictlyRanked(s[1..]) by {
          forall i, j | 0 <= i < j < |s[1..]| ensures Before(s[1..][i], s[1..][j]) {
            assert s[1..][i] == s[i + 1] && s[1..][j] == s[j + 1];
          }
        }
        forall j | 0 <= j < |t| ensures Before(s[0], t[j]) {
          assert t[j] in t;
          if t[j] != x {
            var k :| 0 <= k < |s[1..]| && s[1..][k] == t[j];
            assert s[1..][k] == s[k + 1];
          }
        }
      }
    } else {
      if StrictlyRanked(s) && (forall i :: 0 <= i < |s| ==> s[i].id != x.id) && s != [] {
        assert Before(x, s[0]);
      }
    }
  }

  /** Inserting adds exactly one copy of the element. */
  lemma {:induction false} InsertMultiset(x: InvertedElemPrint, s: seq<InvertedElemPrint>)
    ensures multiset(Insert(x, s)) == multiset(s) + multiset{x}
  {
    if s != [] && Before(s[0], x) {
      InsertMultiset(x, s[1..]);
      assert s == [s[0]] + s[1..];
    }
  }

  /** Sorting permutes its input: the same length, the same elements, the same multiset. */
  lemma {:induction false} SortRankedElements(s: seq<InvertedElemPrint>)
    ensures |SortRanked(s)| == |s|
    ensures forall y :: y in SortRanked(s) <==> y in s
    ensures multiset(SortRanked(s)) == multiset(s)
  {
    if s != [] {
      var init := s[..|s| - 1];
      var x := s[|s| - 1];
      SortRankedElements(init);
      InsertSpec(x, SortRanked(init));
      InsertMultiset(x, SortRanked(init));
      assert s == init + [x];
    }
  }

  /** Candidates with distinct ids come out strictly ranked. */
  lemma {:induction false} SortRankedRanks(s: seq<InvertedElemPrint>)
    requires DistinctIds(s)
    ensures StrictlyRanked(SortRanked(s))
  {
    if s != [] {
      var init := s[..|s| - 1];
      var x := s[|s| - 1];
      assert DistinctIds(init) by {
        forall i, j | 0 <= i < j < |init| ensures init[i].id != init[j].id {
          assert init[i] == s[i] && init[j] == s[j];
        }
      }
      SortRankedRanks(init);
      SortRankedElements(init);
      var t := SortRanked(init);
      forall i | 0 <= i < |t| ensures t[i].id != x.id {
        assert t[i] in t;
        var k :| 0 <= k < |init| && init[k] == t[i];
        assert s[k] == init[k];
      }
      InsertSpec(x, t);
    }
  }

  /** Sorting a duplicate-free enumeration of the candidates ranks them. */
  lemma SortedEnumerationRanks(all: seq<InvertedElemPrint>, agg: Counts)
    requires forall i :: 0 <= i < |all| ==> all[i].id in agg && agg[all[i].id] == all[i]
    requires forall k :: k in agg ==> agg[k] in all
    requires DistinctIds(all)
    ensures IsRanking(SortRanked(all), agg)
  {
    SortRankedElements(all);
    SortRankedRanks(all);
    var r := SortRanked(all);
    forall i | 0 <= i < |r| ensures r[i].id in agg && agg[r[i].id] == r[i] {
      assert r[i] in r;
      var k :| 0 <= k < |all| && all[k] == r[i];
    }
  }

  /** `Before` is a strict order: asymmetric, irreflexive and transitive. */
  lemma BeforeStrictOrder(a: InvertedElemPrint, b: InvertedElemPrint, c: InvertedElemPrint)
    ensures Before(a, b) ==> !Before(b, a)
    ensures Before(a, b) ==> a != b
    ensures Before(a, b) && Before(b, c) ==> Before(a, c)
  {
  }

  /** Two strictly ranked sequences with the same elements are equal. */
  lemma {:induction false} RankedByElements(s: seq<InvertedElemPrint>, t: seq<InvertedElemPrint>)
    requires StrictlyRanked(s) && StrictlyRanked(t)
    requires forall y :: y in s <==> y in t
    ensures s == t
    decreases |s|
  {
    assert s != [] ==> s[0] in t;
    assert t != [] ==> t[0] in s;
    if s != [] && t != [] {
      assert t[0] == s[0] || Before(s[0], t[0]);
      assert s[0] == t[0] || Before(t[0], s[0]);
      BeforeStrictOrder(s[0], t[0], t[0]);
      forall y ensures y in s[1..] <==> y in t[1..] {
        BeforeStrictOrder(s[0], y, y);
        assert y in s <==> y == s[0] || y in s[1..];
        assert y in t <==> y == t[0] || y in t[1..];
        if y in s[1..] {
          var k :| 0 <= k < |s[1..]| && s[1..][k] == y;
          assert s[k + 1] == y;
        }
        if y in t[1..] {
          var k :| 0 <= k < |t[1..]| && t[1..][k] == y;
          assert t[k + 1] == y;
        }
      }
      RankedByElements(s[1..], t[1..]);
      assert s == [s[0]] + s[1..] && t == [t[0]] + t[1..];
    }
  }

  /** The ranking of a set of candidates is unique, so the sort order is fully determined. */
  lemma RankingUnique(r1: seq<InvertedElemPrint>, r2: seq<InvertedElemPrint>, agg: Counts)
    requires IsRanking(r1, agg) && IsRanking(r2, agg)
    ensures r1 == r2
  {
    forall y ensures y in r1 <==> y in r2 {
      if y in r1 {
        var i :| 0 <= i < |r1| && r1[i] == y;
        assert agg[y.id] in r2;
      }
      if y in r2 {
        var i :| 0 <= i < |r2| && r2[i] == y;
        assert agg[y.id] in r1;
      }
    }
    RankedByElements(r1, r2);
  }

  // ---------------------------------------------------------------------
  // Rendering
  // ---------------------------------------------------------------------

  /** The record of one candidate over its document. */
  function ResultOf(d: Doc, e: InvertedElemPrint): SearchResult
  {
    SearchResult(d.title, GetDescWithHighlight(d.content, e.words), d.url)
  }

  /** One record per candidate, in ranked order, skipping ids with no document. */
  function Render(fwd: seq<Doc>, ranked: seq<InvertedElemPrint>): seq<SearchResult>
  {
    if ranked == [] then []
    else
      var e := ranked[|ranked| - 1];
      Render(fwd, ranked[..|ranked| - 1]) + (if e.id < |fwd| then [ResultOf(fwd[e.id], e)] else [])
  }

  /** When every candidate has a document, each yields exactly one record, in order. */
  lemma {:induction false} RenderAll(fwd: seq<Doc>, ranked: seq<InvertedElemPrint>)
    requires forall i :: 0 <= i < |ranked| ==> ranked[i].id < |fwd|
    ensures |Render(fwd, ranked)| == |ranked|
    ensures forall i :: 0 <= i < |ranked| ==> Render(fwd, ranked)[i] == ResultOf(fwd[ranked[i].id], ranked[i])
  {
    if ranked != [] {
      var init := ranked[..|ranked| - 1];
      RenderAll(fwd, init);
      var e := ranked[|ranked| - 1];
      var r := Render(fwd, ranked);
      assert r == Render(fwd, init) + [ResultOf(fwd[e.id], e)];
      forall i | 0 <= i < |ranked| ensures r[i] == ResultOf(fwd[ranked[i].id], ranked[i]) {
        if i < |init| {
          assert ranked[i] == init[i];
        }
      }
    }
  }

  /**
   * A search over an index built from `docs`: the candidates are exactly
   * the documents holding some query term, each with its summed relevance
   * and matched terms, in descending weight; each yields one record.
   */
  lemma SearchOverValidIndex(docs: seq<Doc>, qs: seq<Str>, ranked: seq<InvertedElemPrint>,
                             segment: Str -> seq<Str>, stops: set<Str>)
    requires ContiguousIds(docs)
    requires IsRanking(ranked, Aggregate(BuildInverted(docs, segment, stops), qs))
    ensures forall i :: 0 <= i < |ranked| ==>
              ranked[i].id < |docs| && DocMatches(docs[ranked[i].id], qs, segment, stops) != []
              && ranked[i].weight == DocScore(docs[ranked[i].id], qs, segment, stops)
              && ranked[i].words == DocMatches(docs[ranked[i].id], qs, segment, stops)
    ensures forall id :: 0 <= id < |docs| && DocMatches(docs[id], qs, segment, stops) != [] ==>
              exists i :: 0 <= i < |ranked| && ranked[i].id == id
    ensures forall i, j :: 0 <= i < j < |ranked| ==> ranked[i].weight >= ranked[j].weight
  {
    RankedScored(docs, qs, ranked, segment, stops);
    RankedComplete(docs, qs, ranked, segment, stops);
    RankedWeights(ranked);
  }

  /** A ranking lists weights in non-increasing order. */
  lemma RankedWeights(r: seq<InvertedElemPrint>)
    requires StrictlyRanked(r)
    ensures forall i, j :: 0 <= i < j < |r| ==> r[i].weight >= r[j].weight
  {
  }

  /** Every candidate is a document that matches, carrying its score and its matched terms. */
  lemma RankedScored(docs: seq<Doc>, qs: seq<Str>, ranked: seq<InvertedElemPrint>,
                     segment: Str -> seq<Str>, stops: set<Str>)
    requires ContiguousIds(docs)
    requires forall i :: 0 <= i < |ranked| ==>
               ranked[i].id in Aggregate(BuildInverted(docs, segment, stops), qs)
               && Aggregate(BuildInverted(docs, segment, stops), qs)[ranked[i].id] == ranked[i]
    ensures forall i :: 0 <= i < |ranked| ==>
              ranked[i].id < |docs| && DocMatches(docs[ranked[i].id], qs, segment, stops) != []
              && ranked[i].weight == DocScore(docs[ranked[i].id], qs, segment, stops)
              && ranked[i].words == DocMatches(docs[ranked[i].id], qs, segment, stops)
  {
    var inv := BuildInverted(docs, segment, stops);
    forall i | 0 <= i < |ranked|
      ensures ranked[i].id < |docs| && DocMatches(docs[ranked[i].id], qs, segment, stops) != []
              && ranked[i].weight == DocScore(docs[ranked[i].id], qs, segment, stops)
              && ranked[i].words == DocMatches(docs[ranked[i].id], qs, segment, stops)
    {
      AggregateAt(inv, qs, ranked[i].id);
      Relevance(docs, qs, ranked[i].id, segment, stops);
    }
  }

  /** Every document that matches a query term is a candidate. */
  lemma RankedComplete(docs: seq<Doc>, qs: seq<Str>, ranked: seq<InvertedElemPrint>,
                       segment: Str -> seq<Str>, stops: set<Str>)
    requires ContiguousIds(docs)
    requires forall k :: k in Aggregate(BuildInverted(docs, segment, stops), qs) ==>
               Aggregate(BuildInverted(docs, segment, stops), qs)[k] in ranked
    ensures forall id :: 0 <= id < |docs| && DocMatches(docs[id], qs, segment, stops) != [] ==>
              exists i :: 0 <= i < |ranked| && ranked[i].id == id
  {
    var inv := BuildInverted(docs, segment, stops);
    var agg := Aggregate(inv, qs);
    forall id | 0 <= id < |docs| && DocMatches(docs[id], qs, segment, stops) != []
      ensures exists i :: 0 <= i < |ranked| && ranked[i].id == id
    {
      AggregateAt(inv, qs, id);
      Relevance(docs, qs, id, segment, stops);
      assert agg[id] in ranked;
      var i :| 0 <= i < |ranked| && ranked[i] == agg[id];
      assert ranked[i].id == id;
    }
  }

  // ---------------------------------------------------------------------
  // Snippets (GetDescWithHighlight, GetDesc)
  // ---------------------------------------------------------------------

  const PREV_STEP: nat := 50
  const NEXT_STEP: nat := 100
  /** The length of the summary taken from the start of a body. */
  const SUMMARY_LEN: nat := 150
  const DOTS: Str := "..."
  const EM_OPEN: Str := "<em>"
  const EM_CLOSE: Str := "</em>"
  /** The snippets GetDesc returns when the word is not found or the window is empty. */
  const NONE1: Str := "None1"
  const NONE2: Str := "None2"

  /** `s.substr(0, n)`. */
  function Prefix(s: Str, n: nat): Str
  {
    if |s| <= n then s else s[..n]
  }

  /** `w` matches `body` at `i`, byte by byte after `std::tolower`. */
  predicate MatchesAt(body: Str, w: Str, i: nat)
  {
    i + |w| <= |body| && forall k :: 0 <= k < |w| ==> ToLower(body[i + k]) == ToLower(w[k])
  }

  lemma LowerOccursAt(body: Str, w: Str, i: nat)
    ensures OccursAt(LowerStr(body), LowerStr(w), i) <==> MatchesAt(body, w, i)
  {
    var lb := LowerStr(body);
    var lw := LowerStr(w);
    if i + |w| <= |body| {
      if OccursAt(lb, lw, i) {
        forall k | 0 <= k < |w| ensures ToLower(body[i + k]) == ToLower(w[k]) {
          assert lb[i..i + |w|][k] == lb[i + k];
        }
      }
      if MatchesAt(body, w, i) {
        assert lb[i..i + |w|] == lw;
      }
    }
  }

  /**
   * std::search with the case-insensitive predicate, as an offset: the first
   * position where `w` matches, or `|body|` (the end iterator) when there is
   * none.  An empty `w` matches at the beginning, which is the end for an
   * empty body.
   */
  function SearchCI(body: Str, w: Str): (pos: nat)
    ensures pos <= |body|
    ensures pos < |body| ==> MatchesAt(body, w, pos)
    ensures forall k :: 0 <= k < pos && k < |body| ==> !MatchesAt(body, w, k)
    ensures pos == |body| ==> forall k :: 0 <= k < |body| ==> !MatchesAt(body, w, k)
  {
    var r := Find(LowerStr(body), LowerStr(w));
    assert forall k :: OccursAt(LowerStr(body), LowerStr(w), k) <==> MatchesAt(body, w, k) by {
      forall k ensures OccursAt(LowerStr(body), LowerStr(w), k) <==> MatchesAt(body, w, k) {
        LowerOccursAt(body, w, k);
      }
    }
    if r.Some? && r.value < |body| then r.value else |body|
  }

  function WindowStart(pos: nat): nat
  {
    if pos > PREV_STEP then pos - PREV_STEP else 0
  }

  function WindowEnd(bodyLen: nat, pos: nat, wordLen: nat): nat
  {
    if pos + wordLen + NEXT_STEP < bodyLen then pos + wordLen + NEXT_STEP else bodyLen
  }

  /** `desc` with the first occurrence of `w` (case-sensitive) wrapped in <em> and </em>. */
  function Highlight(desc: Str, w: Str): Str
  {
    match Find(desc, w)
    case Some(f) => desc[..f] + EM_OPEN + w + EM_CLOSE + desc[f + |w|..]
    case None => desc
  }

  /** The snippet of a result: a window around the first matched word, highlighted. */
  function GetDescWithHighlight(body: Str, words: seq<Str>): Str
  {
    if words == [] then Prefix(body, SUMMARY_LEN) + DOTS
    else
      var w := words[0];
      var pos := SearchCI(body, w);
      if pos == |body| then Prefix(body, SUMMARY_LEN) + DOTS
      else
        var start := WindowStart(pos);
        var end := WindowEnd(|body|, pos, |w|);
        DOTS + Highlight(body[start..end], w) + DOTS
  }

  /**
   * Without words, or when the first word matches nowhere, the snippet is
   * the first 150 bytes of the body (all of it if shorter) followed by "...".
   */
  lemma SnippetWithoutMatch(body: Str, words: seq<Str>)
    requires words == [] || forall k :: 0 <= k < |body| ==> !MatchesAt(body, words[0], k)
    ensures GetDescWithHighlight(body, words) == body[..if |body| < 150 then |body| else 150] + "..."
    ensures |GetDescWithHighlight(body, words)| <= 153
  {
  }

  /**
   * With a match at `pos`, the window begins at most 50 bytes before it,
   * holds the whole matched word, spans at most 150 bytes more than the
   * word, and the snippet is the highlighted window between "..." marks.
   */
  lemma SnippetWindow(body: Str, words: seq<Str>)
    requires words != [] && SearchCI(body, words[0]) < |body|
    ensures var w := words[0];
            var pos := SearchCI(body, w);
            var start := WindowStart(pos);
            var end := WindowEnd(|body|, pos, |w|);
            && start <= pos && pos - start <= 50
            && pos + |w| <= end <= |body|
            && end - start <= 150 + |w|
            && GetDescWithHighlight(body, words) == "..." + Highlight(body[start..end], w) + "..."
  {
  }

  /**
   * Highlighting only inserts the two markers around the first exact
   * occurrence: dropping them gives the window back.
   */
  lemma HighlightInsertsMarkers(desc: Str, w: Str)
    ensures Find(desc, w).Some? ==>
              var f := Find(desc, w).value;
              && Highlight(desc, w) == desc[..f] + "<em>" + desc[f..f + |w|] + "</em>" + desc[f + |w|..]
              && |Highlight(desc, w)| == |desc| + 9
              && forall k :: 0 <= k < f ==> !OccursAt(desc, w, k)
    ensures Find(desc, w).None? ==> Highlight(desc, w) == desc && forall k :: !OccursAt(desc, w, k)
  {
  }

  /**
   * When the first case-insensitive match is also an exact match, the
   * snippet highlights an occurrence no later than it.
   */
  lemma SnippetHighlightsExactMatch(body: Str, words: seq<Str>)
    requires words != [] && SearchCI(body, words[0]) < |body|
    requires var pos := SearchCI(body, words[0]); body[pos..pos + |words[0]|] == words[0]
    ensures var w := words[0];
            var pos := SearchCI(body, w);
            var start := WindowStart(pos);
            var end := WindowEnd(|body|, pos, |w|);
            Find(body[start..end], w).Some? && Find(body[start..end], w).value <= pos - start
  {
    WindowHoldsOccurrence(body, words[0], SearchCI(body, words[0]));
  }

  /** The window around an exact occurrence at `pos` contains it, so a first occurrence exists. */
  lemma WindowHoldsOccurrence(body: Str, w: Str, pos: nat)
    requires pos + |w| <= |body| && body[pos..pos + |w|] == w
    ensures var start := WindowStart(pos);
            var end := WindowEnd(|body|, pos, |w|);
            Find(body[start..end], w).Some? && Find(body[start..end], w).value <= pos - start
  {
    var start := WindowStart(pos);
    var end := WindowEnd(|body|, pos, |w|);
    var desc := body[start..end];
    assert desc[pos - start..pos - start + |w|] == body[pos..pos + |w|];
    assert OccursAt(desc, w, pos - start);
  }

  /**
   * GetDesc as the source writes it: the window ends at `size() - 1`, so it
   * never includes the body's last byte, and a one-byte body that matches
   * yields "None2".
   */
  function GetDescAsWritten(body: Str, w: Str): Str
  {
    var pos := SearchCI(body, w);
    if pos == |body| then NONE1
    else
      var start: int := WindowStart(pos);
      var end0: int := |body| - 1;
      var end: int := if pos < end0 - NEXT_STEP then pos + NEXT_STEP else end0;
      if start >= end then NONE2 else body[start..end] + DOTS
  }

  /** The matched word at the end of "abc" is cut off: the snippet is "ab...". */
  lemma GetDescAsWrittenDropsMatch()
    ensures GetDescAsWritten("abc", "c") == "ab..."
  {
    var body: Str := "abc";
    var w: Str := "c";
    assert MatchesAt(body, w, 2);
    assert ToLower(body[0]) != ToLower(w[0]) && ToLower(body[1]) != ToLower(w[0]);
    assert SearchCI(body, w) == 2;
  }

  /** A match in a one-byte body gives "None2". */
  lemma GetDescAsWrittenNone2()
    ensures GetDescAsWritten("a", "a") == "None2"
  {
    assert MatchesAt("a", "a", 0);
  }

  /** GetDesc with the window ending at `size()`, the evident intent. */
  function GetDescFixed(body: Str, w: Str): Str
  {
    var pos := SearchCI(body, w);
    if pos == |body| then NONE1
    else
      var start: int := WindowStart(pos);
      var end0: int := |body|;
      var end: int := if pos < end0 - NEXT_STEP then pos + NEXT_STEP else end0;
      if start >= end then NONE2 else body[start..end] + DOTS
  }

  /**
   * With a match, the corrected window always contains the match position
   * and the first min(|w|, 100) bytes of the match, so "None2" cannot occur.
   */
  lemma GetDescWindowHoldsMatch(body: Str, w: Str)
    requires SearchCI(body, w) < |body|
    ensures var pos := SearchCI(body, w);
            var start := WindowStart(pos);
            var end := if pos + 100 < |body| then pos + 100 else |body|;
            && start <= pos < end
            && pos + (if |w| < 100 then |w| else 100) <= end
            && GetDescFixed(body, w) == body[start..end] + "..."
  {
  }

  // ---------------------------------------------------------------------
  // The Searcher object
  // ---------------------------------------------------------------------

  class Searcher {
    /** The shared index (the source's singleton). */
    const index: Index
    /** The shared segmenter and stop words (the source's singleton). */
    const jieba: JiebaUtil

    constructor (index: Index, jieba: JiebaUtil)
      ensures this.index == index && this.jieba == jieba
    {
      this.index := index;
      this.jieba := jieba;
    }

    /** init_search: build the index from the corpus lines (None: the file cannot be opened). */
    method InitSearch(input: Option<seq<Str>>)
      requires index.Valid(jieba.segment, jieba.stopWords)
      modifies index
      ensures index.forwardIndex
           == if input.Some? then ForwardOf(old(index.forwardIndex), input.value) else old(index.forwardIndex)
      ensures index.Valid(jieba.segment, jieba.stopWords)
    {
      var _ := index.CreateIndex(input, jieba);
    }

    /**
     * search: the records of the ranked candidates of the query.  `ranked`
     * is the sorted candidate vector; by RankingUnique it is determined by
     * the index and the query.
     */
    method Search(query: Str) returns (results: seq<SearchResult>, ranked: seq<InvertedElemPrint>)
      ensures IsRanking(ranked, Aggregate(index.invertedIndex, QueryTerms(jieba.segment, jieba.stopWords, query)))
      ensures results == Render(index.forwardIndex, ranked)
    {
      var words := jieba.CutStringHelper(query);
      var cnt := CountTerms(words);
      var invertedAll := Collect(cnt);
      var sorted := SortRanked(invertedAll);
      SortedEnumerationRanks(invertedAll, cnt);
      ranked := sorted;
      results := Emit(sorted);
    }

    /** The first loop of search: per-document sums of posting weights and matched words. */
    method CountTerms(words: seq<Str>) returns (cnt: Counts)
      ensures cnt == Aggregate(index.invertedIndex, LowerAll(words))
      ensures Keyed(cnt)
    {
      ghost var qs := LowerAll(words);
      ghost var inv := index.invertedIndex;
      cnt := map[];
      for i := 0 to |words|
        invariant cnt == Aggregate(inv, qs[..i])
      {
        var word := LowerStr(words[i]);
        assert qs[..i + 1][..i] == qs[..i];
        var invertedList := index.GetInvertedIndex(word);
        if invertedList.None? {
          continue;
        }
        var items := invertedList.value;
        ghost var base := cnt;
        for j := 0 to |items|
          invariant cnt == AddList(base, items[..j])
        {
          assert items[..j + 1][..j] == items[..j];
          var item := items[j];
          var tmpElem := Entry(cnt, item.id);
          cnt := cnt[item.id := InvertedElemPrint(item.id, tmpElem.weight + item.weight, tmpElem.words + [item.word])];
        }
        assert items[..|items|] == items;
      }
      assert qs[..|words|] == qs;
      AggregateKeyed(inv, qs);
    }

    /** `acc` lists the entries of the keys in `done`, once each. */
    static ghost predicate Collected(cnt: Counts, acc: seq<InvertedElemPrint>, done: set<nat>)
    {
      && done <= cnt.Keys
      && (forall i :: 0 <= i < |acc| ==> acc[i].id in done && cnt[acc[i].id] == acc[i])
      && (forall k :: k in done ==> cnt[k] in acc)
      && DistinctIds(acc)
    }

    static lemma CollectStep(cnt: Counts, acc: seq<InvertedElemPrint>, done: set<nat>, id: nat)
      requires Keyed(cnt) && Collected(cnt, acc, done) && id in cnt && id !in done
      ensures Collected(cnt, acc + [cnt[id]], done + {id})
    {
      var acc' := acc + [cnt[id]];
      assert forall i :: 0 <= i < |acc| ==> acc'[i] == acc[i];
      assert forall i :: 0 <= i < |acc| ==> acc[i].id != id;
    }

    /** The second loop of search: the entries of `cnt`, in the map's iteration order. */
    static method Collect(cnt: Counts) returns (invertedAll: seq<InvertedElemPrint>)
      requires Keyed(cnt)
      ensures forall i :: 0 <= i < |invertedAll| ==> invertedAll[i].id in cnt && cnt[invertedAll[i].id] == invertedAll[i]
      ensures forall k :: k in cnt ==> cnt[k] in invertedAll
      ensures DistinctIds(invertedAll)
    {
      invertedAll := [];
      var keys := cnt.Keys;
      ghost var done: set<nat> := {};
      while keys != {}
        invariant keys !! done && keys + done == cnt.Keys
        invariant Collected(cnt, invertedAll, done)
        decreases |keys|
      {
        var id :| id in keys;
        CollectStep(cnt, invertedAll, done, id);
        invertedAll := invertedAll + [cnt[id]];
        keys := keys - {id};
        done := done + {id};
      }
    }

    /** The last loop of search: one record per ranked candidate whose document exists. */
    method Emit(sorted: seq<InvertedElemPrint>) returns (results: seq<SearchResult>)
      ensures results == Render(index.forwardIndex, sorted)
    {
      results := [];
      for i := 0 to |sorted|
        invariant results == Render(index.forwardIndex, sorted[..i])
      {
        assert sorted[..i + 1][..i] == sorted[..i];
        var doc := index.GetForwardIndex(sorted[i].id);
        if doc.None? {
          continue;
        }
        var d := doc.value;
        results := results + [SearchResult(d.title, GetDescWithHighlight(d.content, sorted[i].words), d.url)];
      }
      assert sorted[..|sorted|] == sorted;
    }
  }
}

/**
 * The forward and inverted indexes (index.hpp).  The forward index is a
 * sequence of documents whose position is their id; the inverted index maps
 * a lower-cased term to its postings, one per document that holds the term
 * in its title or content, appended in document order.  The class `Index`
 * is built once from the lines of the corpus file; the functions beside it
 * say what it holds afterwards.
 */
module Indexing {
  import opened Tools

  datatype Doc = Doc(title: Str, content: Str, url: Str, id: nat)

  /** One posting: the document, the term, and the term's weight in that document. */
  datatype InvertedItem = InvertedItem(id: nat, word: Str, weight: int)

  type InvertedList = seq<InvertedItem>

  /** How often a term occurs in a document's title and in its content. */
  datatype WordNum = WordNum(titleNum: nat, contentNum: nat)

  const TITLE_WEIGHT: int := 5
  const CONTENT_WEIGHT: int := 1

  /** Document ids are positions: the range [0, N) without gaps or repeats. */
  predicate ContiguousIds(docs: seq<Doc>)
  {
    forall i :: 0 <= i < |docs| ==> docs[i].id == i
  }

  // ---------------------------------------------------------------------
  // create_forward_index over the lines of the corpus
  // ---------------------------------------------------------------------

  /** The forward index after one line: appended when it splits into exactly 3 fields. */
  function AcceptLine(fwd: seq<Doc>, line: Str): seq<Doc>
  {
    var res := Split(line, SEP);
    if |res| == 3 then fwd + [Doc(res[0], res[1], res[2], |fwd|)] else fwd
  }

  /** The forward index after reading `lines`, in order, starting from `fwd`. */
  function ForwardOf(fwd: seq<Doc>, lines: seq<Str>): seq<Doc>
  {
    if lines == [] then fwd else AcceptLine(ForwardOf(fwd, lines[..|lines| - 1]), lines[|lines| - 1])
  }

  /** The number of lines of `lines` that split into exactly three fields. */
  function WellFormedCount(lines: seq<Str>): nat
  {
    if lines == [] then 0
    else WellFormedCount(lines[..|lines| - 1]) + (if |Split(lines[|lines| - 1], SEP)| == 3 then 1 else 0)
  }

  /**
   * Reading lines keeps the documents already there, appends one document
   * per well-formed line, and keeps ids contiguous.
   */
  lemma {:induction false} ForwardOfShape(fwd: seq<Doc>, lines: seq<Str>)
    requires ContiguousIds(fwd)
    ensures ContiguousIds(ForwardOf(fwd, lines))
    ensures |ForwardOf(fwd, lines)| == |fwd| + WellFormedCount(lines)
    ensures ForwardOf(fwd, lines)[..|fwd|] == fwd
  {
    if lines != [] {
      ForwardOfShape(fwd, lines[..|lines| - 1]);
    }
  }

  /** Reading `a + b` is reading `a`, then `b`. */
  lemma {:induction false} ForwardOfAppend(fwd: seq<Doc>, a: seq<Str>, b: seq<Str>)
    ensures ForwardOf(fwd, a + b) == ForwardOf(ForwardOf(fwd, a), b)
    decreases |b|
  {
    if b == [] {
      assert a + b == a;
    } else {
      ForwardOfAppend(fwd, a, b[..|b| - 1]);
      assert (a + b)[..|a + b| - 1] == a + b[..|b| - 1];
    }
  }

  /** A malformed line consumes no id: the index is as if the line were absent. */
  lemma SkipMalformed(fwd: seq<Doc>, a: seq<Str>, bad: Str, b: seq<Str>)
    requires |Split(bad, SEP)| != 3
    ensures ForwardOf(fwd, a + [bad] + b) == ForwardOf(fwd, a + b)
  {
    ForwardOfAppend(fwd, a + [bad], b);
    ForwardOfAppend(fwd, a, b);
    assert (a + [bad])[..|a + [bad]| - 1] == a;
  }

  // ---------------------------------------------------------------------
  // create_inverted_index: term counts and weights of one document
  // ---------------------------------------------------------------------

  /** The number of occurrences of `w` in `ws`. */
  function Count(ws: seq<Str>, w: Str): nat
  {
    if ws == [] then 0
    else Count(ws[..|ws| - 1], w) + (if ws[|ws| - 1] == w then 1 else 0)
  }

  /** A term occurs at least once exactly when it is in the sequence. */
  lemma {:induction false} CountPositive(ws: seq<Str>, w: Str)
    ensures Count(ws, w) > 0 <==> w in ws
  {
    if ws != [] {
      var init := ws[..|ws| - 1];
      CountPositive(init, w);
      assert ws == init + [ws[|ws| - 1]];
    }
  }

  /** The counter entry for `w`, or the zero counters `word_cnt[w]` default-inserts. */
  function Counter(m: map<Str, WordNum>, w: Str): WordNum
  {
    if w in m then m[w] else WordNum(0, 0)
  }

  /** `word_cnt` after counting the title tokens `ws`, starting from `m`. */
  function CountTitle(m: map<Str, WordNum>, ws: seq<Str>): map<Str, WordNum>
  {
    if ws == [] then m
    else
      var prev := CountTitle(m, ws[..|ws| - 1]);
      var w := ws[|ws| - 1];
      prev[w := Counter(prev, w).(titleNum := Counter(prev, w).titleNum + 1)]
  }

  /** `word_cnt` after counting the content tokens `ws`, starting from `m`. */
  function CountContent(m: map<Str, WordNum>, ws: seq<Str>): map<Str, WordNum>
  {
    if ws == [] then m
    else
      var prev := CountContent(m, ws[..|ws| - 1]);
      var w := ws[|ws| - 1];
      prev[w := Counter(prev, w).(contentNum := Counter(prev, w).contentNum + 1)]
  }

  /** One more title token bumps its title counter. */
  lemma CountTitleStep(m: map<Str, WordNum>, ws: seq<Str>, i: nat, cnt: map<Str, WordNum>, w: Str)
    requires i < |ws| && cnt == CountTitle(m, ws[..i]) && w == ws[i]
    ensures cnt[w := Counter(cnt, w).(titleNum := Counter(cnt, w).titleNum + 1)] == CountTitle(m, ws[..i + 1])
  {
    assert ws[..i + 1][..i] == ws[..i];
  }

  /** One more content token bumps its content counter. */
  lemma CountContentStep(m: map<Str, WordNum>, ws: seq<Str>, i: nat, cnt: map<Str, WordNum>, w: Str)
    requires i < |ws| && cnt == CountContent(m, ws[..i]) && w == ws[i]
    ensures cnt[w := Counter(cnt, w).(contentNum := Counter(cnt, w).contentNum + 1)] == CountContent(m, ws[..i + 1])
  {
    assert ws[..i + 1][..i] == ws[..i];
  }

  /** The title loop's step: the next token, lower-cased, bumps its title counter. */
  lemma CountTitleLowerStep(m: map<Str, WordNum>, ws: seq<Str>, i: nat, cnt: map<Str, WordNum>)
    requires i < |ws| && cnt == CountTitle(m, LowerAll(ws)[..i])
    ensures var w := LowerStr(ws[i]);
            cnt[w := Counter(cnt, w).(titleNum := Counter(cnt, w).titleNum + 1)] == CountTitle(m, LowerAll(ws)[..i + 1])
  {
    CountTitleStep(m, LowerAll(ws), i, cnt, LowerStr(ws[i]));
  }

  /** The content loop's step: the next token, lower-cased, bumps its content counter. */
  lemma CountContentLowerStep(m: map<Str, WordNum>, ws: seq<Str>, i: nat, cnt: map<Str, WordNum>)
    requires i < |ws| && cnt == CountContent(m, LowerAll(ws)[..i])
    ensures var w := LowerStr(ws[i]);
            cnt[w := Counter(cnt, w).(contentNum := Counter(cnt, w).contentNum + 1)] == CountContent(m, LowerAll(ws)[..i + 1])
  {
    CountContentStep(m, LowerAll(ws), i, cnt, LowerStr(ws[i]));
  }

  /** `word_cnt` after counting title tokens `t`, then content tokens `c`. */
  function Tally(t: seq<Str>, c: seq<Str>): map<Str, WordNum>
  {
    CountContent(CountTitle(map[], t), c)
  }

  lemma {:induction false} CountTitleMeaning(ws: seq<Str>, w: Str)
    ensures Counter(CountTitle(map[], ws), w) == WordNum(Count(ws, w), 0)
    ensures w in CountTitle(map[], ws) <==> w in ws
  {
    if ws != [] {
      var init := ws[..|ws| - 1];
      CountTitleMeaning(init, w);
      CountPositive(ws, w);
      CountPositive(init, w);
    }
  }

  lemma {:induction false} CountContentMeaning(m: map<Str, WordNum>, ws: seq<Str>, w: Str)
    ensures Counter(CountContent(m, ws), w) == Counter(m, w).(contentNum := Counter(m, w).contentNum + Count(ws, w))
    ensures w in CountContent(m, ws) <==> w in m || w in ws
  {
    if ws != [] {
      var init := ws[..|ws| - 1];
      CountContentMeaning(m, init, w);
      CountPositive(ws, w);
      CountPositive(init, w);
    }
  }

  /**
   * The counters hold exactly the distinct tokens, and each one's title and
   * content counters are its numbers of occurrences.
   */
  lemma TallyMeaning(t: seq<Str>, c: seq<Str>, w: Str)
    ensures w in Tally(t, c) <==> w in t || w in c
    ensures w in Tally(t, c) ==> Tally(t, c)[w] == WordNum(Count(t, w), Count(c, w))
  {
    CountTitleMeaning(t, w);
    CountContentMeaning(CountTitle(map[], t), c, w);
  }

  /** The lower-cased tokens of a document's title. */
  function TitleTerms(d: Doc, segment: Str -> seq<Str>, stops: set<Str>): seq<Str>
  {
    LowerAll(CutString(segment, stops, d.title))
  }

  /** The lower-cased tokens of a document's content. */
  function ContentTerms(d: Doc, segment: Str -> seq<Str>, stops: set<Str>): seq<Str>
  {
    LowerAll(CutString(segment, stops, d.content))
  }

  /** The term counters of one document, keyed by its distinct terms. */
  function DocTally(d: Doc, segment: Str -> seq<Str>, stops: set<Str>): map<Str, WordNum>
  {
    Tally(TitleTerms(d, segment, stops), ContentTerms(d, segment, stops))
  }

  function Weight(n: WordNum): int
  {
    n.titleNum * TITLE_WEIGHT + n.contentNum * CONTENT_WEIGHT
  }

  /** The weight of term `w` in document `d`: 5 per title occurrence, 1 per content occurrence. */
  function DocWeight(d: Doc, w: Str, segment: Str -> seq<Str>, stops: set<Str>): int
  {
    5 * Count(TitleTerms(d, segment, stops), w) + Count(ContentTerms(d, segment, stops), w)
  }

  /**
   * A term of a document has its exact weight, at least 1; a word that is
   * not a term of the document has weight 0.
   */
  lemma DocTallyWeight(d: Doc, w: Str, segment: Str -> seq<Str>, stops: set<Str>)
    ensures w in DocTally(d, segment, stops) ==>
              Weight(DocTally(d, segment, stops)[w]) == DocWeight(d, w, segment, stops) >= 1
    ensures w !in DocTally(d, segment, stops) ==> DocWeight(d, w, segment, stops) == 0
    ensures w in DocTally(d, segment, stops) <==>
              w in TitleTerms(d, segment, stops) || w in ContentTerms(d, segment, stops)
  {
    TallyMeaning(TitleTerms(d, segment, stops), ContentTerms(d, segment, stops), w);
    CountPositive(TitleTerms(d, segment, stops), w);
    CountPositive(ContentTerms(d, segment, stops), w);
  }

  // ---------------------------------------------------------------------
  // The inverted index as a function of the forward index
  // ---------------------------------------------------------------------

  /** The posting list of `w`, empty when `w` is absent. */
  function Lookup(inv: map<Str, InvertedList>, w: Str): InvertedList
  {
    if w in inv then inv[w] else []
  }

  /** One posting per distinct term of the document, appended to that term's list. */
  function AddDoc(inv: map<Str, InvertedList>, id: nat, tally: map<Str, WordNum>): map<Str, InvertedList>
  {
    map w | w in inv.Keys + tally.Keys ::
      Lookup(inv, w) + (if w in tally then [InvertedItem(id, w, Weight(tally[w]))] else [])
  }

  lemma AddDocKeys(inv: map<Str, InvertedList>, id: nat, tally: map<Str, WordNum>, w: Str)
    ensures w in AddDoc(inv, id, tally) <==> w in inv || w in tally
  {
  }

  /** The counters of the terms in `done` and no others. */
  function Restrict(tally: map<Str, WordNum>, done: set<Str>): map<Str, WordNum>
  {
    map w | w in tally.Keys && w in done :: tally[w]
  }

  lemma AddDocNothing(inv: map<Str, InvertedList>, id: nat, tally: map<Str, WordNum>)
    ensures AddDoc(inv, id, Restrict(tally, {})) == inv
  {
    assert Restrict(tally, {}) == map[];
    var r := AddDoc(inv, id, map[]);
    assert r.Keys == inv.Keys;
    forall w | w in r ensures r[w] == inv[w] {
      assert r[w] == Lookup(inv, w) + [];
    }
  }

  lemma RestrictAll(tally: map<Str, WordNum>, done: set<Str>)
    requires done == tally.Keys
    ensures Restrict(tally, done) == tally
  {
  }

  /** Posting one more term changes that term's list only. */
  lemma AddDocStep(inv: map<Str, InvertedList>, id: nat, tally: map<Str, WordNum>, done: set<Str>, w: Str)
    requires w in tally && w !in done
    ensures Lookup(AddDoc(inv, id, Restrict(tally, done)), w) == Lookup(inv, w)
    ensures AddDoc(inv, id, Restrict(tally, done + {w}))
         == AddDoc(inv, id, Restrict(tally, done))[w := Lookup(inv, w) + [InvertedItem(id, w, Weight(tally[w]))]]
  {
    var before := AddDoc(inv, id, Restrict(tally, done));
    var after := AddDoc(inv, id, Restrict(tally, done + {w}));
    var want := before[w := Lookup(inv, w) + [InvertedItem(id, w, Weight(tally[w]))]];
    assert after.Keys == want.Keys;
    forall x | x in after ensures after[x] == want[x] {
    }
  }

  /** The loop step of create_inverted_index: posting `w` moves it into the done set. */
  lemma PostOneTerm(inv: map<Str, InvertedList>, id: nat, tally: map<Str, WordNum>, done: set<Str>, w: Str,
                    cur: map<Str, InvertedList>)
    requires w in tally && w !in done
    requires cur == AddDoc(inv, id, Restrict(tally, done))
    ensures cur[w := Lookup(cur, w) + [InvertedItem(id, w, tally[w].titleNum * TITLE_WEIGHT + tally[w].contentNum * CONTENT_WEIGHT)]]
         == AddDoc(inv, id, Restrict(tally, done + {w}))
  {
    AddDocStep(inv, id, tally, done, w);
  }

  /** The inverted index built from `docs`, one document after another. */
  function BuildInverted(docs: seq<Doc>, segment: Str -> seq<Str>, stops: set<Str>): map<Str, InvertedList>
  {
    if docs == [] then map[]
    else
      var d := docs[|docs| - 1];
      AddDoc(BuildInverted(docs[..|docs| - 1], segment, stops), d.id, DocTally(d, segment, stops))
  }

  /** The reference definition, term by term: the postings of `w`, document by document. */
  function PostingsFor(docs: seq<Doc>, w: Str, segment: Str -> seq<Str>, stops: set<Str>): InvertedList
  {
    if docs == [] then []
    else
      var d := docs[|docs| - 1];
      var tally := DocTally(d, segment, stops);
      PostingsFor(docs[..|docs| - 1], w, segment, stops)
        + (if w in tally then [InvertedItem(d.id, w, Weight(tally[w]))] else [])
  }

  /**
   * The document-by-document construction agrees with the term-by-term
   * definition: a term is indexed exactly when it has postings, and its
   * list is exactly those postings.
   */
  lemma {:induction false} InvertedPerTerm(docs: seq<Doc>, w: Str, segment: Str -> seq<Str>, stops: set<Str>)
    ensures w in BuildInverted(docs, segment, stops) <==> PostingsFor(docs, w, segment, stops) != []
    ensures Lookup(BuildInverted(docs, segment, stops), w) == PostingsFor(docs, w, segment, stops)
  {
    if docs != [] {
      InvertedPerTerm(docs[..|docs| - 1], w, segment, stops);
    }
  }

  /**
   * Every posting of `w` names a real document, carries `w`, and has
   * exactly the document's weight for `w`, at least 1; ids strictly
   * increase along the list.
   */
  lemma PostingsForValid(docs: seq<Doc>, w: Str, segment: Str -> seq<Str>, stops: set<Str>)
    requires ContiguousIds(docs)
    ensures forall k :: 0 <= k < |PostingsFor(docs, w, segment, stops)| ==>
              var p := PostingsFor(docs, w, segment, stops)[k];
              p.id < |docs| && p.word == w && w in DocTally(docs[p.id], segment, stops)
              && p.weight == DocWeight(docs[p.id], w, segment, stops) && p.weight >= 1
    ensures forall k, l :: 0 <= k < l < |PostingsFor(docs, w, segment, stops)| ==>
              PostingsFor(docs, w, segment, stops)[k].id < PostingsFor(docs, w, segment, stops)[l].id
  {
    PostingsSound(docs, w, segment, stops);
    PostingsAscending(docs, w, segment, stops);
  }

  lemma {:induction false} PostingsSound(docs: seq<Doc>, w: Str, segment: Str -> seq<Str>, stops: set<Str>)
    requires ContiguousIds(docs)
    ensures forall k :: 0 <= k < |PostingsFor(docs, w, segment, stops)| ==>
              var p := PostingsFor(docs, w, segment, stops)[k];
              p.id < |docs| && p.word == w && w in DocTally(docs[p.id], segment, stops)
              && p.weight == DocWeight(docs[p.id], w, segment, stops) && p.weight >= 1
  {
    if docs != [] {
      var init := docs[..|docs| - 1];
      var d := docs[|docs| - 1];
      PostingsSound(init, w, segment, stops);
      DocTallyWeight(d, w, segment, stops);
      var Q := PostingsFor(init, w, segment, stops);
      forall k | 0 <= k < |Q| ensures docs[Q[k].id] == init[Q[k].id] {
      }
    }
  }

  lemma {:induction false} PostingsAscending(docs: seq<Doc>, w: Str, segment: Str -> seq<Str>, stops: set<Str>)
    requires ContiguousIds(docs)
    ensures forall k, l :: 0 <= k < l < |PostingsFor(docs, w, segment, stops)| ==>
              PostingsFor(docs, w, segment, stops)[k].id < PostingsFor(docs, w, segment, stops)[l].id
  {
    if docs != [] {
      var init := docs[..|docs| - 1];
      PostingsAscending(init, w, segment, stops);
      PostingsIdsBelow(init, w, segment, stops);
    }
  }

  lemma {:induction false} PostingsIdsBelow(docs: seq<Doc>, w: Str, segment: Str -> seq<Str>, stops: set<Str>)
    requires ContiguousIds(docs)
    ensures forall k :: 0 <= k < |PostingsFor(docs, w, segment, stops)| ==> PostingsFor(docs, w, segment, stops)[k].id < |docs|
  {
    if docs != [] {
      PostingsIdsBelow(docs[..|docs| - 1], w, segment, stops);
    }
  }

  /** Every document holding `w` has a posting in the list of `w`. */
  lemma {:induction false} PostingsForComplete(docs: seq<Doc>, w: Str, i: nat, segment: Str -> seq<Str>, stops: set<Str>)
    requires ContiguousIds(docs) && i < |docs|
    requires w in DocTally(docs[i], segment, stops)
    ensures exists k :: 0 <= k < |PostingsFor(docs, w, segment, stops)| && PostingsFor(docs, w, segment, stops)[k].id == i
  {
    var init := docs[..|docs| - 1];
    var P := PostingsFor(docs, w, segment, stops);
    var Q := PostingsFor(init, w, segment, stops);
    assert P[..|Q|] == Q;
    if i == |docs| - 1 {
      assert P[|Q|].id == i;
    } else {
      assert docs[i] == init[i];
      PostingsForComplete(init, w, i, segment, stops);
      var k :| 0 <= k < |Q| && Q[k].id == i;
      assert P[k] == P[..|Q|][k];
    }
  }

  /** A term is indexed exactly when some document holds it in its title or content. */
  lemma IndexedIffOccurs(docs: seq<Doc>, w: Str, segment: Str -> seq<Str>, stops: set<Str>)
    requires ContiguousIds(docs)
    ensures w in BuildInverted(docs, segment, stops) <==>
              exists i :: 0 <= i < |docs| && w in DocTally(docs[i], segment, stops)
  {
    InvertedPerTerm(docs, w, segment, stops);
    PostingsForValid(docs, w, segment, stops);
    if exists i :: 0 <= i < |docs| && w in DocTally(docs[i], segment, stops) {
      var i :| 0 <= i < |docs| && w in DocTally(docs[i], segment, stops);
      PostingsForComplete(docs, w, i, segment, stops);
    }
    if w in BuildInverted(docs, segment, stops) {
      var p := PostingsFor(docs, w, segment, stops)[0];
      assert p.id < |docs| && w in DocTally(docs[p.id], segment, stops);
    }
  }

  // ---------------------------------------------------------------------
  // The Index object
  // ---------------------------------------------------------------------

  class Index {
    /** forward_index: the documents, position = id. */
    var forwardIndex: seq<Doc>
    /** inverted_index: term -> postings. */
    var invertedIndex: map<Str, InvertedList>

    constructor ()
      ensures forwardIndex == [] && invertedIndex == map[]
    {
      forwardIndex := [];
      invertedIndex := map[];
    }

    /** Ids are contiguous and the inverted index is the one the documents determine. */
    ghost predicate Valid(segment: Str -> seq<Str>, stops: set<Str>)
      reads this
    {
      ContiguousIds(forwardIndex) && invertedIndex == BuildInverted(forwardIndex, segment, stops)
    }

    /**
     * Reads the corpus line by line (None: the file cannot be opened, and
     * nothing changes); each well-formed line becomes a document and then
     * contributes its postings.
     */
    method CreateIndex(input: Option<seq<Str>>, jieba: JiebaUtil) returns (ok: bool)
      requires Valid(jieba.segment, jieba.stopWords)
      modifies this
      ensures ok == input.Some?
      ensures forwardIndex == if input.Some? then ForwardOf(old(forwardIndex), input.value) else old(forwardIndex)
      ensures Valid(jieba.segment, jieba.stopWords)
    {
      if input.None? {
        return false;
      }
      var lines := input.value;
      for i := 0 to |lines|
        invariant forwardIndex == ForwardOf(old(forwardIndex), lines[..i])
        invariant Valid(jieba.segment, jieba.stopWords)
      {
        assert lines[..i + 1][..i] == lines[..i];
        IndexLine(lines[i], jieba);
      }
      assert lines[..|lines|] == lines;
      return true;
    }

    /** One pass of the loop of create_index: a well-formed line adds a document and its postings. */
    method IndexLine(line: Str, jieba: JiebaUtil)
      requires Valid(jieba.segment, jieba.stopWords)
      modifies this
      ensures forwardIndex == AcceptLine(old(forwardIndex), line)
      ensures Valid(jieba.segment, jieba.stopWords)
    {
      ghost var before := forwardIndex;
      var accepted := CreateForwardIndex(line);
      if !accepted {
        return;
      }
      var docItem := forwardIndex[|forwardIndex| - 1];
      assert forwardIndex[..|forwardIndex| - 1] == before;
      CreateInvertedIndex(docItem, jieba);
    }

    /** Splits one line on byte 3 and appends a document when there are exactly 3 fields. */
    method CreateForwardIndex(dataLine: Str) returns (ok: bool)
      modifies this`forwardIndex
      ensures ok == (|Split(dataLine, SEP)| == 3)
      ensures forwardIndex == AcceptLine(old(forwardIndex), dataLine)
    {
      var res := Split(dataLine, SEP);
      if |res| != 3 {
        return false;
      }
      var tmp := Doc(res[0], res[1], res[2], |forwardIndex|);
      forwardIndex := forwardIndex + [tmp];
      return true;
    }

    /**
     * Counts the lower-cased title and content tokens of `doc` separately,
     * then appends one weighted posting per distinct term.
     */
    method CreateInvertedIndex(doc: Doc, jieba: JiebaUtil)
      modifies this`invertedIndex
      ensures invertedIndex == AddDoc(old(invertedIndex), doc.id, DocTally(doc, jieba.segment, jieba.stopWords))
    {
      var titleWord := jieba.CutStringHelper(doc.title);
      var wordCnt := CountTitleWords(map[], titleWord);
      var contentWord := jieba.CutStringHelper(doc.content);
      wordCnt := CountContentWords(wordCnt, contentWord);
      PostTerms(doc.id, wordCnt);
    }

    /** The title loop of create_inverted_index: lower-case each token and bump its title counter. */
    static method CountTitleWords(m: map<Str, WordNum>, titleWord: seq<Str>) returns (wordCnt: map<Str, WordNum>)
      ensures wordCnt == CountTitle(m, LowerAll(titleWord))
    {
      wordCnt := m;
      for i := 0 to |titleWord|
        invariant wordCnt == CountTitle(m, LowerAll(titleWord)[..i])
      {
        var word := LowerStr(titleWord[i]);
        var cur := Counter(wordCnt, word);
        CountTitleLowerStep(m, titleWord, i, wordCnt);
        wordCnt := wordCnt[word := cur.(titleNum := cur.titleNum + 1)];
      }
      assert LowerAll(titleWord)[..|titleWord|] == LowerAll(titleWord);
    }

    /** The content loop of create_inverted_index: lower-case each token and bump its content counter. */
    static method CountContentWords(m: map<Str, WordNum>, contentWord: seq<Str>) returns (wordCnt: map<Str, WordNum>)
      ensures wordCnt == CountContent(m, LowerAll(contentWord))
    {
      wordCnt := m;
      for i := 0 to |contentWord|
        invariant wordCnt == CountContent(m, LowerAll(contentWord)[..i])
      {
        var word := LowerStr(contentWord[i]);
        var cur := Counter(wordCnt, word);
        CountContentLowerStep(m, contentWord, i, wordCnt);
        wordCnt := wordCnt[word := cur.(contentNum := cur.contentNum + 1)];
      }
      assert LowerAll(contentWord)[..|contentWord|] == LowerAll(contentWord);
    }

    /** The posting loop of create_inverted_index: one weighted posting per counted term. */
    method PostTerms(id: nat, wordCnt: map<Str, WordNum>)
      modifies this`invertedIndex
      ensures invertedIndex == AddDoc(old(invertedIndex), id, wordCnt)
    {
      ghost var inv0 := invertedIndex;
      AddDocNothing(inv0, id, wordCnt);
      var keys := wordCnt.Keys;
      ghost var done: set<Str> := {};
      while keys != {}
        invariant keys !! done && keys + done == wordCnt.Keys
        invariant invertedIndex == AddDoc(inv0, id, Restrict(wordCnt, done))
        decreases |keys|
      {
        var word :| word in keys;
        var weight := wordCnt[word].titleNum * TITLE_WEIGHT + wordCnt[word].contentNum * CONTENT_WEIGHT;
        PostOneTerm(inv0, id, wordCnt, done, word, invertedIndex);
        var tmpList := Lookup(invertedIndex, word);
        invertedIndex := invertedIndex[word := tmpList + [InvertedItem(id, word, weight)]];
        keys := keys - {word};
        done := done + {word};
      }
      RestrictAll(wordCnt, done);
    }
    /** The document with id `id`, or None (null) when `id` is out of range. */
    method GetForwardIndex(id: nat) returns (r: Option<Doc>)
      ensures r.None? <==> id >= |forwardIndex|
      ensures r.Some? ==> r.value == forwardIndex[id]
      ensures r.Some? && ContiguousIds(forwardIndex) ==> r.value.id == id
    {
      if id >= |forwardIndex| {
        return None;
      }
      return Some(forwardIndex[id]);
    }

    /** The posting list of `word`, or None (null) when it was never indexed. */
    method GetInvertedIndex(word: Str) returns (r: Option<InvertedList>)
      ensures r.None? <==> word !in invertedIndex
      ensures r.Some? ==> r.value == invertedIndex[word]
    {
      if word !in invertedIndex {
        return None;
      }
      return Some(invertedIndex[word]);
    }
  }
}

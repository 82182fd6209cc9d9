/**
 * Byte strings, the separator-compressing split used to read corpus lines,
 * plain substring search, and the stop-word filter of the tokenizer
 * wrapper (tools.hpp).  The word segmenter itself is opaque: it is the
 * `segment` function a `JiebaUtil` object is built with.
 */
module Tools {

  datatype Option<T> = None | Some(value: T)

  /** One byte of text: the source works on `std::string`. */
  type Byte = c: char | c as int < 256

  type Str = seq<Byte>

  /** The field separator of corpus lines, byte 3, written by the parser and split on by the index. */
  const SEP: Byte := 3 as char

  // ---------------------------------------------------------------------
  // Case folding (boost::to_lower / std::tolower in the "C" locale)
  // ---------------------------------------------------------------------

  function ToLower(c: Byte): Byte
  {
    if 'A' <= c <= 'Z' then (c as int + 32) as char else c
  }

  function LowerStr(s: Str): (r: Str)
    ensures |r| == |s|
    ensures forall i :: 0 <= i < |s| ==> r[i] == ToLower(s[i])
  {
    if s == [] then [] else [ToLower(s[0])] + LowerStr(s[1..])
  }

  /** Every token lower-cased in place, as the for-loops over token vectors do. */
  function LowerAll(ws: seq<Str>): (r: seq<Str>)
    ensures |r| == |ws|
    ensures forall i :: 0 <= i < |ws| ==> r[i] == LowerStr(ws[i])
  {
    if ws == [] then [] else [LowerStr(ws[0])] + LowerAll(ws[1..])
  }

  /** Lower-casing twice is lower-casing once. */
  lemma {:induction false} LowerStrIdempotent(s: Str)
    ensures LowerStr(LowerStr(s)) == LowerStr(s)
  {
    if s != [] {
      LowerStrIdempotent(s[1..]);
      assert LowerStr(s)[1..] == LowerStr(s[1..]);
    }
  }

  // ---------------------------------------------------------------------
  // Substring search (std::string::find from position 0)
  // ---------------------------------------------------------------------

  predicate OccursAt(s: Str, pat: Str, i: nat)
  {
    i + |pat| <= |s| && s[i..i + |pat|] == pat
  }

  function FindFrom(s: Str, pat: Str, i: nat): (r: Option<nat>)
    ensures r.Some? ==> i <= r.value && OccursAt(s, pat, r.value)
    ensures r.Some? ==> forall k :: i <= k < r.value ==> !OccursAt(s, pat, k)
    ensures r.None? ==> forall k :: i <= k ==> !OccursAt(s, pat, k)
    decreases |s| - i
  {
    if i + |pat| > |s| then None
    else if OccursAt(s, pat, i) then Some(i)
    else FindFrom(s, pat, i + 1)
  }

  /** The first position at which `pat` occurs in `s`, or None (npos). */
  function Find(s: Str, pat: Str): Option<nat>
  {
    FindFrom(s, pat, 0)
  }

  /** Find returns exactly the first occurrence. */
  lemma FindFirst(s: Str, pat: Str, i: nat)
    requires OccursAt(s, pat, i)
    requires forall k :: 0 <= k < i ==> !OccursAt(s, pat, k)
    ensures Find(s, pat) == Some(i)
  {
  }

  // ---------------------------------------------------------------------
  // split_string: boost::split(res, str, is_any_of(sep), token_compress_on)
  // ---------------------------------------------------------------------

  function IndexOf(s: Str, x: Byte): (i: nat)
    requires x in s
    ensures i < |s| && s[i] == x && x !in s[..i]
  {
    if s[0] == x then 0 else 1 + IndexOf(s[1..], x)
  }

  /** The end of the run of separators that starts at `k`. */
  function SkipRun(s: Str, k: nat, sep: Byte): (j: nat)
    requires k <= |s|
    ensures k <= j <= |s|
    ensures j < |s| ==> s[j] != sep
    ensures forall m :: k <= m < j ==> s[m] == sep
    decreases |s| - k
  {
    if k < |s| && s[k] == sep then SkipRun(s, k + 1, sep) else k
  }

  /**
   * The tokens of `s`: the text before the first separator, then the
   * tokens of what follows the whole run of separators that starts there.
   * A string without separator is one token; the empty string is one empty
   * token; a leading (trailing) separator yields a leading (trailing) empty
   * token.
   */
  function Split(s: Str, sep: Byte): (r: seq<Str>)
    ensures |r| >= 1
    decreases |s|
  {
    if sep !in s then [s]
    else
      var i := IndexOf(s, sep);
      var j := SkipRun(s, i + 1, sep);
      [s[..i]] + Split(s[j..], sep)
  }

  /** Tokens joined with one separator between neighbours. */
  function Join(toks: seq<Str>, sep: Byte): Str
  {
    if toks == [] then []
    else if |toks| == 1 then toks[0]
    else toks[0] + [sep] + Join(toks[1..], sep)
  }

  /** No token contains the separator. */
  lemma {:induction false} SplitTokensSepFree(s: Str, sep: Byte)
    ensures forall k :: 0 <= k < |Split(s, sep)| ==> sep !in Split(s, sep)[k]
    decreases |s|
  {
    if sep in s {
      var i := IndexOf(s, sep);
      var j := SkipRun(s, i + 1, sep);
      SplitTokensSepFree(s[j..], sep);
    }
  }

  /**
   * Adjacent separators are compressed: no token strictly between the
   * first and the last is empty, and a string that does not start with a
   * separator has a non-empty first token unless it is the only one.
   */
  lemma {:induction false} SplitInteriorNonEmpty(s: Str, sep: Byte)
    ensures forall k :: 0 < k < |Split(s, sep)| - 1 ==> Split(s, sep)[k] != []
    ensures s != [] && s[0] != sep && |Split(s, sep)| > 1 ==> Split(s, sep)[0] != []
    decreases |s|
  {
    if sep in s {
      var i := IndexOf(s, sep);
      var j := SkipRun(s, i + 1, sep);
      var rest := s[j..];
      var t := Split(rest, sep);
      var r := Split(s, sep);
      assert r == [s[..i]] + t;
      assert forall k :: 0 < k < |t| - 1 ==> t[k] != [] by {
        SplitInteriorNonEmpty(rest, sep);
      }
      assert |t| > 1 ==> t[0] != [] by {
        if |t| > 1 {
          assert sep in rest by { SplitSingle(rest, sep); }
          assert rest[0] != sep;
          SplitInteriorNonEmpty(rest, sep);
        }
      }
      assert forall k :: 0 < k < |r| ==> r[k] == t[k - 1];
    }
  }

  /** A string splits into one token exactly when it holds no separator. */
  lemma {:induction false} SplitSingle(s: Str, sep: Byte)
    ensures |Split(s, sep)| == 1 <==> sep !in s
    ensures sep !in s ==> Split(s, sep) == [s]
  {
    if sep in s {
      var i := IndexOf(s, sep);
      var j := SkipRun(s, i + 1, sep);
      assert |Split(s, sep)| == 1 + |Split(s[j..], sep)|;
    }
  }

  /**
   * A separator-free head followed by a run of separators splits off as
   * the first token; splitting resumes after the whole run.
   */
  lemma SplitAtRun(a: Str, run: Str, b: Str, sep: Byte)
    requires sep !in a
    requires |run| >= 1 && forall k :: 0 <= k < |run| ==> run[k] == sep
    requires b == [] || b[0] != sep
    ensures Split(a + run + b, sep) == [a] + Split(b, sep)
  {
    var s := a + run + b;
    assert s[|a|] == sep;
    var i := IndexOf(s, sep);
    assert s[..|a|] == a;
    assert forall m :: 0 <= m < |a| ==> s[m] == a[m];
    assert i == |a|;
    assert s[..i] == a;
    var j := SkipRun(s, i + 1, sep);
    forall m | i + 1 <= m < |a| + |run| ensures s[m] == sep {
      assert s[m] == run[m - |a|];
    }
    if b != [] { assert s[|a| + |run|] == b[0]; }
    assert j == |a| + |run|;
    assert s[j..] == b;
  }

  /**
   * Split undoes Join for separator-free tokens whose interior tokens are
   * non-empty (an empty interior token would be a run of two separators,
   * which the compressing split merges).
   */
  lemma {:induction false} SplitJoin(toks: seq<Str>, sep: Byte)
    requires |toks| >= 1
    requires forall k :: 0 <= k < |toks| ==> sep !in toks[k]
    requires forall k :: 0 < k < |toks| - 1 ==> toks[k] != []
    ensures Split(Join(toks, sep), sep) == toks
    decreases |toks|
  {
    if |toks| == 1 {
      SplitSingle(toks[0], sep);
    } else {
      var rest := toks[1..];
      var tail := Join(rest, sep);
      assert Split(tail, sep) == rest by {
        assert forall k :: 0 <= k < |rest| ==> rest[k] == toks[k + 1];
        SplitJoin(rest, sep);
      }
      assert tail == [] || tail[0] != sep by {
        if tail != [] {
          assert rest[0] == toks[1];
          JoinHead(rest, sep);
        }
      }
      assert Split(Join(toks, sep), sep) == [toks[0]] + Split(tail, sep) by {
        assert Join(toks, sep) == toks[0] + [sep] + tail;
        SplitAtRun(toks[0], [sep], tail, sep);
      }
      assert toks == [toks[0]] + rest;
    }
  }

  /** A join does not start with a separator when its first token is non-empty. */
  lemma JoinHead(toks: seq<Str>, sep: Byte)
    requires |toks| >= 1
    requires forall k :: 0 <= k < |toks| ==> sep !in toks[k]
    requires forall k :: 0 < k < |toks| - 1 ==> toks[k] != []
    requires toks[0] != [] || |toks| == 1
    requires Join(toks, sep) != []
    ensures Join(toks, sep)[0] != sep
  {
  }

  /**
   * A three-field record splits back into its fields exactly when the
   * middle field is non-empty; with an empty middle field the two
   * separators merge and only two fields come back.
   */
  lemma RecordSplit(title: Str, content: Str, url: Str, sep: Byte)
    requires sep !in title && sep !in content && sep !in url
    ensures content != [] ==> Split(Join([title, content, url], sep), sep) == [title, content, url]
    ensures content == [] ==> Split(Join([title, content, url], sep), sep) == [title, url]
  {
    if content != [] {
      SplitJoin([title, content, url], sep);
    } else {
      assert Join([content, url], sep) == [sep] + url;
      assert Join([title, content, url], sep) == title + [sep] + ([sep] + url);
      assert title + [sep] + ([sep] + url) == title + [sep, sep] + url;
      SplitAtRun(title, [sep, sep], url, sep);
      SplitSingle(url, sep);
    }
  }

  // ---------------------------------------------------------------------
  // Stop-word filtering (JiebaUtil::CutStringHelper)
  // ---------------------------------------------------------------------

  /** The tokens of `ws` that are not stop words, in their original order. */
  function FilterStopWords(ws: seq<Str>, stops: set<Str>): (r: seq<Str>)
    ensures |r| <= |ws|
    ensures forall k :: 0 <= k < |r| ==> r[k] !in stops
    ensures forall k :: 0 <= k < |r| ==> r[k] in ws
  {
    if ws == [] then []
    else
      var init := ws[..|ws| - 1];
      var last := ws[|ws| - 1];
      FilterStopWords(init, stops) + (if last in stops then [] else [last])
  }

  /** Filtering distributes over concatenation: relative order is kept. */
  lemma {:induction false} FilterAppend(a: seq<Str>, b: seq<Str>, stops: set<Str>)
    ensures FilterStopWords(a + b, stops) == FilterStopWords(a, stops) + FilterStopWords(b, stops)
    decreases |b|
  {
    if b == [] {
      assert a + b == a;
    } else {
      var b' := b[..|b| - 1];
      FilterAppend(a, b', stops);
      assert (a + b)[..|a + b| - 1] == a + b';
    }
  }

  /** A sequence without stop words is left unchanged: exactly the stop words go. */
  lemma {:induction false} FilterKeepsNonStopWords(ws: seq<Str>, stops: set<Str>)
    requires forall k :: 0 <= k < |ws| ==> ws[k] !in stops
    ensures FilterStopWords(ws, stops) == ws
  {
    if ws != [] {
      FilterKeepsNonStopWords(ws[..|ws| - 1], stops);
    }
  }

  /** Filtering an already-filtered sequence leaves it unchanged. */
  lemma FilterIdempotent(ws: seq<Str>, stops: set<Str>)
    ensures FilterStopWords(FilterStopWords(ws, stops), stops) == FilterStopWords(ws, stops)
  {
    FilterKeepsNonStopWords(FilterStopWords(ws, stops), stops);
  }

  /** The tokens CutString hands out for `src`: segmented, then filtered. */
  function CutString(segment: Str -> seq<Str>, stops: set<Str>, src: Str): seq<Str>
  {
    FilterStopWords(segment(src), stops)
  }

  /** The stop-word store and the segmenter behind JiebaUtil::CutString. */
  class JiebaUtil {
    /** cppjieba's CutForSearch, treated as an uninterpreted function. */
    const segment: Str -> seq<Str>
    /** The keys of the source's `unordered_map<string,bool> stop_words`. */
    var stopWords: set<Str>

    constructor (segment: Str -> seq<Str>)
      ensures this.segment == segment && stopWords == {}
    {
      this.segment := segment;
      stopWords := {};
    }

    /**
     * Inserts every line of the stop-word file (None: the file cannot be
     * opened, which is logged and leaves the set as it was).
     */
    method InitJiebaUtil(stopFile: Option<seq<Str>>)
      modifies this
      ensures stopFile.None? ==> stopWords == old(stopWords)
      ensures stopFile.Some? ==> stopWords == old(stopWords) + (set l | l in stopFile.value)
    {
      if stopFile.None? {
        return;
      }
      var lines := stopFile.value;
      for i := 0 to |lines|
        invariant stopWords == old(stopWords) + (set l | l in lines[..i])
      {
        assert lines[..i + 1] == lines[..i] + [lines[i]];
        stopWords := stopWords + {lines[i]};
      }
      assert lines[..|lines|] == lines;
    }

    /**
     * Segments `src` and erases the stop words from the token vector in
     * place, walking it with an index that only advances past kept tokens.
     */
    method CutStringHelper(src: Str) returns (out: seq<Str>)
      ensures out == CutString(segment, stopWords, src)
    {
      out := segment(src);
      ghost var orig := out;
      var i := 0;
      ghost var k := 0;
      while i < |out|
        invariant 0 <= i <= |out| && 0 <= k <= |orig|
        invariant out[..i] == FilterStopWords(orig[..k], stopWords)
        invariant out[i..] == orig[k..]
        decreases |out| - i
      {
        assert orig[..k + 1][..k] == orig[..k];
        assert out[i] == orig[k];
        if out[i] in stopWords {
          out := out[..i] + out[i + 1..];
        } else {
          i := i + 1;
        }
        k := k + 1;
      }
      assert orig[..|orig|] == orig;
    }
  }
}

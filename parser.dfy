/**
 * The HTML extraction helpers of the corpus builder (parser.cc): the title
 * between `<title>` and `</title>`, the tag-stripping state machine for the
 * content, the URL rewrite, the per-file assembly loop and the
 * `title \3 content \3 url \n` serialisation.  Each file is given as the
 * text that reading it line by line and concatenating the lines yields.
 */
module Parser {
  import opened Tools

  datatype FileContent = FileContent(title: Str, content: Str, url: Str)

  /** One html file found under the input directory: its path and its text. */
  datatype HtmlFile = HtmlFile(path: Str, text: Str)

  const OPEN_TITLE: Str := "<title>"
  const CLOSE_TITLE: Str := "</title>"
  const SRC_PATH: Str := "data/input"
  const URL_HEAD: Str := "https://www.boost.org" + "/doc/libs/1_78_0" + "/doc/html"
  const NL: Byte := '\n'

  // ---------------------------------------------------------------------
  // get_file_all
  // ---------------------------------------------------------------------

  /** The lines read, concatenated with nothing between them. */
  function ConcatLines(lines: seq<Str>): (r: Str)
    ensures (forall i :: 0 <= i < |lines| ==> NL !in lines[i]) ==> NL !in r
  {
    if lines == [] then []
    else ConcatLines(lines[..|lines| - 1]) + lines[|lines| - 1]
  }

  /**
   * The text of a file as get_file_all reads it: its `getline` lines glued
   * together, so no line break survives; an unopenable file reads as empty.
   */
  function FileAll(file: Option<seq<Str>>): (r: Str)
    ensures file.None? ==> r == []
    ensures file.Some? && (forall i :: 0 <= i < |file.value| ==> NL !in file.value[i]) ==> NL !in r
  {
    match file
    case None => []
    case Some(lines) => ConcatLines(lines)
  }

  // ---------------------------------------------------------------------
  // get_title
  // ---------------------------------------------------------------------

  /**
   * The first `</title>` after the first `<title>` never overlaps it, so
   * the source's unsigned `end - begin - 7` cannot wrap around.
   */
  lemma TitleTagsDisjoint(s: Str, b: nat, e: nat)
    requires OccursAt(s, OPEN_TITLE, b) && OccursAt(s, CLOSE_TITLE, e) && b < e
    ensures b + |OPEN_TITLE| <= e
  {
    if e < b + |OPEN_TITLE| {
      CloseNotInsideOpen(s, b, e);
    }
  }

  lemma CloseNotInsideOpen(s: Str, b: nat, k: nat)
    requires OccursAt(s, OPEN_TITLE, b) && b < k < b + |OPEN_TITLE|
    ensures !OccursAt(s, CLOSE_TITLE, k)
  {
    assert s[k] == s[b..b + |OPEN_TITLE|][k - b];
    Mismatch(s, CLOSE_TITLE, k, 0);
  }

  /**
   * The title of a page: the text between the first `<title>` and the first
   * `</title>`; None when the text is empty, a tag is missing, or the first
   * `</title>` does not come after the first `<title>`.
   */
  function GetTitle(fileAll: Str): Option<Str>
  {
    if fileAll == [] then None
    else
      match Find(fileAll, OPEN_TITLE)
      case None => None
      case Some(b) =>
        match Find(fileAll, CLOSE_TITLE)
        case None => None
        case Some(e) =>
          if b >= e then None
          else
            TitleTagsDisjoint(fileAll, b, e);
            Some(fileAll[b + |OPEN_TITLE|..e])
  }

  /** One differing byte rules out an occurrence. */
  lemma Mismatch(s: Str, pat: Str, k: nat, m: nat)
    requires m < |pat| && k + m < |s| && s[k + m] != pat[m]
    ensures !OccursAt(s, pat, k)
  {
    if k + |pat| <= |s| {
      assert s[k..k + |pat|][m] == s[k + m];
    }
  }

  /** `pat` occurs nowhere in `s`. */
  predicate Lacks(s: Str, pat: Str)
  {
    forall k :: 0 <= k <= |s| ==> !OccursAt(s, pat, k)
  }

  /**
   * A page `pre <title> t </title> post` has title t whenever `pre` holds
   * neither tag and `t` holds no `</title>`; any other markup may surround it.
   */
  lemma TitleOfPage(pre: Str, t: Str, post: Str)
    requires Lacks(pre, OPEN_TITLE) && Lacks(pre, CLOSE_TITLE) && Lacks(t, CLOSE_TITLE)
    ensures GetTitle(pre + OPEN_TITLE + t + CLOSE_TITLE + post) == Some(t)
  {
    var s := pre + OPEN_TITLE + t + CLOSE_TITLE + post;
    var b := |pre|;
    var e := |pre| + |OPEN_TITLE| + |t|;
    assert Find(s, OPEN_TITLE) == Some(b) by {
      OpenTagFirst(pre, t, post);
    }
    assert Find(s, CLOSE_TITLE) == Some(e) by {
      CloseTagFirst(pre, t, post);
    }
    assert s[b + |OPEN_TITLE|..e] == t;
  }

  /**
   * Conversely, a title found sits between the first `<title>` and a
   * `</title>`, with neither tag before it and no `</title>` inside it.
   */
  lemma TitleBetweenTags(s: Str)
    requires GetTitle(s).Some?
    ensures var b := Find(s, OPEN_TITLE).value;
            var t := GetTitle(s).value;
            var e := b + |OPEN_TITLE| + |t|;
            && e + |CLOSE_TITLE| <= |s|
            && s == s[..b] + OPEN_TITLE + t + CLOSE_TITLE + s[e + |CLOSE_TITLE|..]
            && Lacks(s[..b], OPEN_TITLE) && Lacks(s[..b], CLOSE_TITLE) && Lacks(t, CLOSE_TITLE)
  {
    var b := Find(s, OPEN_TITLE).value;
    var e := Find(s, CLOSE_TITLE).value;
    assert OccursAt(s, OPEN_TITLE, b) && OccursAt(s, CLOSE_TITLE, e) && b < e;
    TitleTagsDisjoint(s, b, e);
    var c := b + |OPEN_TITLE|;
    assert GetTitle(s).value == s[c..e];
    AroundTags(s, b, c, e);
    assert Lacks(s[..b], OPEN_TITLE) by {
      LacksBefore(s, OPEN_TITLE, 0, b, b);
    }
    assert Lacks(s[..b], CLOSE_TITLE) by {
      LacksBefore(s, CLOSE_TITLE, 0, b, e);
    }
    assert Lacks(s[c..e], CLOSE_TITLE) by {
      LacksBefore(s, CLOSE_TITLE, c, e, e);
    }
  }

  /** A text cut at both tags is the pieces in order. */
  lemma AroundTags(s: Str, b: nat, c: nat, e: nat)
    requires OccursAt(s, OPEN_TITLE, b) && c == b + |OPEN_TITLE| && c <= e && OccursAt(s, CLOSE_TITLE, e)
    ensures s == s[..b] + OPEN_TITLE + s[c..e] + CLOSE_TITLE + s[e + |CLOSE_TITLE|..]
  {
    assert s == s[..b] + s[b..c] + s[c..e] + s[e..e + |CLOSE_TITLE|] + s[e + |CLOSE_TITLE|..];
  }

  /** A slice ending before the first occurrence of `pat` lacks `pat`. */
  lemma LacksBefore(s: Str, pat: Str, off: nat, end: nat, first: nat)
    requires pat != [] && off <= end <= first && end <= |s|
    requires forall k :: 0 <= k < first ==> !OccursAt(s, pat, k)
    ensures Lacks(s[off..end], pat)
  {
    forall j | 0 <= j <= end - off ensures !OccursAt(s[off..end], pat, j) {
      if OccursAt(s[off..end], pat, j) {
        OccursWithin(s, off, end - off, pat, j);
      }
    }
  }

  /** An occurrence inside a slice of `s` is an occurrence in `s`, shifted by the slice's start. */
  lemma OccursWithin(s: Str, off: nat, len: nat, pat: Str, j: nat)
    requires off + len <= |s| && OccursAt(s[off..off + len], pat, j)
    ensures OccursAt(s, pat, off + j)
  {
    var x := s[off..off + len];
    forall i | 0 <= i < |pat| ensures s[off + j + i] == pat[i] {
      assert s[off + j + i] == x[j + i] == x[j..j + |pat|][i];
    }
    assert s[off + j..off + j + |pat|] == pat;
  }

  /** An occurrence of `pat` that lies wholly inside a copy of `x` is an occurrence in `x`. */
  lemma OccursInside(s: Str, x: Str, off: nat, pat: Str, k: nat)
    requires off + |x| <= |s| && s[off..off + |x|] == x
    requires off <= k && k + |pat| <= off + |x| && OccursAt(s, pat, k)
    ensures OccursAt(x, pat, k - off)
  {
    forall i | 0 <= i < |pat| ensures x[k - off + i] == pat[i] {
      assert x[k - off + i] == s[off..off + |x|][k - off + i] == s[k + i];
      assert s[k + i] == s[k..k + |pat|][i];
    }
    assert x[k - off..k - off + |pat|] == pat;
  }

  /** An occurrence of a tag cannot run over a later `<`, since no tag has `<` after its first byte. */
  lemma Straddle(s: Str, pat: Str, k: nat, j: nat)
    requires pat == OPEN_TITLE || pat == CLOSE_TITLE
    requires k < j < k + |pat| && j < |s| && s[j] == '<'
    ensures !OccursAt(s, pat, k)
  {
    assert pat[j - k] != '<';
    Mismatch(s, pat, k, j - k);
  }

  lemma OpenTagFirst(pre: Str, t: Str, post: Str)
    requires Lacks(pre, OPEN_TITLE)
    ensures Find(pre + OPEN_TITLE + t + CLOSE_TITLE + post, OPEN_TITLE) == Some(|pre|)
  {
    var s := pre + OPEN_TITLE + t + CLOSE_TITLE + post;
    var b := |pre|;
    assert s[b..b + |OPEN_TITLE|] == OPEN_TITLE;
    assert s[..b] == pre;
    forall k | 0 <= k < b ensures !OccursAt(s, OPEN_TITLE, k) {
      if k + |OPEN_TITLE| <= b {
        if OccursAt(s, OPEN_TITLE, k) {
          OccursInside(s, pre, 0, OPEN_TITLE, k);
        }
      } else {
        Straddle(s, OPEN_TITLE, k, b);
      }
    }
    FindFirst(s, OPEN_TITLE, b);
  }

  lemma CloseTagFirst(pre: Str, t: Str, post: Str)
    requires Lacks(pre, CLOSE_TITLE) && Lacks(t, CLOSE_TITLE)
    ensures Find(pre + OPEN_TITLE + t + CLOSE_TITLE + post, CLOSE_TITLE) == Some(|pre| + |OPEN_TITLE| + |t|)
  {
    var s := pre + OPEN_TITLE + t + CLOSE_TITLE + post;
    var e := |pre| + |OPEN_TITLE| + |t|;
    assert s[e..e + |CLOSE_TITLE|] == CLOSE_TITLE;
    forall k | 0 <= k < e ensures !OccursAt(s, CLOSE_TITLE, k) {
      NoCloseBefore(pre, t, post, k);
    }
    FindFirst(s, CLOSE_TITLE, e);
  }

  /** No `</title>` starts before the one that follows the title text. */
  lemma NoCloseBefore(pre: Str, t: Str, post: Str, k: nat)
    requires Lacks(pre, CLOSE_TITLE) && Lacks(t, CLOSE_TITLE)
    requires k < |pre| + |OPEN_TITLE| + |t|
    ensures !OccursAt(pre + OPEN_TITLE + t + CLOSE_TITLE + post, CLOSE_TITLE, k)
  {
    var s := pre + OPEN_TITLE + t + CLOSE_TITLE + post;
    var b := |pre|;
    var c := b + |OPEN_TITLE|;
    var e := c + |t|;
    if k < b {
      if k + |CLOSE_TITLE| <= b {
        if OccursAt(s, CLOSE_TITLE, k) {
          assert s[..b] == pre;
          OccursInside(s, pre, 0, CLOSE_TITLE, k);
        }
      } else {
        Straddle(s, CLOSE_TITLE, k, b);
      }
    } else if k == b {
      assert s[k + 1] == OPEN_TITLE[1];
      Mismatch(s, CLOSE_TITLE, k, 1);
    } else if k < c {
      assert s[k] == OPEN_TITLE[k - b];
      Mismatch(s, CLOSE_TITLE, k, 0);
    } else if k + |CLOSE_TITLE| <= e {
      if OccursAt(s, CLOSE_TITLE, k) {
        assert s[c..e] == t;
        OccursInside(s, t, c, CLOSE_TITLE, k);
      }
    } else {
      assert s[e] == CLOSE_TITLE[0];
      Straddle(s, CLOSE_TITLE, k, e);
    }
  }

  // ---------------------------------------------------------------------
  // get_content: a two-state tag-stripping machine
  // ---------------------------------------------------------------------

  datatype State = Label | Body

  function Step(st: State, c: Byte): State
  {
    match st
    case Label => if c == '>' then Body else Label
    case Body => if c == '<' then Label else Body
  }

  /** A newline becomes a space; every other byte stays as it is. */
  function Visible(c: Byte): Byte
  {
    if c == '\n' then ' ' else c
  }

  /** What one byte contributes to the content in state `st`. */
  function Emit(st: State, c: Byte): Str
  {
    if st == Body && c != '<' then [Visible(c)] else []
  }

  function StateAfter(st: State, s: Str): State
  {
    if s == [] then st else Step(StateAfter(st, s[..|s| - 1]), s[|s| - 1])
  }

  /** The content the machine emits on `s` when it starts in `st`. */
  function StripTags(st: State, s: Str): Str
  {
    if s == [] then []
    else
      var init := s[..|s| - 1];
      StripTags(st, init) + Emit(StateAfter(st, init), s[|s| - 1])
  }

  /**
   * The loop of get_content over the characters of the file; the result is
   * false only for an empty text, which leaves the content empty.
   */
  method GetContent(fileAll: Str) returns (ok: bool, content: Str)
    ensures ok == (fileAll != [])
    ensures content == StripTags(Label, fileAll)
  {
    content := [];
    if fileAll == [] {
      return false, content;
    }
    var state := Label;
    for i := 0 to |fileAll|
      invariant state == StateAfter(Label, fileAll[..i])
      invariant content == StripTags(Label, fileAll[..i])
    {
      var c := fileAll[i];
      assert fileAll[..i + 1][..i] == fileAll[..i];
      if state == Label {
        if c == '>' {
          state := Body;
        }
      } else if state == Body {
        if c == '<' {
          state := Label;
        } else {
          if c == '\n' {
            c := ' ';
          }
          content := content + [c];
        }
      }
    }
    assert fileAll[..|fileAll|] == fileAll;
    ok := true;
  }

  /** The content holds no `<` and no newline and is never longer than the text. */
  lemma {:induction false} StripTagsClean(st: State, s: Str)
    ensures '<' !in StripTags(st, s) && '\n' !in StripTags(st, s)
    ensures |StripTags(st, s)| <= |s|
  {
    if s != [] {
      StripTagsClean(st, s[..|s| - 1]);
    }
  }

  /** `out` is an order-preserving selection of the visible bytes of `s`. */
  ghost predicate Selects(out: Str, s: Str)
    decreases |s|
  {
    if s == [] then out == []
    else
      Selects(out, s[..|s| - 1])
      || (out != [] && out[|out| - 1] == Visible(s[|s| - 1]) && Selects(out[..|out| - 1], s[..|s| - 1]))
  }

  /** Every emitted byte is an input byte (newline shown as space), in input order. */
  lemma {:induction false} StripTagsSelects(st: State, s: Str)
    ensures Selects(StripTags(st, s), s)
  {
    if s != [] {
      var init := s[..|s| - 1];
      StripTagsSelects(st, init);
      var out := StripTags(st, s);
      if Emit(StateAfter(st, init), s[|s| - 1]) != [] {
        assert out[..|out| - 1] == StripTags(st, init);
      } else {
        assert out == StripTags(st, init);
      }
    }
  }

  /** Running the machine over `p + s` is running it over `p`, then over `s`. */
  lemma {:induction false} StateAfterAppend(st: State, p: Str, s: Str)
    ensures StateAfter(st, p + s) == StateAfter(StateAfter(st, p), s)
    decreases |s|
  {
    if s == [] {
      assert p + s == p;
    } else {
      var s' := s[..|s| - 1];
      assert (p + s)[..|p + s| - 1] == p + s' && (p + s)[|p + s| - 1] == s[|s| - 1];
      StateAfterAppend(st, p, s');
    }
  }

  /** The content emitted on `p + s` is that of `p`, then that of `s` from the state `p` ends in. */
  lemma {:induction false} StripTagsAppend(st: State, p: Str, s: Str)
    ensures StripTags(st, p + s) == StripTags(st, p) + StripTags(StateAfter(st, p), s)
    decreases |s|, 1
  {
    if s == [] {
      assert p + s == p;
    } else {
      assert s == s[..|s| - 1] + [s[|s| - 1]];
      StripTagsAppendStep(st, p, s[..|s| - 1], s[|s| - 1]);
    }
  }

  lemma {:induction false} StripTagsAppendStep(st: State, p: Str, s: Str, c: Byte)
    ensures StripTags(st, p + (s + [c])) == StripTags(st, p) + StripTags(StateAfter(st, p), s + [c])
    decreases |s| + 1, 0
  {
    var q := StateAfter(st, p);
    var e := Emit(StateAfter(q, s), c);
    StripTagsSnocAfter(st, p, s, c);
    StripTagsSnoc(q, s, c);
    StripTagsAppend(st, p, s);
    Associate(StripTags(st, p), StripTags(q, s), e);
  }

  /** One byte after `p + s` emits what it emits after `s` from the state after `p`. */
  lemma StripTagsSnocAfter(st: State, p: Str, s: Str, c: Byte)
    ensures StripTags(st, p + (s + [c])) == StripTags(st, p + s) + Emit(StateAfter(StateAfter(st, p), s), c)
  {
    assert p + (s + [c]) == (p + s) + [c];
    StripTagsSnoc(st, p + s, c);
    StateAfterAppend(st, p, s);
  }

  /** Concatenation is associative; stated apart to keep StripTagsAppendStep cheap for the solver. */
  lemma Associate(a: Str, b: Str, c: Str)
    ensures (a + b) + c == a + (b + c)
  {
  }

  /** One more byte: the machine steps once and emits that byte's contribution. */
  lemma StripTagsSnoc(st: State, x: Str, c: Byte)
    ensures StateAfter(st, x + [c]) == Step(StateAfter(st, x), c)
    ensures StripTags(st, x + [c]) == StripTags(st, x) + Emit(StateAfter(st, x), c)
  {
    assert (x + [c])[..|x|] == x;
  }

  /** Without `>` the machine never leaves LABEL and emits nothing. */
  lemma {:induction false} NoTagEndStaysInLabel(p: Str)
    requires '>' !in p
    ensures StateAfter(Label, p) == Label && StripTags(Label, p) == []
  {
    if p != [] {
      NoTagEndStaysInLabel(p[..|p| - 1]);
    }
  }

  /** Everything before the first `>` is dropped. */
  lemma DropsTextBeforeFirstTagEnd(p: Str, s: Str)
    requires '>' !in p
    ensures StripTags(Label, p + s) == StripTags(Label, s)
  {
    StateAfterAppend(Label, p, s);
    StripTagsAppend(Label, p, s);
    NoTagEndStaysInLabel(p);
  }

  /** The machine in BODY copies every byte up to the next `<`, newlines as spaces. */
  lemma {:induction false} BodyTextKept(text: Str)
    requires '<' !in text
    ensures StateAfter(Body, text) == Body
    ensures |StripTags(Body, text)| == |text|
    ensures forall k :: 0 <= k < |text| ==> StripTags(Body, text)[k] == Visible(text[k])
  {
    if text != [] {
      BodyTextKept(text[..|text| - 1]);
    }
  }

  /** The text after a tag `tag >` is kept whole when it holds no `<`. */
  lemma TextAfterTagKept(tag: Str, text: Str)
    requires '>' !in tag && '<' !in text
    ensures |StripTags(Label, tag + ['>'] + text)| == |text|
    ensures forall k :: 0 <= k < |text| ==> StripTags(Label, tag + ['>'] + text)[k] == Visible(text[k])
  {
    var head := tag + ['>'];
    assert StateAfter(Label, head) == Body && StripTags(Label, head) == [] by {
      NoTagEndStaysInLabel(tag);
      StateAfterAppend(Label, tag, ['>']);
      StripTagsAppend(Label, tag, ['>']);
      assert ['>'][..0] == [];
    }
    assert StripTags(Label, head + text) == StripTags(Body, text) by {
      StateAfterAppend(Label, head, text);
      StripTagsAppend(Label, head, text);
    }
    BodyTextKept(text);
  }

  // ---------------------------------------------------------------------
  // get_url
  // ---------------------------------------------------------------------

  /**
   * The URL of a file: the site prefix followed by the path with its first
   * ten bytes (`data/input`) removed.  A shorter path makes `substr` throw
   * std::out_of_range, modelled as None.
   */
  function GetUrl(filePath: Str): Option<Str>
  {
    if |filePath| < |SRC_PATH| then None
    else Some(URL_HEAD + filePath[|SRC_PATH|..])
  }

  /** A path under the input directory maps to the site prefix plus its relative part. */
  lemma UrlOfInputPath(rest: Str)
    ensures GetUrl(SRC_PATH + rest) == Some(URL_HEAD + rest)
    ensures GetUrl(SRC_PATH + rest).value[..|URL_HEAD|] == URL_HEAD
  {
    assert (SRC_PATH + rest)[|SRC_PATH|..] == rest;
  }

  /** A path too short to hold the input directory has no URL. */
  lemma UrlOfShortPath(filePath: Str)
    requires |filePath| < 10
    ensures GetUrl(filePath) == None
  {
  }

  // ---------------------------------------------------------------------
  // parse_html
  // ---------------------------------------------------------------------

  /** The record parse_html assembles for one file; a failed extraction leaves its field empty. */
  function FileRecord(f: HtmlFile): FileContent
    requires |f.path| >= |SRC_PATH|
  {
    var title := match GetTitle(f.text) case Some(t) => t case None => [];
    FileContent(title, StripTags(Label, f.text), GetUrl(f.path).value)
  }

  predicate PathsLongEnough(htmls: seq<HtmlFile>)
  {
    forall i :: 0 <= i < |htmls| ==> |htmls[i].path| >= |SRC_PATH|
  }

  /** One record per file, in order. */
  function Records(htmls: seq<HtmlFile>): (r: seq<FileContent>)
    requires PathsLongEnough(htmls)
    ensures |r| == |htmls|
  {
    if htmls == [] then []
    else
      var init := htmls[..|htmls| - 1];
      assert forall i :: 0 <= i < |init| ==> init[i] == htmls[i];
      Records(init) + [FileRecord(htmls[|htmls| - 1])]
  }

  /** Record i is file i's record. */
  lemma {:induction false} RecordsAt(htmls: seq<HtmlFile>, i: nat)
    requires PathsLongEnough(htmls) && i < |htmls|
    ensures Records(htmls)[i] == FileRecord(htmls[i])
  {
    var init := htmls[..|htmls| - 1];
    assert Records(htmls) == Records(init) + [FileRecord(htmls[|htmls| - 1])];
    if i < |init| {
      assert init[i] == htmls[i];
      RecordsAt(init, i);
    }
  }

  /** The index of the first path too short for get_url, if any. */
  function FirstShortPath(htmls: seq<HtmlFile>): (r: Option<nat>)
    ensures r.None? <==> PathsLongEnough(htmls)
    ensures r.Some? ==> r.value < |htmls| && |htmls[r.value].path| < |SRC_PATH|
    ensures r.Some? ==> PathsLongEnough(htmls[..r.value])
  {
    if htmls == [] then None
    else if |htmls[0].path| < |SRC_PATH| then Some(0)
    else
      match FirstShortPath(htmls[1..])
      case None => None
      case Some(k) =>
        assert htmls[..k + 1] == [htmls[0]] + htmls[1..][..k];
        Some(k + 1)
  }

  lemma FirstShortPathAt(htmls: seq<HtmlFile>, i: nat)
    requires i < |htmls| && PathsLongEnough(htmls[..i]) && |htmls[i].path| < |SRC_PATH|
    ensures FirstShortPath(htmls) == Some(i)
  {
    var r := FirstShortPath(htmls);
    assert r.Some?;
  }

  lemma RecordOfParts(f: HtmlFile, title: Option<Str>, content: Str, url: Option<Str>)
    requires title == GetTitle(f.text) && content == StripTags(Label, f.text)
    requires url == GetUrl(f.path) && url.Some?
    ensures |f.path| >= |SRC_PATH|
    ensures FileContent(if title.Some? then title.value else [], content, url.value) == FileRecord(f)
  {
  }

  lemma RecordsSnoc(htmls: seq<HtmlFile>, i: nat)
    requires i < |htmls| && PathsLongEnough(htmls[..i]) && |htmls[i].path| >= |SRC_PATH|
    ensures PathsLongEnough(htmls[..i + 1])
    ensures Records(htmls[..i + 1]) == Records(htmls[..i]) + [FileRecord(htmls[i])]
  {
    assert htmls[..i + 1][..i] == htmls[..i];
  }

  /** How parse_html ends: true, false for an empty file list, or the exception get_url throws. */
  datatype ParseOutcome = Parsed | NoHtmls | UrlOutOfRange(at: nat)

  /**
   * Builds one record per file and appends it to `fileContents`.  Records
   * are produced even when a title or the content cannot be extracted.
   */
  method ParseHtml(htmls: seq<HtmlFile>, fileContents: seq<FileContent>)
    returns (outcome: ParseOutcome, out: seq<FileContent>)
    ensures htmls == [] ==> outcome == NoHtmls && out == fileContents
    ensures htmls != [] && FirstShortPath(htmls).None? ==>
              outcome == Parsed && out == fileContents + Records(htmls)
    ensures htmls != [] && FirstShortPath(htmls).Some? ==>
              outcome == UrlOutOfRange(FirstShortPath(htmls).value)
              && out == fileContents + Records(htmls[..FirstShortPath(htmls).value])
  {
    out := fileContents;
    if htmls == [] {
      return NoHtmls, out;
    }
    for i := 0 to |htmls|
      invariant PathsLongEnough(htmls[..i])
      invariant out == fileContents + Records(htmls[..i])
    {
      var f := htmls[i];
      var title := GetTitle(f.text);
      var _, content := GetContent(f.text);
      var url := GetUrl(f.path);
      if url.None? {
        FirstShortPathAt(htmls, i);
        return UrlOutOfRange(i), out;
      }
      var item := FileContent(if title.Some? then title.value else [], content, url.value);
      RecordOfParts(f, title, content, url);
      RecordsSnoc(htmls, i);
      out := out + [item];
    }
    assert htmls[..|htmls|] == htmls;
    assert FirstShortPath(htmls).None?;
    outcome := Parsed;
  }

  // ---------------------------------------------------------------------
  // save_file
  // ---------------------------------------------------------------------

  /** One corpus line: `title \3 content \3 url \n`. */
  function RecordLine(r: FileContent): Str
  {
    r.title + [SEP] + r.content + [SEP] + r.url + [NL]
  }

  /** The corpus text: the records' lines, in order. */
  function Corpus(rs: seq<FileContent>): Str
  {
    if rs == [] then [] else RecordLine(rs[0]) + Corpus(rs[1..])
  }

  lemma {:induction false} CorpusSnoc(rs: seq<FileContent>, r: FileContent)
    ensures Corpus(rs + [r]) == Corpus(rs) + RecordLine(r)
  {
    if rs == [] {
      assert [r][1..] == [];
    } else {
      var t := rs[1..];
      var h := RecordLine(rs[0]);
      assert Corpus(rs + [r]) == h + Corpus(t + [r]) by {
        assert (rs + [r])[1..] == t + [r];
      }
      assert Corpus(t + [r]) == Corpus(t) + RecordLine(r) by {
        CorpusSnoc(t, r);
      }
      assert h + (Corpus(t) + RecordLine(r)) == (h + Corpus(t)) + RecordLine(r);
    }
  }

  /** The record line is the three fields joined by the separator, then a newline. */
  lemma RecordLineIsJoin(r: FileContent)
    ensures RecordLine(r) == Join([r.title, r.content, r.url], SEP) + [NL]
  {
    assert Join([r.content, r.url], SEP) == r.content + [SEP] + r.url;
  }

  /** What save_file appends to the corpus file. */
  method SaveFile(fileContents: seq<FileContent>) returns (written: Str)
    ensures written == Corpus(fileContents)
  {
    written := [];
    for i := 0 to |fileContents|
      invariant written == Corpus(fileContents[..i])
    {
      var item := fileContents[i];
      var tmp := item.title + [SEP] + item.content + [SEP] + item.url + [NL];
      CorpusSnoc(fileContents[..i], item);
      assert fileContents[..i + 1] == fileContents[..i] + [item];
      written := written + tmp;
    }
    assert fileContents[..|fileContents|] == fileContents;
  }
}

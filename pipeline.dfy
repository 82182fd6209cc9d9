/**
 * The corpus file between the parser and the index: save_file writes one
 * line per record (parser.cc), create_index reads it back with getline and
 * splits each line on byte 3 (index.hpp).  This module states when the
 * round trip returns the parsed records as documents.
 */
module Pipeline {
  import opened Tools
  import opened Parser
  import opened Indexing

  /**
   * The lines `std::getline` yields from a text: the pieces between
   * newlines, without them; the empty text has no line, and a final newline
   * does not start an empty last line.
   */
  function GetLines(s: Str): seq<Str>
    decreases |s|
  {
    if NL !in s then (if s == [] then [] else [s])
    else
      var i := IndexOf(s, NL);
      [s[..i]] + GetLines(s[i + 1..])
  }

  /** A text made of whole lines: empty, or ending in a newline. */
  predicate WholeLines(s: Str)
  {
    s == [] || s[|s| - 1] == NL
  }

  lemma IndexOfFirst(s: Str, x: Byte, i: nat)
    requires i < |s| && s[i] == x && x !in s[..i]
    ensures IndexOf(s, x) == i
  {
    var j := IndexOf(s, x);
    assert forall k :: 0 <= k < i ==> s[..i][k] == s[k];
    assert forall k :: 0 <= k < j ==> s[..j][k] == s[k];
  }

  /** A line ended by a newline is read as that line, followed by the lines of the rest. */
  lemma GetLinesCons(line: Str, rest: Str)
    requires NL !in line
    ensures GetLines(line + [NL] + rest) == [line] + GetLines(rest)
  {
    var s := line + [NL] + rest;
    assert s[..|line|] == line;
    IndexOfFirst(s, NL, |line|);
    assert s[|line| + 1..] == rest;
  }

  /** Appending one more newline-terminated line appends one more line read. */
  lemma {:induction false} GetLinesSnoc(a: Str, line: Str)
    requires WholeLines(a) && NL !in line
    ensures GetLines(a + line + [NL]) == GetLines(a) + [line]
    decreases |a|
  {
    if a == [] {
      GetLinesCons(line, []);
      assert a + line + [NL] == line + [NL] + [];
    } else {
      var i := IndexOf(a, NL);
      var rest := a[i + 1..];
      assert WholeLines(rest) by {
        if rest != [] {
          assert rest[|rest| - 1] == a[|a| - 1];
        }
      }
      GetLinesSnoc(rest, line);
      GetLinesSplitFirst(a, line, i);
    }
  }

  /** The first line of `a` is also the first line of `a + line + [NL]`. */
  lemma GetLinesSplitFirst(a: Str, line: Str, i: nat)
    requires i < |a| && a[i] == NL && NL !in a[..i]
    requires GetLines(a[i + 1..] + line + [NL]) == GetLines(a[i + 1..]) + [line]
    ensures GetLines(a + line + [NL]) == GetLines(a) + [line]
  {
    var b := a + line + [NL];
    assert b[..i] == a[..i] && b[i] == NL;
    assert b[i + 1..] == a[i + 1..] + line + [NL];
    GetLinesAt(a, i);
    GetLinesAt(b, i);
    assert [a[..i]] + (GetLines(a[i + 1..]) + [line]) == ([a[..i]] + GetLines(a[i + 1..])) + [line];
  }

  /** `getline` at the first newline: the text before it, then the lines after it. */
  lemma GetLinesAt(s: Str, i: nat)
    requires i < |s| && s[i] == NL && NL !in s[..i]
    ensures GetLines(s) == [s[..i]] + GetLines(s[i + 1..])
  {
    IndexOfFirst(s, NL, i);
  }

  function Fields(r: FileContent): Str
  {
    Join([r.title, r.content, r.url], SEP)
  }

  /** The fields lines of the records, in order. */
  function FieldLines(rs: seq<FileContent>): seq<Str>
  {
    if rs == [] then [] else FieldLines(rs[..|rs| - 1]) + [Fields(rs[|rs| - 1])]
  }

  /** A record survives the file: no separator or newline in a field, and a non-empty content. */
  predicate Storable(r: FileContent)
  {
    && SEP !in r.title && SEP !in r.content && SEP !in r.url
    && OneLine(r)
    && r.content != []
  }

  /** No field holds a newline. */
  predicate OneLine(r: FileContent)
  {
    NL !in r.title && NL !in r.content && NL !in r.url
  }

  lemma FieldsNoNewline(r: FileContent)
    requires OneLine(r)
    ensures NL !in Fields(r)
  {
    assert Join([r.content, r.url], SEP) == r.content + [SEP] + r.url;
    assert Fields(r) == r.title + [SEP] + (r.content + [SEP] + r.url);
  }

  lemma {:induction false} CorpusWholeLines(rs: seq<FileContent>)
    ensures WholeLines(Corpus(rs))
  {
    if rs != [] {
      CorpusWholeLines(rs[1..]);
      var line := RecordLine(rs[0]);
      var rest := Corpus(rs[1..]);
      var c := Corpus(rs);
      assert c == line + rest;
      if rest == [] {
        assert c[|c| - 1] == line[|line| - 1];
      } else {
        assert c[|c| - 1] == rest[|rest| - 1];
      }
    }
  }

  /** Reading the corpus text back yields one line per record: its fields joined by byte 3. */
  lemma {:induction false} LinesOfCorpus(rs: seq<FileContent>)
    requires forall k :: 0 <= k < |rs| ==> OneLine(rs[k])
    ensures GetLines(Corpus(rs)) == FieldLines(rs)
  {
    if rs != [] {
      var init := rs[..|rs| - 1];
      var r := rs[|rs| - 1];
      assert forall k :: 0 <= k < |init| ==> OneLine(init[k]) by {
        forall k | 0 <= k < |init| ensures OneLine(init[k]) {
          assert init[k] == rs[k];
        }
      }
      LinesOfCorpus(init);
      assert init + [r] == rs;
      LinesStep(init, r);
    }
  }

  lemma LinesStep(init: seq<FileContent>, r: FileContent)
    requires GetLines(Corpus(init)) == FieldLines(init) && OneLine(r)
    ensures GetLines(Corpus(init + [r])) == FieldLines(init + [r])
  {
    var c := Corpus(init);
    var f := Fields(r);
    assert Corpus(init + [r]) == c + f + [NL] by {
      CorpusSnoc(init, r);
      RecordLineIsJoin(r);
    }
    assert GetLines(c + f + [NL]) == GetLines(c) + [f] by {
      FieldsNoNewline(r);
      CorpusWholeLines(init);
      GetLinesSnoc(c, f);
    }
    assert FieldLines(init + [r]) == FieldLines(init) + [f] by {
      assert (init + [r])[..|init|] == init;
    }
  }

  /** The documents loading `rs` appends after `base` existing documents. */
  function DocsOf(rs: seq<FileContent>, base: nat): (r: seq<Doc>)
    ensures |r| == |rs|
  {
    if rs == [] then []
    else
      var last := rs[|rs| - 1];
      DocsOf(rs[..|rs| - 1], base) + [Doc(last.title, last.content, last.url, base + |rs| - 1)]
  }

  /** Document k carries record k's fields and id base + k. */
  lemma {:induction false} DocsOfAt(rs: seq<FileContent>, base: nat, k: nat)
    requires k < |rs|
    ensures DocsOf(rs, base)[k] == Doc(rs[k].title, rs[k].content, rs[k].url, base + k)
  {
    var init := rs[..|rs| - 1];
    if k < |init| {
      DocsOfAt(init, base, k);
      assert rs[k] == init[k];
    }
  }

  /** Line k splits into exactly record k's three fields. */
  predicate SplitsInto(lines: seq<Str>, rs: seq<FileContent>)
  {
    |lines| == |rs|
    && forall k :: 0 <= k < |lines| ==> Split(lines[k], SEP) == [rs[k].title, rs[k].content, rs[k].url]
  }

  /** Lines that split into the records' fields load the records as the next documents. */
  lemma {:induction false} ForwardOfSplits(fwd: seq<Doc>, lines: seq<Str>, rs: seq<FileContent>)
    requires SplitsInto(lines, rs)
    ensures ForwardOf(fwd, lines) == fwd + DocsOf(rs, |fwd|)
  {
    if rs != [] {
      var init := rs[..|rs| - 1];
      var r := rs[|rs| - 1];
      var pre := lines[..|lines| - 1];
      assert SplitsInto(pre, init) by {
        forall k | 0 <= k < |pre| ensures Split(pre[k], SEP) == [init[k].title, init[k].content, init[k].url] {
          assert pre[k] == lines[k] && init[k] == rs[k];
        }
      }
      var x := lines[|lines| - 1];
      assert ForwardOf(fwd, pre + [x]) == fwd + DocsOf(init + [r], |fwd|) by {
        ForwardOfSplits(fwd, pre, init);
        ForwardSplitStep(fwd, pre, x, init, r);
      }
      assert lines == pre + [x] && rs == init + [r];
    }
  }

  lemma ForwardSplitStep(fwd: seq<Doc>, pre: seq<Str>, x: Str, init: seq<FileContent>, r: FileContent)
    requires ForwardOf(fwd, pre) == fwd + DocsOf(init, |fwd|)
    requires Split(x, SEP) == [r.title, r.content, r.url]
    ensures ForwardOf(fwd, pre + [x]) == fwd + DocsOf(init + [r], |fwd|)
  {
    AcceptSplit(ForwardOf(fwd, pre), x, r.title, r.content, r.url);
    AcceptedStep(fwd, pre, x, init, r);
  }

  lemma AcceptedStep(fwd: seq<Doc>, pre: seq<Str>, x: Str, init: seq<FileContent>, r: FileContent)
    requires ForwardOf(fwd, pre) == fwd + DocsOf(init, |fwd|)
    requires AcceptLine(ForwardOf(fwd, pre), x) == ForwardOf(fwd, pre) + [Doc(r.title, r.content, r.url, |ForwardOf(fwd, pre)|)]
    ensures ForwardOf(fwd, pre + [x]) == fwd + DocsOf(init + [r], |fwd|)
  {
    ForwardOfSnoc(fwd, pre, x);
    DocsOfSnoc(init, r, |fwd|);
  }

  lemma ForwardOfSnoc(fwd: seq<Doc>, lines: seq<Str>, line: Str)
    ensures ForwardOf(fwd, lines + [line]) == AcceptLine(ForwardOf(fwd, lines), line)
  {
    assert (lines + [line])[..|lines|] == lines;
  }

  /** A line that splits into three fields is accepted as one more document with the next id. */
  lemma AcceptSplit(prev: seq<Doc>, line: Str, t: Str, c: Str, u: Str)
    requires Split(line, SEP) == [t, c, u]
    ensures AcceptLine(prev, line) == prev + [Doc(t, c, u, |prev|)]
  {
  }

  /** Line k of the fields lines is record k's fields. */
  lemma {:induction false} FieldLinesAt(rs: seq<FileContent>, k: nat)
    requires k < |rs|
    ensures |FieldLines(rs)| == |rs| && FieldLines(rs)[k] == Fields(rs[k])
  {
    var init := rs[..|rs| - 1];
    if k < |init| {
      FieldLinesAt(init, k);
      assert rs[k] == init[k];
    } else if init != [] {
      FieldLinesAt(init, 0);
    }
  }

  lemma ForwardOfFields(fwd: seq<Doc>, rs: seq<FileContent>)
    requires forall k :: 0 <= k < |rs| ==> Storable(rs[k])
    ensures ForwardOf(fwd, FieldLines(rs)) == fwd + DocsOf(rs, |fwd|)
  {
    var lines := FieldLines(rs);
    forall k | 0 <= k < |rs| ensures |lines| == |rs| && Split(lines[k], SEP) == [rs[k].title, rs[k].content, rs[k].url] {
      FieldLinesAt(rs, k);
      RecordSplit(rs[k].title, rs[k].content, rs[k].url, SEP);
    }
    if rs == [] {
      assert lines == [];
    }
    ForwardOfSplits(fwd, lines, rs);
  }

  lemma DocsOfSnoc(init: seq<FileContent>, r: FileContent, base: nat)
    ensures DocsOf(init + [r], base) == DocsOf(init, base) + [Doc(r.title, r.content, r.url, base + |init|)]
  {
    var rs := init + [r];
    assert rs[..|rs| - 1] == init;
    assert rs[|rs| - 1] == r;
  }

  /** No line that getline yields holds a newline. */
  lemma {:induction false} GetLinesNewlineFree(s: Str)
    ensures forall i :: 0 <= i < |GetLines(s)| ==> NL !in GetLines(s)[i]
    decreases |s|
  {
    if NL in s {
      var i := IndexOf(s, NL);
      GetLinesNewlineFree(s[i + 1..]);
    }
  }

  /** The text get_file_all returns for any file holds no newline. */
  lemma ReadFileNewlineFree(file: Option<Str>)
    ensures NL !in FileAll(if file.Some? then Some(GetLines(file.value)) else None)
  {
    if file.Some? {
      GetLinesNewlineFree(file.value);
    }
  }

  /** A file with a newline-free text and path yields a one-line record. */
  lemma RecordOneLine(f: HtmlFile)
    requires |f.path| >= |SRC_PATH| && NL !in f.text && NL !in f.path
    ensures OneLine(FileRecord(f))
  {
    assert NL !in URL_HEAD;
    assert NL !in f.path[|SRC_PATH|..] by {
      forall k | 0 <= k < |f.path| - |SRC_PATH| ensures f.path[|SRC_PATH|..][k] != NL {
        assert f.path[|SRC_PATH|..][k] == f.path[|SRC_PATH| + k];
      }
    }
    StripTagsClean(Label, f.text);
    if GetTitle(f.text).Some? {
      TitleBetweenTags(f.text);
    }
  }

  /**
   * parse_html over files read by get_file_all, with newline-free paths,
   * yields records the corpus stores one per line.
   */
  lemma {:induction false} ParsedRecordsOneLine(htmls: seq<HtmlFile>)
    requires PathsLongEnough(htmls)
    requires forall i :: 0 <= i < |htmls| ==> NL !in htmls[i].text && NL !in htmls[i].path
    ensures forall k :: 0 <= k < |Records(htmls)| ==> OneLine(Records(htmls)[k])
  {
    forall k | 0 <= k < |Records(htmls)| ensures OneLine(Records(htmls)[k]) {
      RecordsAt(htmls, k);
      RecordOneLine(htmls[k]);
    }
  }

  /** Reading back the corpus of parsed files yields one fields line per file, in order. */
  lemma ParsedCorpusLines(htmls: seq<HtmlFile>)
    requires PathsLongEnough(htmls)
    requires forall i :: 0 <= i < |htmls| ==> NL !in htmls[i].text && NL !in htmls[i].path
    ensures GetLines(Corpus(Records(htmls))) == FieldLines(Records(htmls))
  {
    ParsedRecordsOneLine(htmls);
    LinesOfCorpus(Records(htmls));
  }

  /**
   * The serialise, read back, split round trip: loading the corpus of
   * storable records appends exactly those records, in order, with the
   * next ids.
   */
  lemma CorpusRoundTrip(fwd: seq<Doc>, rs: seq<FileContent>)
    requires forall k :: 0 <= k < |rs| ==> Storable(rs[k])
    ensures ForwardOf(fwd, GetLines(Corpus(rs))) == fwd + DocsOf(rs, |fwd|)
  {
    LinesOfCorpus(rs);
    ForwardOfFields(fwd, rs);
  }

  /** A record whose content is empty loses its middle field and is not loaded. */
  lemma EmptyContentDropped(fwd: seq<Doc>, r: FileContent)
    requires SEP !in r.title && SEP !in r.url && r.content == []
    ensures ForwardOf(fwd, [Fields(r)]) == fwd
  {
    RecordSplit(r.title, r.content, r.url, SEP);
    assert [Fields(r)][..0] == [];
  }
}

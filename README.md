# A verified model of a small document search engine

The system indexes a set of HTML pages and answers keyword queries over them. It works in three stages:

- **Parser.** The parser (`parser.cc`) reads each page. It extracts the text between the first `<title>` and the first `</title>` as the title. It reads each file with `getline` and glues the lines together with nothing between them, so text on adjacent lines is joined without a space. It gets the visible text from a two-state tag-stripping machine; the machine's rule that shows a newline as a space never applies, because no newline survives the reading. It builds the page's URL by replacing the `data/input` prefix of its path with the site prefix `https://www.boost.org/doc/libs/1_78_0/doc/html`. It then writes one line per page, `title \3 content \3 url \n`, to a corpus file.
- **Index.** The index (`index.hpp`) reads the corpus back line by line. It splits each line on byte 3, with runs of separators merged. A line with exactly three fields becomes a document whose id is its position in the forward index. A line with any other number of fields is skipped. Each document's title and content are segmented and stop-word-filtered (`tools.hpp`), then lower-cased and counted. For each distinct term, one posting goes to the inverted index. A posting's weight is 5 per title occurrence plus 1 per content occurrence.
- **Searcher.** The searcher (`searcher.hpp`) segments and lower-cases a query. It sums the posting weights per document and records the matched words. It collects the candidates and sorts them by weight, highest first. For each candidate whose document exists it renders a record. The record holds the title, a snippet of about 150 bytes around the first matched word with that word wrapped in `<em>…</em>`, and the URL.

The Dafny project has one module per source file, plus one module for the path from one file to the next:

| file | module | models |
|---|---|---|
| `tools.dfy` | `Tools` | `split_string` (boost `split` with `token_compress_on`), ASCII lower-casing, `std::string::find`, and the `JiebaUtil` class (stop words, `CutStringHelper`) |
| `parser.dfy` | `Parser` | `get_title`, `get_content`, `get_url`, `parse_html` and `save_file` |
| `index.dfy` | `Indexing` | the `Index` class: `create_index`, `create_forward_index`, `create_inverted_index`, `get_forward_index` and `get_inverted_index`. It also holds reference definitions of the forward and inverted index over a document list. |
| `searcher.dfy` | `Searching` | the `Searcher` class: `init_search` and `search` with its three loops, the ranking, `GetDescWithHighlight` and `GetDesc` (as written and corrected) |
| `pipeline.dfy` | `Pipeline` | the corpus file read back with `getline`: when `create_index` over `save_file`'s output returns the parsed records as documents |

Several definitions recur below:

- **Bytes.** Bytes are `char`s below 256 (`Byte`); strings are `seq<Byte>`.
- **Segmenter.** The segmenter (cppjieba's `CutForSearch`) is an uninterpreted function `segment: Str -> seq<Str>`, held as a field of `JiebaUtil`.
- **Index invariant.** `Index.Valid(segment, stops)` holds when two things are true: document ids equal their positions, and the inverted index equals `BuildInverted` of the forward index. `BuildInverted` is the inverted index built document by document. `PostingsFor(docs, w, …)` is its reference definition, term by term.
- **Candidates.** `Aggregate(inv, qs)` is the per-document `cnt` map the search builds. `Score` and `MatchedWords` are its reference definitions, document by document. `DocScore` and `DocMatches` express them directly in terms of a document's text.
- **Ranking.** `IsRanking(r, agg)` says three things: `r` lists exactly the entries of `agg`, each once, and it is strictly ordered by weight descending, then id ascending.

Three behaviours of the code that a reader may not expect, both modelled as written:

- the words recorded for a candidate keep duplicates, because `search` appends a posting's word each time a query token reaches it (searcher.hpp:80). A repeated query term is therefore listed twice.
- the summary used when there is no match always ends in "...", even for a body shorter than 150 bytes (searcher.hpp:145, 158).
- a page's line breaks are dropped when it is read (parser.cc:171-173), so `foo` at the end of one line and `bar` at the start of the next reach the content and the segmenter as `foobar`. The newline-to-space rule of the tag-stripping machine (parser.cc:228) never fires on a real file.

## Model

| member | source | states |
|---|---|---|
| Tools.LowerStr | index.hpp:154 | the result has the input's length, and each byte is the ASCII lower-case of the input byte at that position |
| Tools.LowerAll | index.hpp:153-156 | every token is lower-cased, and the count and order of tokens are kept |
| Tools.LowerStrIdempotent | index.hpp:154 | lower-casing twice equals lower-casing once |
| Tools.FindFrom | parser.cc:187 | the result is the first occurrence of the pattern at or after the start; None means there is no occurrence there |
| Tools.FindFirst | parser.cc:187-191 | an occurrence with no earlier occurrence is what `find` returns |
| Tools.Split | tools.hpp:24-27 | splitting always yields at least one token, even for the empty string |
| Tools.SplitTokensSepFree | tools.hpp:20-27 | no token contains the separator |
| Tools.SplitInteriorNonEmpty | tools.hpp:20-22 | with separators merged, no interior token is empty; when there are several tokens, the first is empty only when the input starts with a separator |
| Tools.SplitSingle | tools.hpp:24-27 | a string splits into a single token iff it has no separator, and that token is then the string itself |
| Tools.SplitAtRun | tools.hpp:20-22 | a run of one or more separators after a separator-free head splits off exactly that head |
| Tools.SplitJoin | tools.hpp:24-27 | splitting undoes joining whenever the tokens are separator-free and the interior tokens are non-empty |
| Tools.RecordSplit | tools.hpp:24-27 | a record line `title\3content\3url` splits back into its three fields iff the content is non-empty; with empty content it yields only [title, url] |
| Tools.FilterStopWords | tools.hpp:79-91 | the kept tokens are tokens of the input, none of them a stop word |
| Tools.FilterAppend | tools.hpp:79-91 | removing stop words distributes over concatenation, so order is preserved |
| Tools.FilterKeepsNonStopWords | tools.hpp:79-91 | a token list without stop words is unchanged |
| Tools.FilterIdempotent | tools.hpp:79-91 | filtering twice equals filtering once |
| Tools.JiebaUtil.constructor | tools.hpp:42-44 | the segmenter is the given one and the stop-word set is empty |
| Tools.JiebaUtil.InitJiebaUtil | tools.hpp:61-75 | an unopenable file leaves the stop words as they were; otherwise every line of the file is added to them |
| Tools.JiebaUtil.CutStringHelper | tools.hpp:76-92 | the output is the segmenter's tokens with the stop words erased (`CutString`) |
| Parser.TitleTagsDisjoint | parser.cc:195-199 | when `<title>` starts before `</title>`, it ends no later than `</title>` starts, so the substring length is never negative |
| Parser.CloseNotInsideOpen | parser.cc:187-191 | `</title>` cannot start inside an occurrence of `<title>` |
| Parser.ConcatLines | parser.cc:170-174 | the lines read are glued with nothing between them, so newline-free lines give a newline-free text |
| Parser.FileAll | parser.cc:165-175 | an unopenable file reads as empty; otherwise the text of newline-free lines holds no newline |
| Parser.GetTitle | parser.cc:177-203 | the definition of `get_title`: None for an empty file, a missing tag, or a first `</title>` not after the first `<title>`; otherwise the bytes between them |
| Parser.TitleOfPage | parser.cc:177-203 | for any page `pre <title> t </title> post` where `pre` holds neither tag and `t` holds no `</title>`, the title found is exactly `t`, whatever other markup surrounds it |
| Parser.TitleBetweenTags | parser.cc:186-199 | conversely, a title found is preceded by the first `<title>` and followed by a `</title>`; no tag comes before it and no `</title>` inside it |
| Parser.OpenTagFirst | parser.cc:187 | when the head holds no `<title>`, `find("<title>")` returns the position of the tag that follows it |
| Parser.CloseTagFirst | parser.cc:191 | when neither the head nor the title holds `</title>`, `find("</title>")` returns the position just after the title text |
| Parser.NoCloseBefore | parser.cc:191 | no `</title>` starts before the one after the title text, including one overlapping either tag |
| Parser.GetContent | parser.cc:204-235 | reports failure exactly for an empty file; the content is what the tag-stripping machine emits from the tag state |
| Parser.StripTagsClean | parser.cc:219-232 | the content holds no `<` and no newline, and it is no longer than the page |
| Parser.StripTagsSelects | parser.cc:219-232 | every content byte is a page byte (a newline shown as a space), in page order |
| Parser.StateAfterAppend | parser.cc:219-232 | the machine's state after `p + s` is its state after `s`, started from its state after `p` |
| Parser.StripTagsAppend | parser.cc:219-232 | the content of `p + s` is the content of `p` followed by the content of `s`, emitted from the state after `p` |
| Parser.StripTagsAppendStep | parser.cc:219-232 | the same split, for a suffix that ends in a given byte |
| Parser.StripTagsSnoc | parser.cc:219-232 | one more byte advances the state by one step and adds exactly that byte's output |
| Parser.NoTagEndStaysInLabel | parser.cc:218-223 | before the first `>` the machine stays in the tag state and emits nothing |
| Parser.DropsTextBeforeFirstTagEnd | parser.cc:218-223 | text with no `>` that comes before the page is dropped from the content |
| Parser.BodyTextKept | parser.cc:224-230 | in the text state, text without `<` is emitted byte for byte, with newlines shown as spaces |
| Parser.TextAfterTagKept | parser.cc:218-230 | the text after the first `>` and before the next `<` is the content's first bytes, byte for byte |
| Parser.GetUrl | parser.cc:236-243 | the definition of `get_url`: the site prefix followed by the path after its first 10 bytes; None where `substr(10)` throws |
| Parser.UrlOfInputPath | parser.cc:236-243 | a path under `data/input` maps to the site prefix followed by the path's relative part |
| Parser.UrlOfShortPath | parser.cc:239-240 | a path shorter than `data/input` has no URL; `substr` throws `out_of_range` there |
| Parser.Records | parser.cc:147-161 | one record per file |
| Parser.RecordsAt | parser.cc:148-160 | the i-th record is built from the i-th file's title, content and URL |
| Parser.FirstShortPath | parser.cc:147-161 | None iff every path has a URL; otherwise it is the first file whose `get_url` throws |
| Parser.FirstShortPathAt | parser.cc:147-161 | a file with a too-short path that has no too-short path before it is the first file to fail |
| Parser.RecordOfParts | parser.cc:148-160 | a missing title becomes the empty string; the record is the file's record |
| Parser.RecordsSnoc | parser.cc:147-161 | the loop over files adds their records one file at a time |
| Parser.ParseHtml | parser.cc:135-163 | no files gives false and adds nothing; otherwise it appends one record per file; when a path is too short, the exception stops the loop after the records of the files before it |
| Parser.CorpusSnoc | parser.cc:252-255 | the corpus grows one line per record, in order |
| Parser.RecordLineIsJoin | parser.cc:253 | a record's line is its three fields joined by byte 3, plus a newline |
| Parser.SaveFile | parser.cc:245-258 | the bytes written are the corpus of the records |
| Indexing.AcceptLine | index.hpp:125-138 | the definition of `create_forward_index` on values: a line with exactly 3 fields appends a document with the next id; any other line leaves the forward index unchanged |
| Indexing.ForwardOfShape | index.hpp:104-138 | reading lines keeps ids equal to positions, adds one document per well-formed line, and leaves the existing documents unchanged |
| Indexing.ForwardOfAppend | index.hpp:104-121 | reading `a` then `b` is reading `a + b` |
| Indexing.SkipMalformed | index.hpp:111-114 | a line that does not split into 3 fields has no effect on the forward index |
| Indexing.CountTitleStep | index.hpp:153-156 | loop-step unfolding of the title count: one title token bumps only its own title counter |
| Indexing.CountContentStep | index.hpp:160-163 | loop-step unfolding of the content count: one content token bumps only its own content counter |
| Indexing.CountTitleLowerStep | index.hpp:153-156 | loop-step unfolding: the title step as the loop takes it, with the token lower-cased first |
| Indexing.CountContentLowerStep | index.hpp:160-163 | loop-step unfolding: the content step as the loop takes it, with the token lower-cased first |
| Indexing.CountTitleMeaning | index.hpp:151-156 | after the title loop, a term's counter is (occurrences in the title, 0), and it exists iff the term occurs |
| Indexing.CountContentMeaning | index.hpp:158-163 | the content loop adds a term's content occurrences to its content counter, and creates counters only for occurring terms |
| Indexing.TallyMeaning | index.hpp:149-163 | a term is counted iff it occurs in the title or the content, with both its occurrence counts |
| Indexing.DocTallyWeight | index.hpp:165-170 | a term of a document has weight 5 × title count + content count, which is at least 1; any other word has weight 0 |
| Indexing.AddDocKeys | index.hpp:169-175 | after adding a document, a term has a list iff it had one before or is a term of the document |
| Indexing.AddDocNothing | index.hpp:169-175 | before any term is posted, the inverted index is unchanged |
| Indexing.RestrictAll | index.hpp:169 | once every key is posted, the posted terms are all the counters |
| Indexing.AddDocStep | index.hpp:169-175 | posting one more term appends exactly its posting to exactly its list |
| Indexing.PostOneTerm | index.hpp:170-174 | the loop body's update, with the weight built from the two counters, posts one more term |
| Indexing.InvertedPerTerm | index.hpp:140-176 | the inverted index built from the documents gives each term exactly its reference postings, and lists a term iff it has any |
| Indexing.PostingsForValid | index.hpp:169-175 | every posting of a term names an existing document containing the term, with that document's weight for it (at least 1); ids strictly increase along a list |
| Indexing.PostingsSound | index.hpp:169-175 | every posting names an existing document that contains the term, with its exact weight |
| Indexing.PostingsAscending | index.hpp:104-121 | postings appear in ascending document id, each document at most once |
| Indexing.PostingsIdsBelow | index.hpp:171 | every posting id is below the number of documents |
| Indexing.PostingsForComplete | index.hpp:169-175 | every document that contains a term has a posting in that term's list |
| Indexing.IndexedIffOccurs | index.hpp:140-176 | a word has a list iff some document contains it as a term |
| Indexing.Index.constructor | index.hpp:73 | both indexes start empty |
| Indexing.Index.CreateIndex | index.hpp:88-123 | an unopenable file gives false and changes nothing; otherwise every line is read in order, and the invariant linking both indexes is kept |
| Indexing.Index.IndexLine | index.hpp:111-117 | one line adds a document and its postings iff it has 3 fields, and the invariant is kept |
| Indexing.Index.CreateForwardIndex | index.hpp:125-138 | succeeds iff the line splits into 3 fields; a document with the next id is then appended |
| Indexing.Index.CreateInvertedIndex | index.hpp:140-176 | appends, for each term of the document, one posting weighted by its title and content counts |
| Indexing.Index.CountTitleWords | index.hpp:151-156 | the counters after the title loop over the lower-cased tokens |
| Indexing.Index.CountContentWords | index.hpp:158-163 | the counters after the content loop over the lower-cased tokens |
| Indexing.Index.PostTerms | index.hpp:169-175 | after the loop over the counters, in any order, every counted term's posting is appended |
| Indexing.Index.GetForwardIndex | index.hpp:179-185 | null iff the id is out of range; otherwise the document at that id, which carries that id |
| Indexing.Index.GetInvertedIndex | index.hpp:188-196 | null iff the word is not indexed; otherwise its list |
| Searching.AddListAt | searcher.hpp:76-81 | adding a list to the `cnt` map adds, to each id, its postings' weights and words |
| Searching.GatherAt | searcher.hpp:69-82 | after the query loop, an id has an entry iff some query term has a posting for it; the entry's weight is its score, and its words are the matched words in query order |
| Searching.GatherKeyed | searcher.hpp:76-78 | every entry sits under its own id; an id has an entry iff it had one or it matched |
| Searching.GatherWeight | searcher.hpp:79 | an entry's weight grows by exactly the id's score |
| Searching.GatherWords | searcher.hpp:80 | an entry's words grow by exactly the id's matched words, in order |
| Searching.GatherWordsStep | searcher.hpp:72-81 | one more query term appends exactly its posting word for the document, when it has one |
| Searching.AggregateAt | searcher.hpp:65-82 | from the empty map, the entries are exactly the matched ids, each with its score and matched words |
| Searching.AggregateKeyed | searcher.hpp:77-78 | every entry of the search's map sits under its own id |
| Searching.AggregateEntry | searcher.hpp:76-81 | an id is in the map iff it matched, and its entry has its score and its matched words |
| Searching.GatherAppend | searcher.hpp:69-82 | the query loop over `a + b` is the loop over `b` after the loop over `a` |
| Searching.UnknownTermIgnored | searcher.hpp:72-75 | a query term with no list changes nothing |
| Searching.ListOfDoc | searcher.hpp:76-81 | in a term's list, a document contributes its weight for the term and the term once if it contains it, and nothing otherwise |
| Searching.ListWeightOfDoc | searcher.hpp:76-81 | the weight half: a document's weight in a term's list is its `DocWeight`, and 0 for an id with no document |
| Searching.ListWordsOfDoc | searcher.hpp:76-81 | the words half: a document's words in a term's list are that term once when the document holds it, else none |
| Searching.Relevance | searcher.hpp:69-82 | over a valid index, a document's score is the sum of its weights for the query terms, and its words are the query terms it contains, in query order |
| Searching.RelevanceScore | searcher.hpp:69-82 | the score half: over a valid index, the summed weight equals `DocScore` of the document's text |
| Searching.RelevanceWords | searcher.hpp:69-82 | the words half: over a valid index, the matched words equal `DocMatches` of the document's text |
| Searching.SortRanked | searcher.hpp:86-89 | the definition of the sort: insertion sort by weight descending, then id ascending; InsertSpec, SortRankedElements and SortRankedRanks state its properties |
| Searching.InsertSpec | searcher.hpp:87-89 | insertion adds one element, loses none, and keeps a ranked list of distinct ids ranked |
| Searching.InsertMultiset | searcher.hpp:87-89 | inserting adds exactly one copy of the element to the multiset |
| Searching.SortRankedElements | searcher.hpp:87-89 | sorting is a permutation: the same length, the same elements and the same multiset of elements |
| Searching.SortRankedRanks | searcher.hpp:87-89 | sorting distinct ids yields a list ordered by weight descending, then id ascending |
| Searching.SortedEnumerationRanks | searcher.hpp:83-89 | sorting the collected entries yields a ranking of the map |
| Searching.BeforeStrictOrder | searcher.hpp:87-89 | the order is a strict order: never both ways, never reflexive, and transitive |
| Searching.RankedByElements | searcher.hpp:87-89 | two strictly ordered lists with the same elements are equal |
| Searching.RankingUnique | searcher.hpp:83-89 | a map has only one ranking, so the output does not depend on the map's iteration order |
| Searching.Render | searcher.hpp:93-105 | the definition of the rendering loop: one record per candidate whose document exists, in rank order |
| Searching.RenderAll | searcher.hpp:93-105 | when every candidate's document exists, there is one record per candidate, in rank order, with its title, snippet and URL |
| Searching.SearchOverValidIndex | searcher.hpp:58-108 | over a valid index, every candidate is a document matching the query, with its exact score and matched words; every matching document is a candidate; weights do not increase along the ranking |
| Searching.RankedWeights | searcher.hpp:87-89 | along a ranking, weights do not increase |
| Searching.RankedScored | searcher.hpp:69-85 | a candidate taken from the map is an existing, matching document with its score and words |
| Searching.RankedComplete | searcher.hpp:83-85 | a list holding every map entry holds every matching document |
| Searching.LowerOccursAt | searcher.hpp:151-154 | a case-insensitive match is an exact match of the lower-cased strings |
| Searching.SearchCI | searcher.hpp:151-154 | the result is the first case-insensitive match position, or the body's length when there is none |
| Searching.GetDescWithHighlight | searcher.hpp:141-184 | the definition of the snippet: the leading summary when there are no words or no match; otherwise the highlighted window around the first match, between "..." marks |
| Searching.SnippetWithoutMatch | searcher.hpp:143-159 | with no words or no match, the snippet is the first 150 bytes plus "...", at most 153 bytes |
| Searching.SnippetWindow | searcher.hpp:161-183 | the window starts at most 50 bytes before the match and holds the whole matched word; its length is at most 150 + the word's length; the snippet is the highlighted window between "..." marks |
| Searching.HighlightInsertsMarkers | searcher.hpp:175-181 | the first exact occurrence is wrapped in `<em>`/`</em>`, adding 9 bytes; without an occurrence the window is unchanged |
| Searching.SnippetHighlightsExactMatch | searcher.hpp:161-181 | when the match is exact, the highlighting finds an occurrence at or before it inside the window |
| Searching.WindowHoldsOccurrence | searcher.hpp:167-171 | the window around an exact occurrence contains an occurrence at or before it |
| Searching.GetDescAsWritten | searcher.hpp:110-139 | the definition of `GetDesc` as written, with the window end starting at `size() - 1` |
| Searching.GetDescFixed | searcher.hpp:110-139 | `GetDesc` with the window end starting at `size()` |
| Searching.GetDescAsWrittenDropsMatch | searcher.hpp:128-138 | as written, a match on the body's last byte is cut from the snippet (shown on "abc", "c") |
| Searching.GetDescAsWrittenNone2 | searcher.hpp:129-135 | as written, a one-byte body that matches returns "None2" |
| Searching.GetDescWindowHoldsMatch | searcher.hpp:110-139 | with the end bound fixed (GetDescFixed), the snippet window always holds the match position, and as much of the word as fits in 100 bytes |
| Searching.Searcher.constructor | searcher.hpp:47 | the searcher uses the given index and segmenter |
| Searching.Searcher.InitSearch | searcher.hpp:49-55 | builds the index from the corpus lines and keeps the index invariant |
| Searching.Searcher.Search | searcher.hpp:58-108 | the records are the rendering of the ranking of the query's `cnt` map |
| Searching.Searcher.CountTerms | searcher.hpp:65-82 | the loop computes the `cnt` map of the lower-cased query terms, with every entry under its own id |
| Searching.Searcher.CollectStep | searcher.hpp:83-85 | one more key's entry keeps the collected list exact and free of duplicates |
| Searching.Searcher.Collect | searcher.hpp:83-85 | every map entry is collected exactly once, in whatever order the keys are visited |
| Searching.Searcher.Emit | searcher.hpp:93-105 | one record per ranked candidate whose document exists, in rank order |
| Pipeline.GetLines | index.hpp:104 | the definition of the `getline` loop: the newline-free pieces of the text, with no empty line after a final newline |
| Pipeline.GetLinesCons | index.hpp:104 | `getline` yields the text before the first newline, then the lines of the rest |
| Pipeline.GetLinesSnoc | index.hpp:104 | one more newline-terminated line after whole lines adds exactly that line |
| Pipeline.FieldsNoNewline | parser.cc:253 | joining newline-free fields gives a newline-free line |
| Pipeline.CorpusWholeLines | parser.cc:252-255 | the corpus file ends in a newline, or is empty |
| Pipeline.LinesOfCorpus | parser.cc:252-255 | reading the corpus back line by line gives each record's joined fields, in order |
| Pipeline.DocsOf | index.hpp:135-136 | one document per record |
| Pipeline.DocsOfAt | index.hpp:135-136 | the k-th document has the k-th record's fields and id base + k |
| Pipeline.ForwardOfSplits | index.hpp:104-136 | lines that each split into a record's three fields become exactly those records' documents, numbered on from the current size |
| Pipeline.ForwardOfFields | index.hpp:125-138 | the joined fields of storable records become exactly those records' documents |
| Pipeline.GetLinesNewlineFree | index.hpp:104 | no line `getline` yields holds a newline |
| Pipeline.ReadFileNewlineFree | parser.cc:165-175 | whatever a file holds, the text get_file_all returns for it holds no newline |
| Pipeline.RecordOneLine | parser.cc:148-158 | a file with a newline-free text and path gives a record with no newline in any field |
| Pipeline.ParsedRecordsOneLine | parser.cc:140-161 | every record parse_html builds from such files is one line |
| Pipeline.ParsedCorpusLines | parser.cc:140-161 | reading back the corpus of the parsed records gives one fields line per file, in order |
| Pipeline.CorpusRoundTrip | index.hpp:88-138 | reading back the corpus that `save_file` writes into the forward index gives every storable record as a document, in order, with consecutive ids |
| Pipeline.EmptyContentDropped | index.hpp:129-133 | a record with empty content splits into 2 fields and is lost between the parser and the index |

## Left out

- File input and output (`get_file_all`, the `ifstream`/`ofstream` calls, `extract_html`'s directory walk) are not modelled. A file's bytes are parameters: an `Option<seq<Str>>` of lines (None when a file cannot be opened) or `HtmlFile.text`. `HtmlFile.text` stands for get_file_all's result, which Parser.FileAll defines over the lines read and Pipeline.ReadFileNewlineFree shows to be newline-free. `save_file` returns the bytes it would append instead of appending them. It therefore never reports the failure to open the output file.
- Log.hpp and the HTTP server (http_server.cc) are outside the model. The same goes for the JSON serialisation of search results: `Search` returns the records rather than the JSON text.
- Segmentation: cppjieba's `CutForSearch` is an uninterpreted function of the input, so no property of its tokens is assumed. The dictionary paths are not modelled.
- Concurrency is not modelled: the singletons (`get_instance`), their mutexes and the double-checked locking. The searcher is given its index and segmenter objects.
- Character handling: bytes are `char`s below 256, with ASCII `tolower`. UTF-8 and locale effects are not modelled.
- Integer widths are not modelled. Ids are `nat` rather than `uint64_t`, and weights are `int` rather than 32-bit `int`. Weight overflow at 2^31 is not modelled.
- Searching.Searcher.Search: `std::sort` with `weight_ > weight_` leaves the order of equal weights unspecified. The model fixes ties by ascending id, with a functional insertion sort rather than an in-place sort. `Search` also returns the sorted candidates as `ranked`; RankingUnique shows that they are determined by the index and the query.
- Searching.Searcher.Collect: the iteration order of `unordered_map` is modelled by an arbitrary choice (`:|`) of the next key, so the contract holds for every order.
- Indexing.Index.PostTerms: likewise, the loop over `word_cnt` takes its keys in an arbitrary order.
- Searching.SearchOverValidIndex: it states what the ranked candidates are. The records built from them are stated by RenderAll and Searching.Searcher.Emit.
- `parse_html` runs with no `try`. The `out_of_range` exception that `get_url` throws on a short path escapes it. The model reports that exception as the `UrlOutOfRange(i)` outcome, together with the records added before it.
- `search` calls `GetDescWithHighlight`. `GetDesc`, which `search` no longer calls, is modelled only for the finding below: GetDescAsWritten as written, GetDescFixed corrected.

## Findings

| source | as written | input that shows it | evidently intended | confidence | as-written member | corrected member |
|---|---|---|---|---|---|---|
| searcher.hpp:129 | `end` starts at `size() - 1`, so the window `substr(start, end - start)` never includes the body's last byte | body "abc", word "c": a snippet "ab..." without the match; body "a", word "a": "None2" | `end` starts at `size()`, so the window always covers the match | not executed | Searching.GetDescAsWritten (GetDescAsWrittenDropsMatch, GetDescAsWrittenNone2) | Searching.GetDescFixed (GetDescWindowHoldsMatch) |

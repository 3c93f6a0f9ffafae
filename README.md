# PDF translation pipeline: chunking, naming and reassembly

This project models the text pipeline of a PDF-translation tool. The tool
extracts each page's text from a PDF and cuts it into chunk files of five
sentences, named `page_<p>_<idx>.txt`. It sends each chunk to a chat model
for translation, then merges the translated chunks back into one document
in page order. The model covers the logic between the two external services:

- `extract_text.py`, the range-bounded extractor. The operator names a phrase
  from the first and the last paragraph to translate. The last page whose raw
  text holds each phrase bounds the range. On the start page the line segments
  before the begin phrase are dropped, and on the end page, when it is not
  also the start page, those after the end phrase. The pages in range are chunked in
  order, and the first page that fails stops the run.
- `extract_text_all.py`, the whole-document extractor. It uses the same
  chunker without trimming, plus a `\x00` clean-up, over every page
  `page_0 … page_{n-1}`.
- `translator.py`, the chunk store and merger:
  - the `before/`, `after/` and `after/log/` path strings;
  - the listing filter;
  - the numeric parse of chunk file names under the two naming schemes;
  - the numeric sort;
  - the same-page flags;
  - the merged document, which puts a line break after every `。` and adds
    one or two line breaks after each chunk.

Layout:

- `wrappers.dfy`: `Option`.
- `pystr.dfy`: Python's `in`, `replace`, `split`, `join`, `startswith`,
  `endswith`, `str(int)` and `int()`. Each is a function, recursive where
  the operation walks the string. The algebra proved about them covers the
  replace length, the split/join round trip, split-then-join equals replace,
  the first field, and `int(str(n)) == n`.
- `segmenter.dfy`: the segmenter both extractors share, in identical copies.
  It covers page keys, the `Fig.`/`fig.`/`\x02` clean-up, the last-match
  search, the dictionary `get_txt` builds, five-sentence chunking, and the
  page loop that stops at the first failing page.
- `extract_text.dfy`, `extract_text_all.dfy`, `translator.dfy`: one module
  per source file. Each has a class for the source's object, whose fields
  the methods update.

How the source is represented:

- A Python dict of pages is a sequence of `(key, text)` items in insertion
  order.
- A directory listing is a sequence of names.
- The translated files are a map from location to contents.
- Every file written is a `FileWrite(location, contents)` appended to the
  object's `written` field.
- NLTK's `sent_tokenize` is a function parameter `tokenize`.
- The two `input()` answers are parameters.
- The platform `os.path.join` runs on is a `Host` parameter.

Behaviours of the code that the model keeps as written:

- The last row's same-page flag is `True`, set in the `IndexError` branch
  (translator.py:282-284), so the merged document ends with a single `\n`.
- Answering `q` for either phrase makes `get_page_range` return `None`
  (extract_text.py:136, 149-150). The unpacking in `iterate` then fails
  (extract_text.py:272-278), so nothing is written and the result is `None`.
- A page whose `get_paragraph` returns `None` makes the unpacking at
  extract_text.py:293 raise. The outer `except` ends the whole run, not just
  that page.
- A start page after the end page gives an empty `range` at
  extract_text.py:287. Nothing is written, and `doc` is unbound at
  extract_text.py:296, so `iterate` returns `None`.
- The end page is trimmed only when it is not the start page: the `elif` at
  extract_text.py:218 is skipped once the start-page branch at
  extract_text.py:211 has run. A one-page range therefore keeps the line
  segments after the end phrase (extract_text.py:211-223).

## Model

| member | source | states |
|---|---|---|
| PyStr.JoinSplitIsReplace | extract_text_all.py:161-162 | splitting on `"\r\n"` and joining with `" "` equals replacing every `"\r\n"` with `" "` |
| PyStr.SplitLength | extract_text.py:208 | `split` gives one segment more than there are non-overlapping occurrences of the separator |
| PyStr.ReplaceLength | extract_text.py:200-203 | the length after `replace` is the length before plus, per occurrence, the difference between replacement and pattern |
| PyStr.ReplaceWithoutOccurrence | extract_text.py:200-206 | `replace` of an absent pattern is the identity, so the `if ... in text` guards before each replacement change nothing |
| PyStr.ReplaceCharRemovesIt | extract_text.py:205-206 | replacing a character by another keeps the length and leaves no occurrence of it |
| PyStr.FirstFieldSpec | translator.py:31 | `s.split(sep)[0]` is a prefix of `s` without `sep`, and is all of `s` or is followed by `sep` |
| PyStr.ParseNatToString | extract_text.py:282-283 | `int(str(n)) == n` for every natural `n` |
| PyStr.ParseNat | translator.py:108-109 | the numeric conversion succeeds exactly on non-empty digit strings |
| Segmenter.KeyIndexOfPageKey | extract_text.py:282-283 | the index parsed from `page_<i>` by `split("_")[1]` is `i` |
| Segmenter.PageKeyInjective | extract_text.py:105 | distinct pages get distinct keys |
| Segmenter.NormalizeFiguresSpec | extract_text.py:200-206 | the `Fig.` and `fig.` steps never lengthen the text; the `\x02` step keeps the length and leaves no `\x02` |
| Segmenter.LastIndexContaining | extract_text.py:212-214 | the index of the last segment holding the phrase, with nothing after it holding it; `None` exactly when no segment holds it |
| Segmenter.FindLast | extract_text.py:212-214 | the loop that reassigns the index on every match ends with the last matching index |
| Segmenter.BuildArticles | extract_text_all.py:86-94 | the dictionary has one item per page, the `i`-th keyed `page_<i>` with the `i`-th text |
| Segmenter.LookupPageKey | extract_text.py:287-289 | in a dictionary built by `get_txt`, `page_<i>` finds the `i`-th page, and a key past the last page is a `KeyError` |
| Segmenter.ChunkCountBounds | extract_text.py:233 | `ceil(n/5)*5` lies between `n` and `n+4` |
| Segmenter.ChunkSentences | extract_text.py:237-246 | chunk `idx` holds 1 to 5 sentences; every chunk but the last holds exactly 5; the last holds the remainder |
| Segmenter.ChunksAgree | extract_text.py:233-248 | the index arithmetic of the chunk loop yields `ceil(n/5)` chunks, equal to peeling off five sentences at a time |
| Segmenter.ChunksCover | extract_text.py:237-248 | the chunks in index order concatenate to the sentence list, each sentence exactly once |
| Segmenter.ChunkWrites | extract_text.py:233-248 | writes `ceil(n/5)` files; file `idx` is named `<page_key>_<idx>.txt` and holds chunk `idx` joined by spaces; returns the last chunk's text, `None` for no sentences |
| Segmenter.RunStep | extract_text.py:292-293 | a failing page aborts the loop and writes nothing; a succeeding page appends its chunk files |
| Segmenter.RunAbortSticks | extract_text.py:292-299 | once the loop has aborted, later pages change nothing |
| Segmenter.RunAllSucceed | extract_text.py:292-296 | when no page fails, every page's chunks are written in page order and `doc` is the last chunk of the last page |
| Segmenter.RunStopsAtFirstFailure | extract_text.py:292-299 | the first failing page stops the loop: only earlier pages are written and the result is `None` |
| ExtractText.ScanPages | extract_text.py:136-141 | one pass over the pages; each phrase's index is the last page whose raw text holds it |
| ExtractText.SelectRangeQuit | extract_text.py:136-150 | `q` for either phrase gives no range |
| ExtractText.SelectRangeSpec | extract_text.py:136-153 | a range exists exactly when neither answer is `q` and each phrase occurs in some page; its start and end pages are the last pages holding the phrases |
| ExtractText.TrimSegmentsSpec | extract_text.py:211-226 | start page: segments from the last one holding the begin phrase; end page (only when it is not the start page): segments up to and including the last one holding the end phrase; inner pages: all; a boundary phrase found in no segment fails |
| ExtractText.InnerPageSentences | extract_text.py:225-229 | an inner page reaches the tokenizer whole, with every `\r\n` replaced by a space |
| ExtractText.GluedPhraseNeverTrims | extract_text.py:208-223 | a phrase spanning a line break can select a page but never trims it, so that page fails; `input()` cannot return such a phrase, so this covers callers that pass the answers directly |
| ExtractText.OnePageGluedFails | extract_text.py:136-223 | any one-page document whose text holds a line break, with its whole text given as both phrases: the range is found, yet nothing is written and the result is `None` (a phrase `input()` cannot return) |
| ExtractText.GluedPhraseExample | extract_text.py:136-223 | one page `"a\r\nb"` with that phrase: the range is found, yet nothing is written and the result is `None` (a phrase `input()` cannot return) |
| ExtractText.OnePageUntrimmedFails | extract_text.py:269-299 | on a one-page document whose text is both answers, a page that trimming rejects ends `iterate` with nothing written and `None` |
| ExtractText.FigurePhraseExample | extract_text.py:136-213 | one page `"Fig. 3"` with `"Fig. 3"` typed for both phrases: selection on the raw text finds the page, the clean-up turns it into `"Fig 3"`, trimming then finds no phrase, and nothing is written and the result is `None` |
| ExtractText.RestrictPages | extract_text.py:286-289 | the rebuilt dictionary holds `page_s … page_e` in order, or fails on a missing key |
| ExtractText.PagesInRangeKeyed | extract_text.py:282-289 | on a dictionary from `get_txt` the restriction is the slice of pages `s..e`, and empty when `s > e` |
| ExtractText.ExtractVisitsRange | extract_text.py:269-299 | a selected range segments exactly the pages from start to end in ascending order; a start page after the end page writes nothing and returns `None` |
| ExtractText.SelectRangeKeyed | extract_text.py:136-153 | on a dictionary from `get_txt` the stored start and end pages are the keys `page_<s>` and `page_<e>` of the last pages holding each phrase |
| ExtractText.ExtractOfIndices | extract_text.py:269-299 | when the stored keys are `page_<s>` and `page_<e>`, `iterate` segments the pages `s..e` in order, and nothing when `e < s` |
| ExtractText.PdfToText.GetTxt | extract_text.py:97-110 | stores and returns the dictionary keyed `page_0 … page_{n-1}` |
| ExtractText.PdfToText.GetPageRange | extract_text.py:136-153 | returns the selected range and stores it; on failure the fields keep their values, except that a found begin phrase still sets the start page |
| ExtractText.PdfToText.GetParagraph | extract_text.py:197-253 | appends exactly the page's chunk files and returns its last chunk and the path, or `None` with nothing written when trimming fails or there are no sentences |
| ExtractText.PdfToText.SegmentPages | extract_text.py:292-293 | the written files and `doc` are those of the page loop over the restricted pages |
| ExtractText.PdfToText.Iterate | extract_text.py:269-299 | the written files and the result are those of range selection, restriction and the page loop, with every failure giving `None`; the range fields hold the selected range, or after a failed selection keep their values except that a found begin phrase still sets the start page |
| ExtractTextAll.NormalizeAllSpec | extract_text_all.py:148-157 | both control-character steps keep the length; no `\x00` or `\x02` remains; the clean-up never lengthens the text |
| ExtractTextAll.WholePageReachesTokenizer | extract_text_all.py:158-165 | the tokenizer receives the whole cleaned page with every `\r\n` replaced by a space; the split has one more segment than line breaks |
| ExtractTextAll.ExtractAllWritesEveryPage | extract_text_all.py:205-211 | when every page has a sentence, the chunks of `page_0 … page_{n-1}` are written in that order and the last page's last chunk is returned |
| ExtractTextAll.ExtractAllStopsAtEmptyPage | extract_text_all.py:205-214 | the first page without sentences stops the run: only earlier pages are written and the result is `None` |
| ExtractTextAll.PdfToText.GetTxt | extract_text_all.py:86-98 | stores and returns the dictionary keyed `page_0 … page_{n-1}` |
| ExtractTextAll.PdfToText.GetParagraph | extract_text_all.py:145-189 | appends the page's chunk files and returns its last chunk and the path, or `None` for a page without sentences |
| ExtractTextAll.PdfToText.Iterate | extract_text_all.py:205-214 | writes and returns what the page loop over every page does, stopping at the first page without sentences |
| Translator.InputPath | translator.py:26-29 | the path gets `/` appended when it holds a `/`, else a backslash |
| Translator.ParentDirSpec | translator.py:31 | the parent directory is the part of the input path before its first `before`, or all of it |
| Translator.SaveTranslationPath | translator.py:48-61 | the log directory is the translation directory followed by `log` and a separator |
| Translator.SaveTranslationPathAgrees | translator.py:61 | when the parent directory holds no `log`, the expression as written yields `<parent>after<sep>` |
| Translator.SaveTranslationPathTruncated | translator.py:61 | when the parent directory holds `log`, the expression as written cuts it at its first `log`, above the parent directory |
| Translator.BlogDirectoryExample | translator.py:61 | for `/home/blog/` the expression as written yields `/home/b` instead of `/home/blog/after/` |
| Translator.KeepChunkFiles | translator.py:93 | keeps exactly the names ending in `.txt` and starting with `page`, as often as the listing holds them |
| Translator.ParseRow | translator.py:98-103 | a parsed row carries its own file name |
| Translator.ParseRows | translator.py:98-109 | the column parses exactly when every name does, row `i` being name `i`'s parse |
| Translator.Insert | translator.py:112 | inserting a row adds exactly that row |
| Translator.InsertSorted | translator.py:112 | inserting into a sorted table keeps it sorted |
| Translator.InsertNames | translator.py:112 | inserting a row adds exactly its file name to the multiset of file names |
| Translator.SortRowsNames | translator.py:112-114 | sorting keeps the multiset of file names |
| Translator.SortRows | translator.py:112-114 | the result is sorted by numeric (page, paragraph) and is a permutation of the rows, indexed from 0 |
| Translator.MetadataDefined | translator.py:106-121 | the table exists exactly when every kept name parses; otherwise `get_metadata` returns `None` |
| Translator.MetadataRows | translator.py:93-118 | the table is sorted, its file names are a permutation of the kept names, and each row holds its own name's parse |
| Translator.ChunkNameParsesBefore | translator.py:98-101 | `page_<p>_<k>.txt` passes the filter and parses to `(p, k)` under the before-scheme |
| Translator.TranslatedNameRoundTrip | translator.py:213-214 | the translated name is `page_<p>_<k>_translation.txt`; it passes the filter, parses to `(p, k)` under the after-scheme, and fails under the before-scheme |
| Translator.TranslatedStemParsesAfter | translator.py:103 | the third `_` field of a translated name is the paragraph number |
| Translator.TranslatedStemFailsBefore | translator.py:101 | the before-scheme reads `translation` as the paragraph number, which fails |
| Translator.TranslatedStemKept | translator.py:93 | translated names pass the filter |
| Translator.LogAndMergeFiltered | translator.py:248-249 | the log name is `page_<p>_<k>_log.csv`; neither it nor `merge_translation.txt` passes the filter |
| Translator.TwoChunksSortNumerically | translator.py:108-114 | chunks of pages `p < q` listed in either order come out with page `p` first, so `page_10_*` follows `page_2_*` |
| Translator.CanonicalSortedUnique | translator.py:112-114 | a sorted table equals a table strictly ascending in (page, paragraph) when both hold the same file names and every row is its own name's parse, so the sort fixes the order of such a table |
| Translator.ListingOrderRoundTrip | translator.py:87-117 | for the chunk names of ascending pages, `page_<p>_0 … page_<p>_<c-1>` per page, or their `_translation` names, listed in any order and among any files the filter drops (the `log` directory, `merge_translation.txt`), `get_metadata` returns exactly the rows in the order they were written, each with its own page and paragraph number |
| Translator.SameFlags | translator.py:272-284 | for `i < n-1` the flag holds exactly when rows `i` and `i+1` share a page; the last row's flag is `True` |
| Translator.UnflaggedEndsPage | translator.py:272-284 | on a sorted table an unflagged row is followed by a row of a higher page |
| Translator.BreakLinesFollowed | translator.py:314 | every `。` of the result is followed by `\n` |
| Translator.BreakLinesRoundTrip | translator.py:314 | removing the inserted line breaks gives back the text |
| Translator.BreakLinesLength | translator.py:314 | the result is longer by the number of `。` |
| Translator.BreakLinesExample | translator.py:314 | `"第一句。第二句。"` becomes `"第一句。\n第二句。\n"` |
| Translator.BreakLinesTwoSentences | translator.py:314 | two sentences without inner full stops each end up on a line of their own |
| Translator.MergedConcat | translator.py:306-319 | merging two runs of rows is merging each and concatenating |
| Translator.MergedAt | translator.py:306-319 | row `i`'s piece sits between the merge of the rows before it and the merge of the rows after it |
| Translator.MergeAdjacencyExample | translator.py:272-319 | for rows `(p,0)`, `(p,1)`, `(p+1,0)`: one `\n` after the first, a blank line after the second, one `\n` at the end |
| Translator.MergeTexts | translator.py:306-319 | the loop's result is the merge of all rows' files, or `None` when one cannot be read |
| Translator.MergedEnding | translator.py:316-317 | when the last row's flag is set, the merge ends with that row's broken text and one `\n` |
| Translator.MergeDocumentEnding | translator.py:316-319 | the merged document ends with the last chunk's broken text (`BreakLines`, a line break after every `。`) and a single `\n` |
| Translator.MergeOfEnding | translator.py:302-319 | merging a non-empty flagged table reads the last row's file and ends with its broken text and a single `\n`, since the last row is always flagged |
| Translator.Translator.constructor | translator.py:26-39 | stores the input path with its separator, the parent directory and the language |
| Translator.Translator.CreateDirectory | translator.py:44-64 | stores the log directory and the translation directory that holds it |
| Translator.Translator.GetMetadata | translator.py:87-121 | returns the table for the listing and stores it; a failure returns `None` and leaves the field alone |
| Translator.Translator.CheckPageNum | translator.py:268-291 | returns and stores the after-translation table with its flags; `get_metadata` also stores the table |
| Translator.Translator.MergeFiles | translator.py:301-329 | returns the merged document, writes it to `merge_translation.txt` in the translation directory, stores the flagged table, and stores the unflagged table in `metadata`; when the table cannot be built it returns `None` and leaves `metadata` alone, and a missing translation also gives `None` |

## Left out

- `translate` and the response parsing in `get_translation` (translator.py:165-209) are left out. They are the chat-model call, `json_normalize` and `.strip()` on its answer: a foreign service. The names these two build are modelled (`TranslatedName`, `LogName`).
- `Translator.iterate` (translator.py:233-256) is left out. It is I/O orchestration around that service: `tqdm`, `sleep`, reading, translating and writing the CSV log. Note that it visits only the first two sorted rows (`[:2]`).
- `read_txt_file` (translator.py:123-149) is modelled only where `merge_files` reads the translation directory, as a lookup in the file map.
- `price_calculation` is left out: it reads CSV logs and computes a float price.
- The PDF reader is outside the model: pdfium, the page size, `get_text_bounded`, `get_text_range`. Page texts are inputs.
- NLTK `sent_tokenize` is a parameter and is not modelled.
- The `input()` prompts are parameters. They range over all strings, including ones holding a line break, which `input()` cannot return.
- `platform`/`os.sep` is the `Host` parameter.
- `os.listdir` listings are inputs.
- `os.makedirs` and its `FileExistsError` branch are not recorded.
- File reads and writes are a map and a log. Write failures are not modelled.
- Text-mode newline translation is not modelled.
- The extractors' `__init__` and `create_directory` (PDF discovery, making `before/`) are left out. Their constructors take the `before/` path.
- `self.path = self.save_text(...)` is the identity, because `save_text` returns `self.path`. The model keeps `path` fixed; a failed write, which would return `None`, is not modelled.
- The printed messages of every `except` are not modelled. Only the `None` results are.
- `np.ceil` and `np.arange` are integer ceiling division and an index loop.
- PyStr.ParseNat: accepts only non-empty ASCII digit strings. `pd.to_numeric` also accepts signs, surrounding spaces, decimals and exponents, and turns an empty field (as in `page__0.txt`) into NaN rather than raising, so the source keeps such a row and sorts it last where the model returns `None`.
- Translator.ParseRow: inherits that restriction. For example, `page_-1_0.txt` is a failure in the model.
- Translator.SortRows: the order among rows with equal (page, paragraph) numbers is not claimed to match pandas.
- ExtractText.PdfToText, ExtractTextAll.PdfToText: `articles` starts as `[]` and the four range fields as `""`. In the source these attributes do not exist before `get_txt` and `get_page_range`, and an earlier call raises `AttributeError`. The model does not capture that error.
- Translator.Translator: a few details of the source object are simplified:
  - attributes that do not exist yet in the source are `""` or `None`, and calls made out of order (an `AttributeError`) are not modelled;
  - the API key is left out;
  - `metadata` and `t_metadata` are one DataFrame in the source, so the flag column also shows on `metadata`; the model keeps `metadata` without flags.
- Translator.Translator.CreateDirectory: stores the corrected translation directory (see Findings). The as-written expression is kept as `Translator.SaveTranslationPathAsWritten`.

## Findings

| source | as written | input that shows it | evidently intended | confidence | as-written member | corrected member |
|---|---|---|---|---|---|---|
| translator.py:61 | `save_translation_path = log_path.split("log")[0]` cuts the log path at the first `log` anywhere in it, including inside the parent directory | parent directory `/home/blog/`: the log path is `/home/blog/after/log/` and the translation directory becomes `/home/b`, so translations are written as `/home/bpage_0_0_translation.txt` | the directory that holds `log/`, i.e. `<parent>after<sep>` | not executed | Translator.SaveTranslationPathAsWritten, Translator.BlogDirectoryExample | Translator.SaveTranslationPath, Translator.SaveTranslationPathAgrees |

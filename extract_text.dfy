/**
  The range-bounded extractor (extract_text.py): the operator names a phrase
  from the first and one from the last paragraph to translate; the pages whose
  raw text holds them bound the range, and on the two boundary pages the line
  segments before the begin phrase and after the end phrase are dropped.
  The PDF reader is outside the model: the pages arrive as texts, and NLTK's
  `sent_tokenize` arrives as the parameter `tokenize`.
*/
module ExtractText {
  import opened Wrappers
  import opened PyStr
  import opened Segmenter

  /** What `get_page_range` returns: (start_page, end_page, begin_words, end_words). */
  datatype PageRange = PageRange(startPage: string, endPage: string, beginWords: string, endWords: string)

  /** The answer that means "quit". */
  const Quit: string := "q"

  function Texts(articles: Articles): seq<string>
  {
    seq(|articles|, i requires 0 <= i < |articles| => articles[i].1)
  }

  // ---------------------------------------------------------------------------
  // get_page_range
  // ---------------------------------------------------------------------------

  /** `get_page_range` on given answers: `q` quits at once; otherwise the start
      and end pages are the last pages whose raw text holds each phrase, and a
      phrase found nowhere leaves its page unbound, which the handler turns into `None`. */
  function SelectRange(articles: Articles, beginWords: string, endWords: string): Option<PageRange>
  {
    if beginWords == Quit || endWords == Quit then None
    else
      match (LastIndexContaining(Texts(articles), beginWords), LastIndexContaining(Texts(articles), endWords))
      case (Some(s), Some(e)) => Some(PageRange(articles[s].0, articles[e].0, beginWords, endWords))
      case _ => None
  }

  /** The page loop of `get_page_range`: one pass, each phrase's page
      reassigned on every match, so the last match wins. */
  method ScanPages(articles: Articles, beginWords: string, endWords: string)
    returns (startIdx: Option<nat>, endIdx: Option<nat>)
    ensures startIdx == LastIndexContaining(Texts(articles), beginWords)
    ensures endIdx == LastIndexContaining(Texts(articles), endWords)
  {
    startIdx, endIdx := None, None;
    var i := 0;
    while i < |articles|
      invariant 0 <= i <= |articles|
      invariant startIdx == LastIndexContaining(Texts(articles)[..i], beginWords)
      invariant endIdx == LastIndexContaining(Texts(articles)[..i], endWords)
    {
      assert Texts(articles)[..i + 1][..i] == Texts(articles)[..i];
      assert Texts(articles)[..i + 1][i] == articles[i].1;
      if Contains(articles[i].1, beginWords) {
        startIdx := Some(i);
      }
      if Contains(articles[i].1, endWords) {
        endIdx := Some(i);
      }
      i := i + 1;
    }
    assert Texts(articles)[..|articles|] == Texts(articles);
  }

  /** `q` for either phrase aborts without looking at any page. */
  lemma SelectRangeQuit(articles: Articles, beginWords: string, endWords: string)
    requires beginWords == Quit || endWords == Quit
    ensures SelectRange(articles, beginWords, endWords) == None
  {
  }

  /** A range is found exactly when neither answer is `q` and each phrase occurs
      in some page; its start page then is the LAST page holding the begin
      phrase, and its end page the last page holding the end phrase. */
  lemma SelectRangeSpec(articles: Articles, beginWords: string, endWords: string)
    ensures SelectRange(articles, beginWords, endWords).Some? <==>
      beginWords != Quit && endWords != Quit
      && (exists i :: 0 <= i < |articles| && Contains(articles[i].1, beginWords))
      && (exists i :: 0 <= i < |articles| && Contains(articles[i].1, endWords))
    ensures SelectRange(articles, beginWords, endWords).Some? ==>
      var r := SelectRange(articles, beginWords, endWords).value;
      r.beginWords == beginWords && r.endWords == endWords
      && (exists i :: 0 <= i < |articles| && r.startPage == articles[i].0 && Contains(articles[i].1, beginWords)
            && forall j :: i < j < |articles| ==> !Contains(articles[j].1, beginWords))
      && (exists i :: 0 <= i < |articles| && r.endPage == articles[i].0 && Contains(articles[i].1, endWords)
            && forall j :: i < j < |articles| ==> !Contains(articles[j].1, endWords))
  {
    var texts := Texts(articles);
    var s := LastIndexContaining(texts, beginWords);
    var e := LastIndexContaining(texts, endWords);
    if s.Some? {
      assert texts[s.value] == articles[s.value].1;
      forall j | s.value < j < |articles| ensures !Contains(articles[j].1, beginWords) {
        assert texts[j] == articles[j].1;
      }
    } else {
      forall i | 0 <= i < |articles| ensures !Contains(articles[i].1, beginWords) {
        assert texts[i] == articles[i].1;
      }
    }
    if e.Some? {
      assert texts[e.value] == articles[e.value].1;
      forall j | e.value < j < |articles| ensures !Contains(articles[j].1, endWords) {
        assert texts[j] == articles[j].1;
      }
    } else {
      forall i | 0 <= i < |articles| ensures !Contains(articles[i].1, endWords) {
        assert texts[i] == articles[i].1;
      }
    }
  }

  // ---------------------------------------------------------------------------
  // get_paragraph: range trimming
  // ---------------------------------------------------------------------------

  /** The segments of one page that stay in range. On the start page they run
      from the last segment holding the begin phrase to the end; on the end page
      from the start up to and including the last segment holding the end phrase
      (only the start rule applies when both are the same page, through the
      `elif`); other pages keep everything. A boundary page whose segments do
      not hold its phrase leaves the index unbound: `None`. */
  function TrimSegments(segs: seq<string>, pageKey: string, range: PageRange): Option<seq<string>>
  {
    if pageKey == range.startPage then
      match LastIndexContaining(segs, range.beginWords)
      case None => None
      case Some(i) => Some(segs[i..])
    else if pageKey == range.endPage then
      match LastIndexContaining(segs, range.endWords)
      case None => None
      case Some(i) => Some(segs[..i + 1])
    else Some(segs)
  }

  /** What the trimming keeps, stated without its index arithmetic. */
  lemma TrimSegmentsSpec(segs: seq<string>, pageKey: string, range: PageRange)
    ensures pageKey == range.startPage ==>
      (TrimSegments(segs, pageKey, range).None? <==> forall j :: 0 <= j < |segs| ==> !Contains(segs[j], range.beginWords))
    ensures pageKey == range.startPage && TrimSegments(segs, pageKey, range).Some? ==>
      exists i :: 0 <= i < |segs| && TrimSegments(segs, pageKey, range).value == segs[i..] && Contains(segs[i], range.beginWords)
        && forall j :: i < j < |segs| ==> !Contains(segs[j], range.beginWords)
    ensures pageKey != range.startPage && pageKey == range.endPage ==>
      (TrimSegments(segs, pageKey, range).None? <==> forall j :: 0 <= j < |segs| ==> !Contains(segs[j], range.endWords))
    ensures pageKey != range.startPage && pageKey == range.endPage && TrimSegments(segs, pageKey, range).Some? ==>
      exists i :: 0 <= i < |segs| && TrimSegments(segs, pageKey, range).value == segs[..i + 1] && Contains(segs[i], range.endWords)
        && forall j :: i < j < |segs| ==> !Contains(segs[j], range.endWords)
    ensures pageKey != range.startPage && pageKey != range.endPage ==> TrimSegments(segs, pageKey, range) == Some(segs)
  {
  }

  /** The sentences `get_paragraph` chunks for one page: clean the text, split
      it on `\r\n`, trim the boundary pages, join with spaces, tokenize. */
  function PageSentences(text: string, pageKey: string, range: PageRange, tokenize: string -> seq<string>)
    : Option<seq<string>>
  {
    var segs := Split(NormalizeFigures(text), "\r\n");
    match TrimSegments(segs, pageKey, range)
    case None => None
    case Some(kept) => Some(tokenize(Join(" ", kept)))
  }

  /** A page strictly inside the range reaches the tokenizer whole, with every
      `\r\n` turned into a space. */
  lemma InnerPageSentences(text: string, pageKey: string, range: PageRange, tokenize: string -> seq<string>)
    requires pageKey != range.startPage && pageKey != range.endPage
    ensures PageSentences(text, pageKey, range, tokenize) == Some(tokenize(Replace(NormalizeFigures(text), "\r\n", " ")))
  {
    JoinSplitIsReplace(NormalizeFigures(text), "\r\n", " ");
  }

  /** A phrase that spans a line break can select its page (page selection
      looks at the raw text) but can never trim it (trimming looks at the
      segments between line breaks), so that page makes the extraction fail. */
  lemma GluedPhraseNeverTrims(text: string, pageKey: string, range: PageRange, tokenize: string -> seq<string>)
    requires (pageKey == range.startPage && Contains(range.beginWords, "\r\n"))
          || (pageKey != range.startPage && pageKey == range.endPage && Contains(range.endWords, "\r\n"))
    ensures PageSentences(text, pageKey, range, tokenize) == None
  {
    var segs := Split(NormalizeFigures(text), "\r\n");
    SplitFieldsFree(NormalizeFigures(text), "\r\n");
    TrimSegmentsSpec(segs, pageKey, range);
    var phrase := if pageKey == range.startPage then range.beginWords else range.endWords;
    assert Contains(phrase, "\r\n");
    forall j | 0 <= j < |segs| ensures !Contains(segs[j], phrase) {
      if Contains(segs[j], phrase) {
        ContainsTransitive(segs[j], phrase, "\r\n");
      }
    }
  }

  /** A one-page document whose text is both answers selects that page as
      start and end page. */
  lemma OnePageSelects(text: string)
    requires text != Quit
    ensures SelectRange([(PageKey(0), text)], text, text) == Some(PageRange(PageKey(0), PageKey(0), text, text))
  {
    var articles := [(PageKey(0), text)];
    assert Texts(articles) == [text];
    assert Contains(text, text) by {
      assert text <= text;
      OccursImpliesContains(text, text, 0);
    }
    assert LastIndexContaining(Texts(articles), text) == Some(0);
  }

  /** On that one-page document, a page that trimming rejects makes the
      extraction fail with nothing written. */
  lemma OnePageUntrimmedFails(text: string, path: string, tokenize: string -> seq<string>)
    requires text != Quit
    requires PageSentences(text, PageKey(0), PageRange(PageKey(0), PageKey(0), text, text), tokenize) == None
    ensures Extract([(PageKey(0), text)], path, text, text, tokenize) == Outcome([], None)
  {
    var articles := [(PageKey(0), text)];
    var range := PageRange(PageKey(0), PageKey(0), text, text);
    OnePageSelects(text);
    ExtractVisitsRange(articles, path, text, text, tokenize);
    assert articles[0..1] == articles;
    var keys, plan := Keys(articles), PagePlan(articles, range, tokenize);
    assert plan[0] == None;
    assert keys[..0] == [] && plan[..0] == [];
    RunAdvance(path, keys, plan, 0, [], []);
  }

  /** On that one-page document a phrase with a line break in it makes the
      extraction fail with nothing written. */
  lemma OnePageGluedFails(text: string, path: string, tokenize: string -> seq<string>)
    requires text != Quit && Contains(text, "\r\n")
    ensures SelectRange([(PageKey(0), text)], text, text) == Some(PageRange(PageKey(0), PageKey(0), text, text))
    ensures Extract([(PageKey(0), text)], path, text, text, tokenize) == Outcome([], None)
  {
    OnePageSelects(text);
    GluedPhraseNeverTrims(text, PageKey(0), PageRange(PageKey(0), PageKey(0), text, text), tokenize);
    OnePageUntrimmedFails(text, path, tokenize);
  }

  /** Page selection looks at the raw text, trimming at the cleaned text: one
      page `"Fig. 3"` with `"Fig. 3"` typed for both phrases selects that page,
      but the clean-up has turned it into `"Fig 3"`, which no longer holds the
      phrase, so nothing is extracted and `iterate` returns `None`. */
  lemma FigurePhraseExample(path: string, tokenize: string -> seq<string>)
    ensures SelectRange([(PageKey(0), "Fig. 3")], "Fig. 3", "Fig. 3")
      == Some(PageRange(PageKey(0), PageKey(0), "Fig. 3", "Fig. 3"))
    ensures Extract([(PageKey(0), "Fig. 3")], path, "Fig. 3", "Fig. 3", tokenize) == Outcome([], None)
  {
    var text := "Fig. 3";
    assert text != Quit;
    OnePageSelects(text);
    assert text == "Fig." + " 3" && "Fig 3" == "Fig" + " 3";
    FigurePageCleaned(" 3");
    var range := PageRange(PageKey(0), PageKey(0), text, text);
    ShortNotContains("Fig 3", text);
    assert LastIndexContaining(["Fig 3"], text) == None;
    assert PageSentences(text, PageKey(0), range, tokenize) == None;
    OnePageUntrimmedFails(text, path, tokenize);
  }

  /** `Fig.` followed by fewer than four characters loses its `.`. */
  lemma FigureDotDropped(rest: string)
    requires |rest| < 4
    ensures Replace("Fig." + rest, "Fig.", "Fig") == "Fig" + rest
  {
    var s := "Fig." + rest;
    assert "Fig." <= s && s[4..] == rest;
  }

  /** The clean-up drops the `.` of `Fig.`, and the cleaned page has no line break. */
  lemma FigurePageCleaned(d: string)
    requires |d| < 4 && forall i :: 0 <= i < |d| ==> d[i] != 'f' && d[i] != '\U{2}' && d[i] != '\r'
    ensures NormalizeFigures("Fig." + d) == "Fig" + d
    ensures Split(NormalizeFigures("Fig." + d), "\r\n") == ["Fig" + d]
  {
    FigureDotDropped(d);
    var t := "Fig" + d;
    assert forall i :: 0 <= i < |t| ==> t[i] != 'f' && t[i] != '\U{2}' && t[i] != '\r' by {
      forall i | 0 <= i < |t| ensures t[i] != 'f' && t[i] != '\U{2}' && t[i] != '\r' {
        if i >= 3 {
          assert t[i] == d[i - 3];
        }
      }
    }
    assert "fig."[0] == 'f' && "\U{2}"[0] == '\U{2}' && "\r\n"[0] == '\r';
    MissingCharNotContains(t, "fig.", 0);
    ReplaceWithoutOccurrence(t, "fig.", "fig");
    MissingCharNotContains(t, "\U{2}", 0);
    ReplaceWithoutOccurrence(t, "\U{2}", "-");
    MissingCharNotContains(t, "\r\n", 0);
    SplitWithoutOccurrence(t, "\r\n");
  }


  /** One page `"a\r\nb"` and the answer `"a\r\nb"` for both phrases: the
      range is found, yet nothing is extracted and `iterate` returns `None`.
      `input()` stops at a line break, so only a caller passing the answers
      directly can reach this; `FigurePhraseExample` is a typed instance. */
  lemma GluedPhraseExample(path: string, tokenize: string -> seq<string>)
    ensures SelectRange([(PageKey(0), "a\r\nb")], "a\r\nb", "a\r\nb")
      == Some(PageRange(PageKey(0), PageKey(0), "a\r\nb", "a\r\nb"))
    ensures Extract([(PageKey(0), "a\r\nb")], path, "a\r\nb", "a\r\nb", tokenize) == Outcome([], None)
  {
    var phrase := "a\r\nb";
    assert phrase != Quit;
    assert phrase[1..3] == "\r\n";
    OccursImpliesContains(phrase, "\r\n", 1);
    OnePageSelects(phrase);
    OnePageGluedFails(phrase, path, tokenize);
  }

  // ---------------------------------------------------------------------------
  // iterate: page-index restriction
  // ---------------------------------------------------------------------------

  /** `{f"page_{i}": articles[f"page_{i}"] for i in range(lo, hi)}`, with a
      missing key as `None`; an empty range gives no pages. */
  function PagesInRange(articles: Articles, lo: nat, hi: nat): Option<Articles>
    decreases hi
  {
    if hi <= lo then Some([])
    else
      match PagesInRange(articles, lo, hi - 1)
      case None => None
      case Some(pages) =>
        match Lookup(articles, PageKey(hi - 1))
        case None => None
        case Some(text) => Some(pages + [(PageKey(hi - 1), text)])
  }

  lemma {:induction false} PagesInRangeNoneSticks(articles: Articles, lo: nat, i: nat, hi: nat)
    requires lo < i <= hi && PagesInRange(articles, lo, i) == None
    ensures PagesInRange(articles, lo, hi) == None
    decreases hi
  {
    if i < hi {
      PagesInRangeNoneSticks(articles, lo, i, hi - 1);
    }
  }

  /** The loop that rebuilds `new_articles` page by page. */
  method RestrictPages(articles: Articles, lo: nat, hi: nat) returns (pages: Option<Articles>)
    ensures pages == PagesInRange(articles, lo, hi)
  {
    var acc: Articles := [];
    var i := lo;
    while i < hi
      invariant lo <= i && (i <= hi || i == lo)
      invariant PagesInRange(articles, lo, i) == Some(acc)
    {
      var text := Lookup(articles, PageKey(i));
      if text.None? {
        PagesInRangeNoneSticks(articles, lo, i + 1, hi);
        return None;
      }
      acc := acc + [(PageKey(i), text.value)];
      i := i + 1;
    }
    return Some(acc);
  }

  lemma PagesInRangeSnoc(articles: Articles, lo: nat, hi: nat, pages: Articles, text: string)
    requires lo < hi && PagesInRange(articles, lo, hi - 1) == Some(pages)
    requires Lookup(articles, PageKey(hi - 1)) == Some(text)
    ensures PagesInRange(articles, lo, hi) == Some(pages + [(PageKey(hi - 1), text)])
  {
  }

  lemma SliceSnoc<T>(s: seq<T>, lo: nat, hi: nat)
    requires lo < hi <= |s|
    ensures s[lo..hi] == s[lo..hi - 1] + [s[hi - 1]]
  {
  }

  lemma {:induction false} PagesInRangeSlice(articles: Articles, lo: nat, hi: nat)
    requires KeyedByPage(articles) && lo <= hi <= |articles|
    ensures PagesInRange(articles, lo, hi) == Some(articles[lo..hi])
    decreases hi
  {
    if lo < hi {
      PagesInRangeSlice(articles, lo, hi - 1);
      LookupPageKey(articles, hi - 1);
      var page := articles[hi - 1];
      assert page == (PageKey(hi - 1), page.1);
      PagesInRangeSnoc(articles, lo, hi, articles[lo..hi - 1], page.1);
      SliceSnoc(articles, lo, hi);
    } else {
      assert articles[lo..hi] == [];
    }
  }

  /** On a dictionary built by `get_txt`, the restriction is the slice of pages
      `lo .. hi - 1`, in ascending order. */
  lemma PagesInRangeKeyed(articles: Articles, lo: nat, hi: nat)
    requires KeyedByPage(articles) && hi <= |articles|
    ensures PagesInRange(articles, lo, hi) == Some(if lo <= hi then articles[lo..hi] else [])
  {
    if lo <= hi {
      PagesInRangeSlice(articles, lo, hi);
    }
  }

  // ---------------------------------------------------------------------------
  // iterate
  // ---------------------------------------------------------------------------

  /** The sentence plan of every page of the range. */
  function PagePlan(pages: Articles, range: PageRange, tokenize: string -> seq<string>): seq<Option<seq<string>>>
  {
    seq(|pages|, k requires 0 <= k < |pages| => PageSentences(pages[k].1, pages[k].0, range, tokenize))
  }

  /** Everything `iterate` does on given answers: no range means nothing is
      written; otherwise pages `page_s .. page_e` are segmented in order until
      one fails. */
  function Extract(articles: Articles, path: string, beginWords: string, endWords: string,
                   tokenize: string -> seq<string>): Outcome
  {
    match SelectRange(articles, beginWords, endWords)
    case None => Outcome([], None)
    case Some(range) =>
      match (KeyIndex(range.startPage), KeyIndex(range.endPage))
      case (Some(s), Some(e)) =>
        (match PagesInRange(articles, s, e + 1)
         case None => Outcome([], None)
         case Some(pages) =>
           var run := Run(path, Keys(pages), PagePlan(pages, range, tokenize));
           Outcome(run.files, run.last))
      case _ => Outcome([], None)
  }

  lemma ExtractOfPages(articles: Articles, path: string, beginWords: string, endWords: string,
                       tokenize: string -> seq<string>, range: PageRange, s: nat, e: nat, pages: Articles)
    requires SelectRange(articles, beginWords, endWords) == Some(range)
    requires KeyIndex(range.startPage) == Some(s) && KeyIndex(range.endPage) == Some(e)
    requires PagesInRange(articles, s, e + 1) == Some(pages)
    ensures Extract(articles, path, beginWords, endWords, tokenize)
      == Outcome(Run(path, Keys(pages), PagePlan(pages, range, tokenize)).files,
                 Run(path, Keys(pages), PagePlan(pages, range, tokenize)).last)
  {
  }

  /** No range: nothing is written and `iterate` returns `None`. */
  lemma ExtractNoRange(articles: Articles, path: string, beginWords: string, endWords: string,
                       tokenize: string -> seq<string>)
    requires SelectRange(articles, beginWords, endWords).None?
    ensures Extract(articles, path, beginWords, endWords, tokenize) == Outcome([], None)
  {
  }

  /** A page key that is not `page_<n>`, or a page missing from the
      dictionary: nothing is written and `iterate` returns `None`. */
  lemma ExtractNoPages(articles: Articles, path: string, beginWords: string, endWords: string,
                       tokenize: string -> seq<string>, range: PageRange)
    requires SelectRange(articles, beginWords, endWords) == Some(range)
    requires KeyIndex(range.startPage).None? || KeyIndex(range.endPage).None?
      || PagesInRange(articles, KeyIndex(range.startPage).value, KeyIndex(range.endPage).value + 1).None?
    ensures Extract(articles, path, beginWords, endWords, tokenize) == Outcome([], None)
  {
  }

  /** On a dictionary built by `get_txt`, a selected range visits exactly the
      pages from the start page to the end page, in ascending order; a start
      page after the end page writes nothing and returns `None`. */
  lemma ExtractVisitsRange(articles: Articles, path: string, beginWords: string, endWords: string,
                           tokenize: string -> seq<string>)
    requires KeyedByPage(articles)
    requires SelectRange(articles, beginWords, endWords).Some?
    ensures var range := SelectRange(articles, beginWords, endWords).value;
      var s := LastIndexContaining(Texts(articles), beginWords).value;
      var e := LastIndexContaining(Texts(articles), endWords).value;
      var pages := if s <= e then articles[s..e + 1] else [];
      Extract(articles, path, beginWords, endWords, tokenize)
        == Outcome(Run(path, Keys(pages), PagePlan(pages, range, tokenize)).files,
                   Run(path, Keys(pages), PagePlan(pages, range, tokenize)).last)
    ensures LastIndexContaining(Texts(articles), endWords).value < LastIndexContaining(Texts(articles), beginWords).value
      ==> Extract(articles, path, beginWords, endWords, tokenize) == Outcome([], None)
  {
    SelectRangeKeyed(articles, beginWords, endWords);
    ExtractOfIndices(articles, path, beginWords, endWords, tokenize, SelectRange(articles, beginWords, endWords).value,
                     LastIndexContaining(Texts(articles), beginWords).value,
                     LastIndexContaining(Texts(articles), endWords).value);
  }

  /** On a dictionary built by `get_txt` the selected range holds the keys of
      the last pages holding each phrase. */
  lemma SelectRangeKeyed(articles: Articles, beginWords: string, endWords: string)
    requires KeyedByPage(articles)
    requires SelectRange(articles, beginWords, endWords).Some?
    ensures LastIndexContaining(Texts(articles), beginWords).Some?
    ensures LastIndexContaining(Texts(articles), endWords).Some?
    ensures SelectRange(articles, beginWords, endWords).value.startPage
      == PageKey(LastIndexContaining(Texts(articles), beginWords).value)
    ensures SelectRange(articles, beginWords, endWords).value.endPage
      == PageKey(LastIndexContaining(Texts(articles), endWords).value)
  {
    var so := LastIndexContaining(Texts(articles), beginWords);
    var eo := LastIndexContaining(Texts(articles), endWords);
    assert so.Some? && eo.Some?;
    assert articles[so.value].0 == PageKey(so.value);
    assert articles[eo.value].0 == PageKey(eo.value);
  }

  /** `iterate` on a range whose start and end keys are the page keys of
      indices `s` and `e` runs the pages between them. */
  lemma ExtractOfIndices(articles: Articles, path: string, beginWords: string, endWords: string,
                         tokenize: string -> seq<string>, range: PageRange, s: nat, e: nat)
    requires KeyedByPage(articles) && s < |articles| && e < |articles|
    requires SelectRange(articles, beginWords, endWords) == Some(range)
    requires range.startPage == PageKey(s) && range.endPage == PageKey(e)
    ensures var pages := if s <= e then articles[s..e + 1] else [];
      Extract(articles, path, beginWords, endWords, tokenize)
        == Outcome(Run(path, Keys(pages), PagePlan(pages, range, tokenize)).files,
                   Run(path, Keys(pages), PagePlan(pages, range, tokenize)).last)
    ensures e < s ==> Extract(articles, path, beginWords, endWords, tokenize) == Outcome([], None)
  {
    KeyIndexOfPageKey(s);
    KeyIndexOfPageKey(e);
    PagesInRangeKeyed(articles, s, e + 1);
    if s <= e {
      ExtractOfPages(articles, path, beginWords, endWords, tokenize, range, s, e, articles[s..e + 1]);
    } else {
      ExtractOfPages(articles, path, beginWords, endWords, tokenize, range, s, e, []);
      assert Keys([]) == [];
    }
  }

  /** The start page a failed `get_page_range` leaves stored: the last page
      holding the begin phrase when that phrase was found (the end phrase was
      not), otherwise the value stored before. */
  function StartPageOnFailure(articles: Articles, beginWords: string, endWords: string, previous: string): string
  {
    var s := LastIndexContaining(Texts(articles), beginWords);
    if beginWords != Quit && endWords != Quit && s.Some? then articles[s.value].0 else previous
  }

  /** The extractor object: `path` is the `before/` directory, `articles` the
      page dictionary, the four range fields what `get_page_range` stored, and
      `written` every chunk file saved so far. */
  class PdfToText {
    var path: string
    var articles: Articles
    var startPage: string
    var endPage: string
    var beginWords: string
    var endWords: string
    var written: seq<FileWrite>

    constructor (path: string)
      ensures this.path == path && articles == [] && written == []
    {
      this.path := path;
      articles := [];
      startPage, endPage, beginWords, endWords := "", "", "", "";
      written := [];
    }

    function CurrentRange(): PageRange
      reads this`startPage, this`endPage, this`beginWords, this`endWords
    {
      PageRange(startPage, endPage, beginWords, endWords)
    }

    /** `get_txt`, with the PDF reader's page texts given: `page_<i>` for every page. */
    method GetTxt(pageTexts: seq<string>) returns (r: Articles)
      modifies this`articles
      ensures articles == r && |r| == |pageTexts| && KeyedByPage(r)
      ensures forall i :: 0 <= i < |pageTexts| ==> r[i].1 == pageTexts[i]
    {
      r := BuildArticles(pageTexts);
      articles := r;
    }

    /** `get_page_range` with the two `input()` answers as parameters. The start
        page is stored before the end page is read, so a begin phrase that is
        found with an end phrase that is not still updates `start_page`. */
    method GetPageRange(beginWords: string, endWords: string) returns (r: Option<PageRange>)
      modifies this`startPage, this`endPage, this`beginWords, this`endWords
      ensures r == SelectRange(articles, beginWords, endWords)
      ensures r.Some? ==> CurrentRange() == r.value
      ensures r.None? ==> endPage == old(endPage) && this.beginWords == old(this.beginWords)
                          && this.endWords == old(this.endWords)
      ensures r.None? ==> startPage == StartPageOnFailure(articles, beginWords, endWords, old(startPage))
    {
      if beginWords != Quit && endWords != Quit {
        var s, e := ScanPages(articles, beginWords, endWords);
        if s.None? {
          return None;
        }
        startPage := articles[s.value].0;
        if e.None? {
          return None;
        }
        endPage := articles[e.value].0;
        this.beginWords := beginWords;
        this.endWords := endWords;
        return Some(CurrentRange());
      }
      return None;
    }

    /** `get_paragraph` for one page under the stored range: it appends the
        page's chunk files and returns the last chunk and the path, or `None`
        (nothing written) when a boundary page cannot be trimmed or the page
        has no sentences. */
    method GetParagraph(text: string, pageNum: string, tokenize: string -> seq<string>)
      returns (r: Option<(string, string)>)
      modifies this`written
      ensures var plan := PageSentences(text, pageNum, CurrentRange(), tokenize);
        written == old(written) + PageFiles(path, pageNum, plan)
        && r == (if PageFails(plan) then None else Some((LastChunkText(plan.value).value, path)))
    {
      var segs := Split(NormalizeFigures(text), "\r\n");
      ghost var trimmed := TrimSegments(segs, pageNum, CurrentRange());
      var kept: seq<string>;
      if pageNum == startPage {
        var idx := FindLast(segs, beginWords);
        if idx.None? {
          assert trimmed == None;
          return None;
        }
        kept := segs[idx.value..];
      } else if pageNum == endPage {
        var idx := FindLast(segs, endWords);
        if idx.None? {
          assert trimmed == None;
          return None;
        }
        kept := segs[..idx.value + 1];
      } else {
        kept := segs;
      }
      assert trimmed == Some(kept);
      var sents := tokenize(Join(" ", kept));
      assert PageSentences(text, pageNum, CurrentRange(), tokenize) == Some(sents);
      var files, last := ChunkWrites(path, pageNum, sents);
      written := written + files;
      if last.None? {
        return None;
      }
      return Some((last.value, path));
    }

    /** `iterate` with the two answers as parameters: select the range, restrict
        the pages to it, segment them in order, and stop at the first failure. */
    method Iterate(beginWords: string, endWords: string, tokenize: string -> seq<string>)
      returns (r: Option<string>)
      modifies this`startPage, this`endPage, this`beginWords, this`endWords, this`written
      ensures written == old(written) + Extract(articles, path, beginWords, endWords, tokenize).files
      ensures r == Extract(articles, path, beginWords, endWords, tokenize).doc
      ensures var sel := SelectRange(articles, beginWords, endWords);
        sel.Some? ==> CurrentRange() == sel.value
      ensures SelectRange(articles, beginWords, endWords).None? ==>
        endPage == old(endPage) && this.beginWords == old(this.beginWords) && this.endWords == old(this.endWords)
        && startPage == StartPageOnFailure(articles, beginWords, endWords, old(startPage))
    {
      var range := GetPageRange(beginWords, endWords);
      if range.None? {
        ExtractNoRange(articles, path, beginWords, endWords, tokenize);
        return None;
      }
      assert CurrentRange() == range.value;
      var s := KeyIndex(startPage);
      var e := KeyIndex(endPage);
      if s.None? || e.None? {
        ExtractNoPages(articles, path, beginWords, endWords, tokenize, range.value);
        return None;
      }
      var found := RestrictPages(articles, s.value, e.value + 1);
      if found.None? {
        ExtractNoPages(articles, path, beginWords, endWords, tokenize, range.value);
        return None;
      }
      r := SegmentPages(found.value, range.value, tokenize);
      ExtractOfPages(articles, path, beginWords, endWords, tokenize, range.value, s.value, e.value, found.value);
    }

    /** The loop `for k, v in new_articles.items(): doc, self.path = self.get_paragraph(v, k)`. */
    method SegmentPages(pages: Articles, range: PageRange, tokenize: string -> seq<string>)
      returns (r: Option<string>)
      requires CurrentRange() == range
      modifies this`written
      ensures written == old(written) + Run(path, Keys(pages), PagePlan(pages, range, tokenize)).files
      ensures r == Run(path, Keys(pages), PagePlan(pages, range, tokenize)).last
    {
      ghost var keys := Keys(pages);
      ghost var plan := PagePlan(pages, range, tokenize);
      r := None;
      var k := 0;
      while k < |pages|
        invariant 0 <= k <= |pages|
        invariant CurrentRange() == range
        invariant written == old(written) + Run(path, keys[..k], plan[..k]).files
        invariant !Run(path, keys[..k], plan[..k]).aborted
        invariant r == Run(path, keys[..k], plan[..k]).last
      {
        var res := GetParagraph(pages[k].1, pages[k].0, tokenize);
        assert keys[k] == pages[k].0;
        assert plan[k] == PageSentences(pages[k].1, pages[k].0, range, tokenize);
        RunAdvance(path, keys, plan, k, old(written), written);
        if res.None? {
          return None;
        }
        r := Some(res.value.0);
        k := k + 1;
      }
      assert keys[..k] == keys && plan[..k] == plan;
    }
  }
}

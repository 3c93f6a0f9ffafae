/**
  The whole-document extractor (extract_text_all.py): every page, in page
  order, goes through the same chunker as the range-bounded extractor, with
  no trimming and with one more clean-up step (`\x00` becomes a space).
  The PDF reader is outside the model: the pages arrive as texts, and NLTK's
  `sent_tokenize` arrives as the parameter `tokenize`.
*/
module ExtractTextAll {
  import opened Wrappers
  import opened PyStr
  import opened Segmenter

  /** The four clean-up steps in order: `Fig.`, `fig.`, `\x02` -> `-`, `\x00` -> ` `. */
  function NormalizeAll(text: string): string
  {
    Replace(NormalizeFigures(text), "\U{0}", " ")
  }

  /** Both control-character steps keep the length, and neither control
      character survives; the whole chain never lengthens the text. */
  lemma NormalizeAllSpec(text: string)
    ensures |NormalizeAll(text)| == |NormalizeFigures(text)| <= |text|
    ensures forall i :: 0 <= i < |NormalizeAll(text)| ==>
      NormalizeAll(text)[i] != '\U{0}' && NormalizeAll(text)[i] != '\U{2}'
  {
    var figures := NormalizeFigures(text);
    NormalizeFiguresSpec(text);
    assert "\U{0}" == ['\U{0}'] && " " == [' '];
    ReplaceCharByChar(figures, '\U{0}', ' ');
    forall i | 0 <= i < |NormalizeAll(text)|
      ensures NormalizeAll(text)[i] != '\U{0}' && NormalizeAll(text)[i] != '\U{2}'
    {
      assert NormalizeAll(text)[i] == (if figures[i] == '\U{0}' then ' ' else figures[i]);
    }
  }

  /** The sentences of one page: clean, split on `\r\n`, join with spaces, tokenize. */
  function PageSentencesAll(text: string, tokenize: string -> seq<string>): seq<string>
  {
    tokenize(Join(" ", Split(NormalizeAll(text), "\r\n")))
  }

  /** Without range trimming the tokenizer receives the whole cleaned page,
      every `\r\n` replaced by a space, split into one segment more than there
      are line breaks. */
  lemma WholePageReachesTokenizer(text: string, tokenize: string -> seq<string>)
    ensures PageSentencesAll(text, tokenize) == tokenize(Replace(NormalizeAll(text), "\r\n", " "))
    ensures |Split(NormalizeAll(text), "\r\n")| == Count(NormalizeAll(text), "\r\n") + 1
  {
    JoinSplitIsReplace(NormalizeAll(text), "\r\n", " ");
    SplitLength(NormalizeAll(text), "\r\n");
  }

  /** The sentence plan of every page of the dictionary. */
  function PlanAll(articles: Articles, tokenize: string -> seq<string>): seq<Option<seq<string>>>
  {
    seq(|articles|, k requires 0 <= k < |articles| => Some(PageSentencesAll(articles[k].1, tokenize)))
  }

  /** Everything `iterate` does: every page in dictionary order until a page
      without sentences makes the unpacking fail. */
  function ExtractAll(articles: Articles, path: string, tokenize: string -> seq<string>): Outcome
  {
    var run := Run(path, Keys(articles), PlanAll(articles, tokenize));
    Outcome(run.files, run.last)
  }

  /** When every page has a sentence, `iterate` writes every page's chunks,
      page `page_0` first, and returns the last chunk of the last page. */
  lemma ExtractAllWritesEveryPage(articles: Articles, path: string, tokenize: string -> seq<string>)
    requires KeyedByPage(articles)
    requires forall k :: 0 <= k < |articles| ==> |PageSentencesAll(articles[k].1, tokenize)| > 0
    ensures ExtractAll(articles, path, tokenize).files ==
      Flatten(seq(|articles|, k requires 0 <= k < |articles| =>
        ChunkFiles(path, PageKey(k), PageSentencesAll(articles[k].1, tokenize))))
    ensures |articles| > 0 ==>
      ExtractAll(articles, path, tokenize).doc == LastChunkText(PageSentencesAll(articles[|articles| - 1].1, tokenize))
  {
    var keys, plan := Keys(articles), PlanAll(articles, tokenize);
    RunAllSucceed(path, keys, plan);
    var a := PageFileLists(path, keys, plan);
    var b := seq(|articles|, k requires 0 <= k < |articles| =>
        ChunkFiles(path, PageKey(k), PageSentencesAll(articles[k].1, tokenize)));
    assert a == b;
  }

  /** The first page without sentences stops `iterate`: only the pages before it
      are written and it returns `None`. */
  lemma ExtractAllStopsAtEmptyPage(articles: Articles, path: string, tokenize: string -> seq<string>, j: nat)
    requires KeyedByPage(articles) && j < |articles|
    requires |PageSentencesAll(articles[j].1, tokenize)| == 0
    requires forall k :: 0 <= k < j ==> |PageSentencesAll(articles[k].1, tokenize)| > 0
    ensures ExtractAll(articles, path, tokenize).doc == None
    ensures ExtractAll(articles, path, tokenize).files ==
      Flatten(seq(j, k requires 0 <= k < j => ChunkFiles(path, PageKey(k), PageSentencesAll(articles[k].1, tokenize))))
  {
    var keys, plan := Keys(articles), PlanAll(articles, tokenize);
    RunStopsAtFirstFailure(path, keys, plan, j);
    var a := PageFileLists(path, keys[..j], plan[..j]);
    var b := seq(j, k requires 0 <= k < j => ChunkFiles(path, PageKey(k), PageSentencesAll(articles[k].1, tokenize)));
    assert a == b;
  }

  /** The extractor object: `path` is the `before/` directory, `articles` the
      page dictionary, `written` every chunk file saved so far. */
  class PdfToText {
    var path: string
    var articles: Articles
    var written: seq<FileWrite>

    constructor (path: string)
      ensures this.path == path && articles == [] && written == []
    {
      this.path := path;
      articles := [];
      written := [];
    }

    /** `get_txt`, with the PDF reader's page texts given: `page_<i>` for every page. */
    method GetTxt(pageTexts: seq<string>) returns (r: Articles)
      modifies this`articles
      ensures articles == r && |r| == |pageTexts| && KeyedByPage(r)
      ensures forall i :: 0 <= i < |pageTexts| ==> r[i].1 == pageTexts[i]
    {
      r := BuildArticles(pageTexts);
      articles := r;
    }

    /** `get_paragraph` for one page: it appends the page's chunk files and
        returns the last chunk and the path, or `None` (nothing written) when
        the page has no sentences. */
    method GetParagraph(text: string, pageNum: string, tokenize: string -> seq<string>)
      returns (r: Option<(string, string)>)
      modifies this`written
      ensures var sents := PageSentencesAll(text, tokenize);
        written == old(written) + ChunkFiles(path, pageNum, sents)
        && r == (if |sents| == 0 then None else Some((LastChunkText(sents).value, path)))
    {
      var splitted := Split(NormalizeAll(text), "\r\n");
      var sents := tokenize(Join(" ", splitted));
      var files, last := ChunkWrites(path, pageNum, sents);
      written := written + files;
      if last.None? {
        return None;
      }
      return Some((last.value, path));
    }

    /** `iterate`: every page in dictionary order, stopping at the first page
        without sentences. */
    method Iterate(tokenize: string -> seq<string>) returns (r: Option<string>)
      modifies this`written
      ensures written == old(written) + ExtractAll(articles, path, tokenize).files
      ensures r == ExtractAll(articles, path, tokenize).doc
    {
      ghost var keys := Keys(articles);
      ghost var plan := PlanAll(articles, tokenize);
      r := None;
      var k := 0;
      while k < |articles|
        invariant 0 <= k <= |articles|
        invariant written == old(written) + Run(path, keys[..k], plan[..k]).files
        invariant !Run(path, keys[..k], plan[..k]).aborted
        invariant r == Run(path, keys[..k], plan[..k]).last
      {
        var res := GetParagraph(articles[k].1, articles[k].0, tokenize);
        assert keys[k] == articles[k].0;
        assert plan[k] == Some(PageSentencesAll(articles[k].1, tokenize));
        RunAdvance(path, keys, plan, k, old(written), written);
        if res.None? {
          return None;
        }
        r := Some(res.value.0);
        k := k + 1;
      }
      assert keys[..k] == keys && plan[..k] == plan;
    }
  }
}

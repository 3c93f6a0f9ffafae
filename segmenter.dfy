/**
  The paragraph segmenter shared by both extractors (extract_text.py and
  extract_text_all.py carry identical copies of it): page keys, the
  `Fig.`/`fig.`/`\x02` clean-up, the last-match search the range trimming and
  the page-range scan both use, the five-sentence chunker with the names it
  writes, and the page loop that stops at the first page that fails.

  File writes are values: a run appends `FileWrite(location, contents)` items
  to a log instead of touching a disk.
*/
module Segmenter {
  import opened Wrappers
  import opened PyStr

  datatype FileWrite = FileWrite(location: string, contents: string)

  /** Sentences per chunk file. */
  const ChunkSize: nat := 5

  // ---------------------------------------------------------------------------
  // Page keys and chunk file names
  // ---------------------------------------------------------------------------

  /** The dictionary key of page `i`: `f"page_{i}"`. */
  function PageKey(i: nat): string
  {
    "page_" + NatToString(i)
  }

  /** `int(key.split("_")[1])`, with the `IndexError`/`ValueError` paths as `None`. */
  function KeyIndex(key: string): Option<nat>
  {
    var fields := Split(key, "_");
    if |fields| < 2 then None else ParseNat(fields[1])
  }

  /** `page_<i>` splits on `_` into `page` and the digits of `i`. */
  lemma PageKeyFields(i: nat)
    ensures Split(PageKey(i), "_") == ["page", NatToString(i)]
  {
    var d := NatToString(i);
    assert PageKey(i) == "page" + ['_'] + d;
    SplitCharConcat("page", '_', d);
    SplitCharAbsent(d, '_');
  }

  /** The index parsed back out of a page key is the page's own index. */
  lemma KeyIndexOfPageKey(i: nat)
    ensures KeyIndex(PageKey(i)) == Some(i)
  {
    PageKeyFields(i);
    ParseNatToString(i);
  }

  lemma PageKeyInjective(i: nat, j: nat)
    requires PageKey(i) == PageKey(j)
    ensures i == j
  {
    KeyIndexOfPageKey(i);
    KeyIndexOfPageKey(j);
  }

  /** The name `save_text` gives chunk `idx` of page `pageKey`: `f"{page_num}_{idx}.txt"`. */
  function ChunkFileName(pageKey: string, idx: nat): string
  {
    pageKey + "_" + NatToString(idx) + ".txt"
  }

  // ---------------------------------------------------------------------------
  // Text clean-up
  // ---------------------------------------------------------------------------

  /** `Fig.` -> `Fig`, then `fig.` -> `fig`, then `\x02` -> `-`, in that order. */
  function NormalizeFigures(text: string): string
  {
    var noFig := Replace(text, "Fig.", "Fig");
    var noLowerFig := Replace(noFig, "fig.", "fig");
    Replace(noLowerFig, "\U{2}", "-")
  }

  /** The first two steps never lengthen the text, the last keeps its length
      and leaves no `\x02` behind. */
  lemma NormalizeFiguresSpec(text: string)
    ensures |Replace(text, "Fig.", "Fig")| <= |text|
    ensures |Replace(Replace(text, "Fig.", "Fig"), "fig.", "fig")| <= |Replace(text, "Fig.", "Fig")|
    ensures |NormalizeFigures(text)| == |Replace(Replace(text, "Fig.", "Fig"), "fig.", "fig")|
    ensures forall i :: 0 <= i < |NormalizeFigures(text)| ==> NormalizeFigures(text)[i] != '\U{2}'
  {
    var noFig := Replace(text, "Fig.", "Fig");
    var noLowerFig := Replace(noFig, "fig.", "fig");
    ReplaceNeverLengthens(text, "Fig.", "Fig");
    ReplaceNeverLengthens(noFig, "fig.", "fig");
    assert "\U{2}" == ['\U{2}'] && "-" == ['-'];
    ReplaceCharRemovesIt(noLowerFig, '\U{2}', '-');
  }

  // ---------------------------------------------------------------------------
  // Last match
  // ---------------------------------------------------------------------------

  /** The index of the last string holding `phrase`: the value a loop that
      reassigns the index on every match ends with. */
  function LastIndexContaining(xs: seq<string>, phrase: string): (r: Option<nat>)
    ensures r.Some? ==> r.value < |xs| && Contains(xs[r.value], phrase)
    ensures r.Some? ==> forall j :: r.value < j < |xs| ==> !Contains(xs[j], phrase)
    ensures r.None? <==> forall j :: 0 <= j < |xs| ==> !Contains(xs[j], phrase)
    decreases |xs|
  {
    if |xs| == 0 then None
    else if Contains(xs[|xs| - 1], phrase) then Some(|xs| - 1)
    else LastIndexContaining(xs[..|xs| - 1], phrase)
  }

  /** `for i, j in enumerate(xs): if phrase in j: idx = i` */
  method FindLast(xs: seq<string>, phrase: string) returns (idx: Option<nat>)
    ensures idx == LastIndexContaining(xs, phrase)
  {
    idx := None;
    var i := 0;
    while i < |xs|
      invariant 0 <= i <= |xs|
      invariant idx == LastIndexContaining(xs[..i], phrase)
    {
      assert xs[..i + 1][..i] == xs[..i];
      if Contains(xs[i], phrase) {
        idx := Some(i);
      }
      i := i + 1;
    }
    assert xs[..|xs|] == xs;
  }

  // ---------------------------------------------------------------------------
  // The page dictionary
  // ---------------------------------------------------------------------------

  /** A Python dict from page key to page text, as its items in insertion order. */
  type Articles = seq<(string, string)>

  /** The shape `get_txt` produces: the `i`-th item is keyed `page_<i>`. */
  predicate KeyedByPage(articles: Articles)
  {
    forall i :: 0 <= i < |articles| ==> articles[i].0 == PageKey(i)
  }

  /** The keys of a dictionary, in order. */
  function Keys(articles: Articles): seq<string>
  {
    seq(|articles|, i requires 0 <= i < |articles| => articles[i].0)
  }

  /** `get_txt`'s loop: `articles[f"page_{i}"] = text` for every page in order. */
  method BuildArticles(texts: seq<string>) returns (articles: Articles)
    ensures |articles| == |texts| && KeyedByPage(articles)
    ensures forall i :: 0 <= i < |texts| ==> articles[i].1 == texts[i]
  {
    articles := [];
    var i := 0;
    while i < |texts|
      invariant 0 <= i <= |texts| && |articles| == i && KeyedByPage(articles)
      invariant forall j :: 0 <= j < i ==> articles[j].1 == texts[j]
    {
      articles := articles + [(PageKey(i), texts[i])];
      i := i + 1;
    }
  }

  /** `articles[key]`, with the `KeyError` path as `None`. */
  function Lookup(articles: Articles, key: string): Option<string>
    decreases |articles|
  {
    if |articles| == 0 then None
    else if articles[0].0 == key then Some(articles[0].1)
    else Lookup(articles[1..], key)
  }

  lemma {:induction false} LookupShifted(articles: Articles, base: nat, i: nat)
    requires forall j :: 0 <= j < |articles| ==> articles[j].0 == PageKey(base + j)
    requires base <= i
    ensures Lookup(articles, PageKey(i)) == if i - base < |articles| then Some(articles[i - base].1) else None
    decreases |articles|
  {
    if |articles| > 0 && i != base {
      if articles[0].0 == PageKey(i) {
        PageKeyInjective(base, i);
      }
      LookupShifted(articles[1..], base + 1, i);
    }
  }

  /** In a dictionary built by `get_txt`, `page_<i>` finds the `i`-th page and
      a key past the last page is a `KeyError`. */
  lemma LookupPageKey(articles: Articles, i: nat)
    requires KeyedByPage(articles)
    ensures Lookup(articles, PageKey(i)) == if i < |articles| then Some(articles[i].1) else None
  {
    LookupShifted(articles, 0, i);
  }

  // ---------------------------------------------------------------------------
  // Five-sentence chunks
  // ---------------------------------------------------------------------------

  /** `int(np.ceil(n / 5))`: the number of chunk files for `n` sentences. */
  function ChunkCount(n: nat): nat
  {
    (n + ChunkSize - 1) / ChunkSize
  }

  /** `np.ceil(n / 5) * 5` lies between `n` and `n + 4`. */
  lemma ChunkCountBounds(n: nat)
    ensures n <= ChunkSize * ChunkCount(n) <= n + ChunkSize - 1
  {
  }

  function Min(a: int, b: int): int
  {
    if a <= b then a else b
  }

  /** The sentences of chunk `idx`: from `5 * idx` up to `5 * idx + 5`, cut at
      the end of the page. Every chunk but the last holds five, the last one to five. */
  function ChunkSentences(sents: seq<string>, idx: nat): (chunk: seq<string>)
    requires idx < ChunkCount(|sents|)
    ensures 1 <= |chunk| <= ChunkSize
    ensures idx + 1 < ChunkCount(|sents|) ==> |chunk| == ChunkSize
    ensures idx + 1 == ChunkCount(|sents|) ==> |chunk| == |sents| - ChunkSize * idx
  {
    sents[ChunkSize * idx .. Min(ChunkSize * idx + ChunkSize, |sents|)]
  }

  /** An independent description of the chunking: peel off five sentences at a time. */
  function Chunks(sents: seq<string>): seq<seq<string>>
    decreases |sents|
  {
    if |sents| == 0 then []
    else if |sents| <= ChunkSize then [sents]
    else [sents[..ChunkSize]] + Chunks(sents[ChunkSize..])
  }

  function Flatten<T>(xss: seq<seq<T>>): seq<T>
    decreases |xss|
  {
    if |xss| == 0 then [] else xss[0] + Flatten(xss[1..])
  }

  /** Chunk `idx` of a page is chunk `idx - 1` of the page without its first five sentences. */
  lemma ChunkShift(sents: seq<string>, idx: nat)
    requires |sents| > ChunkSize && 0 < idx < ChunkCount(|sents|)
    ensures ChunkCount(|sents| - ChunkSize) == ChunkCount(|sents|) - 1
    ensures ChunkSentences(sents[ChunkSize..], idx - 1) == ChunkSentences(sents, idx)
  {
    var n, rest := |sents|, sents[ChunkSize..];
    assert ChunkCount(n) == 1 + ChunkCount(n - ChunkSize);
    var lo := ChunkSize * (idx - 1);
    assert ChunkSize * idx == lo + ChunkSize;
    var hi := Min(lo + ChunkSize, n - ChunkSize);
    assert Min(lo + ChunkSize + ChunkSize, n) == hi + ChunkSize;
    assert ChunkSentences(rest, idx - 1) == rest[lo..hi];
    assert ChunkSentences(sents, idx) == sents[lo + ChunkSize..hi + ChunkSize];
    forall i | 0 <= i < hi - lo ensures rest[lo..hi][i] == sents[lo + ChunkSize..hi + ChunkSize][i] {
      assert rest[lo + i] == sents[ChunkSize + lo + i];
    }
  }

  /** The index arithmetic of the source picks exactly the chunks of `Chunks`. */
  lemma {:induction false} ChunksAgree(sents: seq<string>)
    ensures |Chunks(sents)| == ChunkCount(|sents|)
    ensures forall idx :: 0 <= idx < ChunkCount(|sents|) ==> Chunks(sents)[idx] == ChunkSentences(sents, idx)
    decreases |sents|
  {
    var n := |sents|;
    if n > ChunkSize {
      var rest := sents[ChunkSize..];
      ChunksAgree(rest);
      assert ChunkCount(n) == 1 + ChunkCount(n - ChunkSize);
      forall idx | 0 <= idx < ChunkCount(n)
        ensures Chunks(sents)[idx] == ChunkSentences(sents, idx)
      {
        if idx > 0 {
          assert Chunks(sents)[idx] == Chunks(rest)[idx - 1];
          ChunkShift(sents, idx);
        }
      }
    }
  }

  /** The chunks, in index order, are the sentence list exactly once. */
  lemma {:induction false} ChunksCover(sents: seq<string>)
    ensures Flatten(Chunks(sents)) == sents
    decreases |sents|
  {
    if |sents| > ChunkSize {
      ChunksCover(sents[ChunkSize..]);
      assert Chunks(sents)[1..] == Chunks(sents[ChunkSize..]);
      assert sents[..ChunkSize] + sents[ChunkSize..] == sents;
    } else if |sents| > 0 {
      assert Chunks(sents)[1..] == [];
    }
  }

  /** The text of the last chunk written for a page, `None` for a page without sentences. */
  function LastChunkText(sents: seq<string>): Option<string>
  {
    if |sents| == 0 then None
    else Some(Join(" ", ChunkSentences(sents, ChunkCount(|sents|) - 1)))
  }

  /** The files one page's chunks become, in index order. */
  function ChunkFiles(path: string, pageKey: string, sents: seq<string>): seq<FileWrite>
  {
    seq(ChunkCount(|sents|), idx requires 0 <= idx < ChunkCount(|sents|) =>
      FileWrite(path + ChunkFileName(pageKey, idx), Join(" ", ChunkSentences(sents, idx))))
  }

  /** The chunk loop of `get_paragraph`: `multiples_5 = np.arange(0, end, 5)`,
      a full five-sentence slice for every start but the last, the rest of the
      page for the last, one `save_text` per chunk. */
  method ChunkWrites(path: string, pageKey: string, sents: seq<string>)
    returns (files: seq<FileWrite>, last: Option<string>)
    ensures |files| == ChunkCount(|sents|)
    ensures forall idx :: 0 <= idx < |files| ==>
      files[idx] == FileWrite(path + ChunkFileName(pageKey, idx), Join(" ", ChunkSentences(sents, idx)))
    ensures files == ChunkFiles(path, pageKey, sents)
    ensures last == LastChunkText(sents)
  {
    ChunkCountBounds(|sents|);
    var end := ChunkCount(|sents|) * ChunkSize;
    files, last := [], None;
    var idx := 0;
    while idx * ChunkSize < end
      invariant 0 <= idx <= ChunkCount(|sents|)
      invariant files == ChunkFiles(path, pageKey, sents)[..idx]
      invariant last == if idx == 0 then None else Some(files[idx - 1].contents)
    {
      var first := idx * ChunkSize;
      var doc: string;
      if first != end - ChunkSize {
        assert idx + 1 < ChunkCount(|sents|);
        assert sents[first..first + ChunkSize] == ChunkSentences(sents, idx);
        doc := Join(" ", sents[first..first + ChunkSize]);
      } else {
        assert sents[first..] == ChunkSentences(sents, idx);
        doc := Join(" ", sents[first..]);
      }
      files := files + [FileWrite(path + ChunkFileName(pageKey, idx), doc)];
      last := Some(doc);
      idx := idx + 1;
    }
    assert files == ChunkFiles(path, pageKey, sents);
  }

  // ---------------------------------------------------------------------------
  // The page loop
  // ---------------------------------------------------------------------------

  /** What a page loop leaves behind: the files written, whether it stopped
      on a failing page, and the last chunk text (`doc`) when it did not. */
  datatype RunResult = RunResult(files: seq<FileWrite>, aborted: bool, last: Option<string>)

  /** A page whose `get_paragraph` returns `None`: it was not trimmable
      (`None`) or it has no sentences. */
  predicate PageFails(sents: Option<seq<string>>)
  {
    sents.None? || |sents.value| == 0
  }

  /** The files a page contributes when it succeeds. */
  function PageFiles(path: string, key: string, sents: Option<seq<string>>): seq<FileWrite>
  {
    if sents.None? then [] else ChunkFiles(path, key, sents.value)
  }

  /** `for k, v in pages: doc, self.path = self.get_paragraph(v, k)`: each page
      writes its chunks; the first failing page makes the unpacking raise,
      which ends the loop and the call. `plan[k]` is the sentence list page
      `keys[k]` hands to the chunker, or `None` when it cannot be trimmed. */
  function Run(path: string, keys: seq<string>, plan: seq<Option<seq<string>>>): RunResult
    requires |keys| == |plan|
    decreases |keys|
  {
    if |keys| == 0 then RunResult([], false, None)
    else
      var n := |keys| - 1;
      var prev := Run(path, keys[..n], plan[..n]);
      if prev.aborted then prev
      else if PageFails(plan[n]) then RunResult(prev.files, true, None)
      else RunResult(prev.files + ChunkFiles(path, keys[n], plan[n].value), false, LastChunkText(plan[n].value))
  }

  /** What an extractor's `iterate` leaves behind: the chunk files written and
      the `doc` it returns (`None` for every failure the outer handler swallows). */
  datatype Outcome = Outcome(files: seq<FileWrite>, doc: Option<string>)

  /** One more page: a failing page aborts the run and writes nothing, a
      succeeding page appends its chunk files. */
  lemma RunStep(path: string, keys: seq<string>, plan: seq<Option<seq<string>>>, k: nat)
    requires |keys| == |plan| && k < |keys|
    requires !Run(path, keys[..k], plan[..k]).aborted
    ensures PageFails(plan[k]) ==> PageFiles(path, keys[k], plan[k]) == []
    ensures Run(path, keys[..k + 1], plan[..k + 1]) ==
      if PageFails(plan[k]) then RunResult(Run(path, keys[..k], plan[..k]).files, true, None)
      else RunResult(Run(path, keys[..k], plan[..k]).files + PageFiles(path, keys[k], plan[k]), false,
                     LastChunkText(plan[k].value))
  {
    assert keys[..k + 1][..k] == keys[..k] && plan[..k + 1][..k] == plan[..k];
    if plan[k].Some? && |plan[k].value| == 0 {
      assert ChunkCount(0) == 0;
    }
  }

  /** Once a run has aborted, later pages change nothing. */
  lemma {:induction false} RunAbortSticks(path: string, keys: seq<string>, plan: seq<Option<seq<string>>>, j: nat)
    requires |keys| == |plan| && j <= |keys|
    requires Run(path, keys[..j], plan[..j]).aborted
    ensures Run(path, keys, plan) == Run(path, keys[..j], plan[..j])
    decreases |keys|
  {
    if j < |keys| {
      var n := |keys| - 1;
      assert keys[..n][..j] == keys[..j] && plan[..n][..j] == plan[..j];
      RunAbortSticks(path, keys[..n], plan[..n], j);
    } else {
      assert keys[..j] == keys && plan[..j] == plan;
    }
  }

  /** One step of an extractor's page loop: once page `k`'s files are appended
      to what the earlier pages wrote, a failing page has ended the run (later
      pages change nothing) and a succeeding page has extended it by one page. */
  lemma RunAdvance(path: string, keys: seq<string>, plan: seq<Option<seq<string>>>, k: nat,
                   before: seq<FileWrite>, after: seq<FileWrite>)
    requires |keys| == |plan| && k < |keys|
    requires !Run(path, keys[..k], plan[..k]).aborted
    requires after == before + Run(path, keys[..k], plan[..k]).files + PageFiles(path, keys[k], plan[k])
    ensures PageFails(plan[k]) ==>
      after == before + Run(path, keys, plan).files && Run(path, keys, plan).last == None
    ensures !PageFails(plan[k]) ==>
      after == before + Run(path, keys[..k + 1], plan[..k + 1]).files
      && !Run(path, keys[..k + 1], plan[..k + 1]).aborted
      && Run(path, keys[..k + 1], plan[..k + 1]).last == LastChunkText(plan[k].value)
  {
    RunStep(path, keys, plan, k);
    if PageFails(plan[k]) {
      RunAbortSticks(path, keys, plan, k + 1);
    }
  }

  /** The files of every page of a plan, one list per page, in page order. */
  function PageFileLists(path: string, keys: seq<string>, plan: seq<Option<seq<string>>>): (r: seq<seq<FileWrite>>)
    requires |keys| == |plan|
    ensures |r| == |keys| && forall k :: 0 <= k < |keys| ==> r[k] == PageFiles(path, keys[k], plan[k])
    decreases |keys|
  {
    if |keys| == 0 then []
    else
      var n := |keys| - 1;
      var front := PageFileLists(path, keys[..n], plan[..n]);
      assert forall k :: 0 <= k < n ==> keys[..n][k] == keys[k] && plan[..n][k] == plan[k];
      front + [PageFiles(path, keys[n], plan[n])]
  }

  /** A run where every page succeeds writes every page's chunks in page order
      and ends with the last chunk of the last page. */
  lemma {:induction false} RunAllSucceed(path: string, keys: seq<string>, plan: seq<Option<seq<string>>>)
    requires |keys| == |plan|
    requires forall k :: 0 <= k < |plan| ==> !PageFails(plan[k])
    ensures !Run(path, keys, plan).aborted
    ensures Run(path, keys, plan).files == Flatten(PageFileLists(path, keys, plan))
    ensures |keys| > 0 ==> Run(path, keys, plan).last == LastChunkText(plan[|keys| - 1].value)
    decreases |keys|
  {
    if |keys| > 0 {
      var n := |keys| - 1;
      RunAllSucceed(path, keys[..n], plan[..n]);
      FlattenSnoc(PageFileLists(path, keys[..n], plan[..n]), PageFiles(path, keys[n], plan[n]));
    }
  }

  lemma {:induction false} FlattenSnoc<T>(xss: seq<seq<T>>, xs: seq<T>)
    ensures Flatten(xss + [xs]) == Flatten(xss) + xs
    decreases |xss|
  {
    if |xss| == 0 {
      assert xss + [xs] == [xs];
      assert [xs][1..] == [];
    } else {
      assert (xss + [xs])[1..] == xss[1..] + [xs];
      FlattenSnoc(xss[1..], xs);
    }
  }

  /** The first failing page stops the run: only the pages before it are
      written, and the call yields no `doc`. */
  lemma RunStopsAtFirstFailure(path: string, keys: seq<string>, plan: seq<Option<seq<string>>>, j: nat)
    requires |keys| == |plan| && j < |keys|
    requires PageFails(plan[j])
    requires forall k :: 0 <= k < j ==> !PageFails(plan[k])
    ensures Run(path, keys, plan).aborted && Run(path, keys, plan).last == None
    ensures Run(path, keys, plan).files == Flatten(PageFileLists(path, keys[..j], plan[..j]))
  {
    var ks, ps := keys[..j + 1], plan[..j + 1];
    assert ks[..j] == keys[..j] && ps[..j] == plan[..j];
    RunAllSucceed(path, keys[..j], plan[..j]);
    assert Run(path, ks, ps).aborted;
    RunAbortSticks(path, keys, plan, j + 1);
  }
}

/**
  The chunk store of the translator (translator.py): the `before/`, `after/`
  and `after/log/` path strings, the listing filter and the numeric parse of
  chunk file names, the numeric sort of the metadata table, the same-page
  flags and the merged translation document.

  The ChatGPT call, the response parsing, the price report and the disk are
  outside the model: a directory listing arrives as a sequence of names, the
  translated files arrive as a map from location to contents, and every file
  written is appended to a log of `FileWrite`s.
*/
module Translator {
  import opened Wrappers
  import opened PyStr
  import opened Segmenter

  // ---------------------------------------------------------------------------
  // Paths
  // ---------------------------------------------------------------------------

  /** The platform `os.path.join` runs on, which fixes the separator it inserts. */
  datatype Host = Posix | Windows

  function HostSep(host: Host): char
  {
    if host.Posix? then '/' else '\\'
  }

  /** The separator the source appends: `/` when the path already holds one,
      else a backslash. */
  function SepFor(path: string): string
  {
    if Contains(path, "/") then "/" else "\\"
  }

  /** The constructor's input directory: the given path with a trailing separator. */
  function InputPath(path: string): (r: string)
    ensures |r| == |path| + 1 && r[..|path|] == path
    ensures r[|path|] == (if Contains(path, "/") then '/' else '\\')
  {
    path + SepFor(path)
  }

  /** `path.split("before")[0]`: the text before the first `before`. */
  function ParentDir(path: string): string
  {
    FirstField(path, "before")
  }

  /** The parent directory is the part of the input path before its first
      `before`, or the whole path when it has none. */
  lemma ParentDirSpec(path: string)
    ensures ParentDir(path) <= path
    ensures !Contains(ParentDir(path), "before")
    ensures |ParentDir(path)| < |path| ==> "before" <= path[|ParentDir(path)|..]
  {
    FirstFieldSpec(path, "before");
  }

  /** `os.path.join(parent_dir + 'after', 'log')` plus a trailing separator. */
  function LogPath(parentDir: string, host: Host): string
  {
    parentDir + "after" + [HostSep(host)] + "log" + SepFor(parentDir)
  }

  /** `save_translation_path` as written: `log_path.split("log")[0]`. */
  function SaveTranslationPathAsWritten(parentDir: string, host: Host): string
  {
    FirstField(LogPath(parentDir, host), "log")
  }

  /** The translation directory the source evidently means: `after/` under
      the parent directory, the directory that holds `log/`. */
  function SaveTranslationPath(parentDir: string, host: Host): (dir: string)
    ensures LogPath(parentDir, host) == dir + "log" + SepFor(parentDir)
  {
    parentDir + "after" + [HostSep(host)]
  }

  /** When the parent directory holds no `log`, the expression as written
      yields the intended directory. */
  lemma SaveTranslationPathAgrees(parentDir: string, host: Host)
    requires !Contains(parentDir, "log")
    ensures SaveTranslationPathAsWritten(parentDir, host) == SaveTranslationPath(parentDir, host)
  {
    var tail := "after" + [HostSep(host)] + "lo";
    ContainsAcrossFree(parentDir, tail, "log");
    assert "log"[..2] == "lo";
    assert parentDir + "after" + [HostSep(host)] + "lo" == parentDir + tail;
    assert LogPath(parentDir, host) == SaveTranslationPath(parentDir, host) + "log" + SepFor(parentDir);
    FirstFieldOfConcat(SaveTranslationPath(parentDir, host), "log", SepFor(parentDir));
  }

  /** As written, a parent directory holding `log` cuts the translation
      directory short at its first `log`, above the parent directory itself. */
  lemma SaveTranslationPathTruncated(parentDir: string, host: Host)
    requires Contains(parentDir, "log")
    ensures SaveTranslationPathAsWritten(parentDir, host) == FirstField(parentDir, "log")
    ensures |SaveTranslationPathAsWritten(parentDir, host)| < |parentDir|
  {
    FirstFieldExtend(parentDir, "after" + [HostSep(host)] + "log" + SepFor(parentDir), "log");
    assert LogPath(parentDir, host) == parentDir + ("after" + [HostSep(host)] + "log" + SepFor(parentDir));
    FirstFieldSpec(parentDir, "log");
  }

  /** The text before the first `log` of `a + "log" + b` is `a` when `a` has no `g`. */
  lemma FirstLogField(a: string, b: string)
    requires Free(a, 'g')
    ensures Contains(a + "log" + b, "log")
    ensures FirstField(a + "log" + b, "log") == a
  {
    var s := a + "log" + b;
    assert s[|a|..|a| + 3] == "log";
    OccursImpliesContains(s, "log", |a|);
    assert "log"[..2] == "lo" && "log"[2] == 'g';
    assert Free(a + "lo", 'g');
    MissingCharNotContains(a + "lo", "log", 2);
    FirstFieldOfConcat(a, "log", b);
  }

  lemma BlogFirstField()
    ensures Contains("/home/blog/", "log")
    ensures FirstField("/home/blog/", "log") == "/home/b"
  {
    var a := "/home/b";
    assert Free(a, 'g');
    assert "/home/blog/" == a + "log" + "/";
    FirstLogField(a, "/");
  }

  /** For the parent directory `/home/blog/` the translations go to `/home/b`
      instead of `/home/blog/after/`. */
  lemma BlogDirectoryExample(host: Host)
    ensures SaveTranslationPathAsWritten("/home/blog/", host) == "/home/b"
    ensures SaveTranslationPath("/home/blog/", host) == "/home/blog/after" + [HostSep(host)]
  {
    BlogAsWritten(host);
    CorrectedPath("/home/blog/", host);
    BlogAfter();
  }

  lemma BlogAfter()
    ensures "/home/blog/" + "after" == "/home/blog/after"
  {
  }

  lemma CorrectedPath(parentDir: string, host: Host)
    ensures SaveTranslationPath(parentDir, host) == parentDir + "after" + [HostSep(host)]
  {
  }

  lemma BlogAsWritten(host: Host)
    ensures SaveTranslationPathAsWritten("/home/blog/", host) == "/home/b"
  {
    BlogFirstField();
    SaveTranslationPathTruncated("/home/blog/", host);
  }

  // ---------------------------------------------------------------------------
  // The metadata table
  // ---------------------------------------------------------------------------

  /** One row of the metadata table: the file name and its two numeric fields. */
  datatype Row = Row(fileName: string, pageNum: nat, paragraphNum: nat)

  /** The listing filter: names ending with `.txt` and starting with `page`. */
  predicate IsChunkFile(name: string)
  {
    EndsWith(name, ".txt") && StartsWith(name, "page")
  }

  /** The list comprehension over the directory listing, in listing order. */
  function KeepChunkFiles(listing: seq<string>): (kept: seq<string>)
    ensures forall name :: name in kept ==> IsChunkFile(name)
    ensures forall name :: multiset(kept)[name] == (if IsChunkFile(name) then multiset(listing)[name] else 0)
    decreases |listing|
  {
    if |listing| == 0 then []
    else
      var rest := KeepChunkFiles(listing[1..]);
      assert listing == [listing[0]] + listing[1..];
      if IsChunkFile(listing[0]) then [listing[0]] + rest else rest
  }

  /** The two ways of reading the paragraph number: from the last `_` field up
      to its first `.` before translation, from the third `_` field after it.
      A missing field (an `IndexError`) or a non-numeric field is `None`. */
  function ParseRow(name: string, before: bool): (r: Option<Row>)
    ensures r.Some? ==> r.value.fileName == name
  {
    var fields := Split(name, "_");
    if |fields| < 2 then None
    else
      var paragraph :=
        if before then Some(FirstField(fields[|fields| - 1], "."))
        else if |fields| < 3 then None
        else Some(fields[2]);
      if paragraph.None? then None
      else
        var page, para := ParseNat(fields[1]), ParseNat(paragraph.value);
        if page.Some? && para.Some? then Some(Row(name, page.value, para.value)) else None
  }

  /** Parsing the whole column: any name that fails makes the whole table fail. */
  function ParseRows(names: seq<string>, before: bool): (r: Option<seq<Row>>)
    ensures r.Some? <==> forall i :: 0 <= i < |names| ==> ParseRow(names[i], before).Some?
    ensures r.Some? ==>
      |r.value| == |names| && forall i :: 0 <= i < |names| ==> ParseRow(names[i], before) == Some(r.value[i])
    decreases |names|
  {
    if |names| == 0 then Some([])
    else
      var head, rest := ParseRow(names[0], before), ParseRows(names[1..], before);
      assert forall i :: 1 <= i < |names| ==> names[i] == names[1..][i - 1];
      if head.Some? && rest.Some? then Some([head.value] + rest.value) else None
  }

  /** The `file_name` column. */
  function FileNames(rows: seq<Row>): seq<string>
  {
    seq(|rows|, i requires 0 <= i < |rows| => rows[i].fileName)
  }

  /** The sort order: numeric page number, then numeric paragraph number. */
  predicate RowLe(a: Row, b: Row)
  {
    a.pageNum < b.pageNum || (a.pageNum == b.pageNum && a.paragraphNum <= b.paragraphNum)
  }

  predicate Sorted(rows: seq<Row>)
  {
    forall i, j :: 0 <= i < j < |rows| ==> RowLe(rows[i], rows[j])
  }

  /** Puts `x` before the first row it does not follow. */
  function Insert(x: Row, rows: seq<Row>): (r: seq<Row>)
    ensures multiset(r) == multiset(rows) + multiset{x}
    decreases |rows|
  {
    if |rows| == 0 then [x]
    else if RowLe(x, rows[0]) then
      [x] + rows
    else
      var rest := Insert(x, rows[1..]);
      assert rows == [rows[0]] + rows[1..];
      [rows[0]] + rest
  }

  lemma FileNamesCons(x: Row, rows: seq<Row>)
    ensures FileNames([x] + rows) == [x.fileName] + FileNames(rows)
  {
    var l, r := FileNames([x] + rows), [x.fileName] + FileNames(rows);
    forall i | 0 <= i < |l| ensures l[i] == r[i] {
      if i > 0 {
        assert ([x] + rows)[i] == rows[i - 1];
      }
    }
  }

  /** Inserting a row adds its name to the name column. */
  lemma {:induction false} InsertNames(x: Row, rows: seq<Row>)
    ensures multiset(FileNames(Insert(x, rows))) == multiset(FileNames(rows)) + multiset{x.fileName}
    decreases |rows|
  {
    if |rows| == 0 {
      FileNamesCons(x, rows);
    } else if RowLe(x, rows[0]) {
      FileNamesCons(x, rows);
    } else {
      InsertNames(x, rows[1..]);
      FileNamesCons(rows[0], rows[1..]);
      FileNamesCons(rows[0], Insert(x, rows[1..]));
      assert rows == [rows[0]] + rows[1..];
    }
  }

  /** Sorting a table keeps its name column up to order. */
  lemma {:induction false} SortRowsNames(rows: seq<Row>)
    ensures multiset(FileNames(SortRows(rows))) == multiset(FileNames(rows))
    decreases |rows|
  {
    if |rows| > 0 {
      SortRowsNames(rows[1..]);
      InsertNames(rows[0], SortRows(rows[1..]));
      FileNamesCons(rows[0], rows[1..]);
      assert rows == [rows[0]] + rows[1..];
    }
  }

  /** Every row of a sorted table's tail, and any `x` after its head, follow the head. */
  lemma HeadBeforeInserted(x: Row, rows: seq<Row>)
    requires Sorted(rows) && |rows| > 0 && !RowLe(x, rows[0])
    ensures forall y :: y in Insert(x, rows[1..]) ==> RowLe(rows[0], y)
  {
    var rest := Insert(x, rows[1..]);
    forall y | y in rest ensures RowLe(rows[0], y) {
      assert y in multiset(rest);
      if y != x {
        assert y in multiset(rows[1..]);
        var m :| 0 <= m < |rows[1..]| && rows[1..][m] == y;
        assert rows[m + 1] == y;
      }
    }
  }

  /** Inserting into a sorted table keeps it sorted. */
  lemma {:induction false} InsertSorted(x: Row, rows: seq<Row>)
    requires Sorted(rows)
    ensures Sorted(Insert(x, rows))
    decreases |rows|
  {
    if |rows| > 0 && !RowLe(x, rows[0]) {
      var rest := Insert(x, rows[1..]);
      assert Sorted(rows[1..]) by {
        forall i, j | 0 <= i < j < |rows[1..]| ensures RowLe(rows[1..][i], rows[1..][j]) {
          assert rows[1..][i] == rows[i + 1] && rows[1..][j] == rows[j + 1];
        }
      }
      InsertSorted(x, rows[1..]);
      HeadBeforeInserted(x, rows);
      SortedCons(rows[0], rest);
    }
  }

  /** A row that precedes every row of a sorted table can head it. */
  lemma SortedCons(h: Row, rest: seq<Row>)
    requires Sorted(rest) && forall y :: y in rest ==> RowLe(h, y)
    ensures Sorted([h] + rest)
  {
    var r := [h] + rest;
    forall i, j | 0 <= i < j < |r| ensures RowLe(r[i], r[j]) {
      assert r[j] == rest[j - 1] && r[j] in rest;
      if i > 0 {
        assert r[i] == rest[i - 1];
      }
    }
  }

  /** `sort_values(by=['page_num', 'paragraph_num'])` followed by
      `reset_index(drop=True)`: the result is a permutation of the rows, in
      ascending numeric order, indexed from 0. */
  function SortRows(rows: seq<Row>): (r: seq<Row>)
    ensures Sorted(r)
    ensures multiset(r) == multiset(rows)
    decreases |rows|
  {
    if |rows| == 0 then []
    else
      assert rows == [rows[0]] + rows[1..];
      InsertSorted(rows[0], SortRows(rows[1..]));
      Insert(rows[0], SortRows(rows[1..]))
  }

  /** What `get_metadata` returns for a listing: `None` when any kept name
      does not parse (the exception path), else the sorted table. */
  function Metadata(listing: seq<string>, before: bool): Option<seq<Row>>
  {
    var rows := ParseRows(KeepChunkFiles(listing), before);
    if rows.None? then None else Some(SortRows(rows.value))
  }

  /** The table exists exactly when every kept name parses. */
  lemma MetadataDefined(listing: seq<string>, before: bool)
    ensures Metadata(listing, before).Some? <==>
      forall name :: name in KeepChunkFiles(listing) ==> ParseRow(name, before).Some?
  {
    var kept := KeepChunkFiles(listing);
    if ParseRows(kept, before).None? {
      var i :| 0 <= i < |kept| && !ParseRow(kept[i], before).Some?;
      assert kept[i] in kept;
    }
  }

  /** The table holds exactly the kept names, each as often as the listing
      does, each row with its own name's numbers, in ascending numeric order. */
  lemma MetadataRows(listing: seq<string>, before: bool)
    requires Metadata(listing, before).Some?
    ensures Sorted(Metadata(listing, before).value)
    ensures multiset(FileNames(Metadata(listing, before).value)) == multiset(KeepChunkFiles(listing))
    ensures forall row :: row in Metadata(listing, before).value ==>
      IsChunkFile(row.fileName) && ParseRow(row.fileName, before) == Some(row)
  {
    var kept := KeepChunkFiles(listing);
    var rows := ParseRows(kept, before).value;
    ParsedNames(kept, before);
    SortRowsNames(rows);
    var r := SortRows(rows);
    forall row | row in r
      ensures IsChunkFile(row.fileName) && ParseRow(row.fileName, before) == Some(row)
    {
      assert row in multiset(rows);
      ParsedRow(kept, before, row);
    }
  }

  /** The parsed table's name column is the parsed listing. */
  lemma ParsedNames(names: seq<string>, before: bool)
    requires ParseRows(names, before).Some?
    ensures FileNames(ParseRows(names, before).value) == names
  {
    var rows := ParseRows(names, before).value;
    forall i | 0 <= i < |names| ensures FileNames(rows)[i] == names[i] {
      assert ParseRow(names[i], before) == Some(rows[i]);
    }
  }

  /** Every parsed row comes from a kept name and parses back to itself. */
  lemma ParsedRow(kept: seq<string>, before: bool, row: Row)
    requires forall name :: name in kept ==> IsChunkFile(name)
    requires ParseRows(kept, before).Some? && row in ParseRows(kept, before).value
    ensures IsChunkFile(row.fileName) && ParseRow(row.fileName, before) == Some(row)
  {
    var rows := ParseRows(kept, before).value;
    var i :| 0 <= i < |rows| && rows[i] == row;
    assert ParseRow(kept[i], before) == Some(row);
    assert kept[i] in kept;
  }

  // ---------------------------------------------------------------------------
  // File names across the pipeline
  // ---------------------------------------------------------------------------

  /** The name `get_translation` saves a translation under:
      `f"{original_filename.split('.')[0]}_translation.txt"`. */
  function TranslatedName(originalName: string): string
  {
    FirstField(originalName, ".") + "_translation.txt"
  }

  /** The API log name of `iterate`: `f"{fname.split('.')[0]}_log.csv"`. */
  function LogName(fname: string): string
  {
    FirstField(fname, ".") + "_log.csv"
  }

  /** The file `merge_files` writes into the translation directory. */
  const MergeName: string := "merge_translation.txt"

  predicate Free(s: string, c: char)
  {
    forall i :: 0 <= i < |s| ==> s[i] != c
  }

  lemma DigitsFree(d: string, c: char)
    requires AllDigits(d) && !IsDigit(c)
    ensures Free(d, c)
  {
    forall i | 0 <= i < |d| ensures d[i] != c {
      assert IsDigit(d[i]);
    }
  }

  /** `page_<p>_<k>`, the stem every name of chunk `k` of page `p` shares. */
  function Stem(p: nat, k: nat): string
  {
    "page_" + NatToString(p) + "_" + NatToString(k)
  }

  /** The stem splits on `_` into `page` and the two numbers, and has no `.`. */
  lemma {:induction false} StemFields(p: nat, k: nat, tail: string)
    ensures Split(Stem(p, k) + tail, "_") == ["page", NatToString(p)] + Split(NatToString(k) + tail, "_")
    ensures Free(Stem(p, k), '.')
  {
    var dp, dk := NatToString(p), NatToString(k);
    DigitsFree(dp, '_');
    DigitsFree(dk, '_');
    DigitsFree(dp, '.');
    DigitsFree(dk, '.');
    assert "_" == ['_'];
    assert Stem(p, k) + tail == "page" + ['_'] + (dp + ['_'] + (dk + tail));
    SplitCharConcat("page", '_', dp + ['_'] + (dk + tail));
    SplitCharConcat(dp, '_', dk + tail);
    assert Stem(p, k) == "page_" + dp + "_" + dk;
  }

  /** The chunk file `page_<p>_<k>.txt` is its stem with `.txt`. */
  lemma ChunkNameIsStem(p: nat, k: nat)
    ensures ChunkFileName(PageKey(p), k) == Stem(p, k) + ".txt"
    ensures FirstField(ChunkFileName(PageKey(p), k), ".") == Stem(p, k)
  {
    StemFields(p, k, "");
    assert "." == ['.'];
    assert Stem(p, k) + ".txt" == Stem(p, k) + ['.'] + "txt";
    SplitCharConcat(Stem(p, k), '.', "txt");
  }

  /** `ParseRow` once the `_` fields of a name are known. */
  lemma ParseRowOfFields(name: string, before: bool, fields: seq<string>, p: nat, k: nat)
    requires Split(name, "_") == fields && |fields| >= 2
    requires ParseNat(fields[1]) == Some(p)
    requires before ==> ParseNat(FirstField(fields[|fields| - 1], ".")) == Some(k)
    requires !before ==> |fields| >= 3 && ParseNat(fields[2]) == Some(k)
    ensures ParseRow(name, before) == Some(Row(name, p, k))
  {
  }

  /** The text before the first `.` of `d.tail`, when `d` has no `.`. */
  lemma FirstFieldAtDot(d: string, tail: string)
    requires Free(d, '.')
    ensures FirstField(d + "." + tail, ".") == d
  {
    assert "." == ['.'];
    SplitCharConcat(d, '.', tail);
  }

  /** The chunk file `page_<p>_<k>.txt` passes the listing filter. */
  lemma ChunkNameIsChunkFile(p: nat, k: nat)
    ensures IsChunkFile(ChunkFileName(PageKey(p), k))
  {
    var name := ChunkFileName(PageKey(p), k);
    ChunkNameIsStem(p, k);
    assert name[|name| - 4..] == ".txt";
    assert "page" <= name;
  }

  /** `page_<p>_<k>.txt` splits on `_` into three fields. */
  lemma {:induction false} ChunkNameFields(p: nat, k: nat)
    ensures Split(ChunkFileName(PageKey(p), k), "_") == ["page", NatToString(p), NatToString(k) + ".txt"]
  {
    var dk := NatToString(k);
    ChunkNameIsStem(p, k);
    DigitsFree(dk, '_');
    StemFields(p, k, ".txt");
    assert Free(".txt", '_');
    assert "_" == ['_'];
    SplitCharAbsent(dk + ".txt", '_');
  }

  /** Before translation: the name the extractor writes for chunk `k` of page
      `p` passes the listing filter and parses back to `(p, k)`. */
  lemma {:induction false} ChunkNameParsesBefore(p: nat, k: nat)
    ensures IsChunkFile(ChunkFileName(PageKey(p), k))
    ensures ParseRow(ChunkFileName(PageKey(p), k), true) == Some(Row(ChunkFileName(PageKey(p), k), p, k))
  {
    var name := ChunkFileName(PageKey(p), k);
    var dp, dk := NatToString(p), NatToString(k);
    ChunkNameIsChunkFile(p, k);
    ChunkNameFields(p, k);
    DigitsFree(dk, '.');
    assert dk + ".txt" == dk + "." + "txt";
    FirstFieldAtDot(dk, "txt");
    ParseNatToString(p);
    ParseNatToString(k);
    ParseRowOfFields(name, true, ["page", dp, dk + ".txt"], p, k);
  }

  /** `get_translation` names the translation of chunk `k` of page `p`
      `page_<p>_<k>_translation.txt`. */
  lemma TranslatedNameIsStem(p: nat, k: nat)
    ensures TranslatedName(ChunkFileName(PageKey(p), k)) == Stem(p, k) + "_translation.txt"
  {
    ChunkNameIsStem(p, k);
  }

  /** `a_b` splits on `_` into `a` and `b` when neither holds a `_`. */
  lemma SplitTwoFields(a: string, b: string)
    requires Free(a, '_') && Free(b, '_')
    ensures Split(a + "_" + b, "_") == [a, b]
  {
    assert "_" == ['_'];
    SplitCharConcat(a, '_', b);
    SplitCharAbsent(b, '_');
  }

  lemma TranslationSuffixFields(dk: string)
    requires Free(dk, '_')
    ensures Split(dk + "_translation.txt", "_") == [dk, "translation.txt"]
  {
    var t := "translation.txt";
    assert Free(t, '_');
    assert dk + "_translation.txt" == dk + "_" + t;
    SplitTwoFields(dk, t);
  }

  /** `page_<p>_<k>_translation.txt` splits on `_` into four fields. */
  lemma {:induction false} TranslatedNameFields(p: nat, k: nat)
    ensures Split(Stem(p, k) + "_translation.txt", "_") ==
      ["page", NatToString(p), NatToString(k), "translation.txt"]
  {
    var dk := NatToString(k);
    StemFields(p, k, "_translation.txt");
    DigitsFree(dk, '_');
    TranslationSuffixFields(dk);
  }

  /** The before-scheme reads `translation` as the paragraph number. */
  lemma TranslationSuffixNotNumeric()
    ensures ParseNat(FirstField("translation.txt", ".")) == None
  {
    assert "." == ['.'];
    assert "translation.txt" == "translation" + ['.'] + "txt";
    assert Free("translation", '.');
    SplitCharConcat("translation", '.', "txt");
    assert !IsDigit("translation"[0]);
  }

  lemma {:induction false} TranslatedStemParsesAfter(p: nat, k: nat)
    ensures ParseRow(Stem(p, k) + "_translation.txt", false) == Some(Row(Stem(p, k) + "_translation.txt", p, k))
  {
    TranslatedNameFields(p, k);
    ParseNatToString(p);
    ParseNatToString(k);
    ParseRowOfFields(Stem(p, k) + "_translation.txt", false,
      ["page", NatToString(p), NatToString(k), "translation.txt"], p, k);
  }

  lemma {:induction false} TranslatedStemFailsBefore(p: nat, k: nat)
    ensures ParseRow(Stem(p, k) + "_translation.txt", true) == None
  {
    TranslatedNameFields(p, k);
    TranslationSuffixNotNumeric();
  }

  lemma TranslatedStemKept(p: nat, k: nat)
    ensures IsChunkFile(Stem(p, k) + "_translation.txt")
  {
    var t := Stem(p, k) + "_translation.txt";
    assert t[|t| - 4..] == ".txt";
    assert "page" <= t;
  }

  /** After translation: the translated name is `page_<p>_<k>_translation.txt`,
      passes the listing filter and parses back to `(p, k)` under the
      after-scheme, while the before-scheme fails on it. */
  lemma {:induction false} TranslatedNameRoundTrip(p: nat, k: nat)
    ensures TranslatedName(ChunkFileName(PageKey(p), k)) == Stem(p, k) + "_translation.txt"
    ensures var t := Stem(p, k) + "_translation.txt";
      IsChunkFile(t) && ParseRow(t, false) == Some(Row(t, p, k)) && ParseRow(t, true) == None
  {
    TranslatedNameIsStem(p, k);
    TranslatedStemParsesAfter(p, k);
    TranslatedStemFailsBefore(p, k);
    TranslatedStemKept(p, k);
  }

  /** The API logs and the merged document never pass the listing filter. */
  lemma LogAndMergeFiltered(p: nat, k: nat)
    ensures LogName(ChunkFileName(PageKey(p), k)) == Stem(p, k) + "_log.csv"
    ensures !IsChunkFile(LogName(ChunkFileName(PageKey(p), k)))
    ensures !IsChunkFile(MergeName)
  {
    ChunkNameIsStem(p, k);
    var l := Stem(p, k) + "_log.csv";
    assert l[|l| - 4..] == ".csv";
    assert !("page" <= MergeName);
  }

  /** Two chunks of different pages, listed in either order, come out with
      the lower page number first: the sort is numeric, so `page_10_*`
      follows `page_2_*` although it precedes it as text. */
  lemma TwoChunksSortNumerically(p: nat, q: nat, k: nat)
    requires p < q
    ensures var a, b := ChunkFileName(PageKey(q), k), ChunkFileName(PageKey(p), k);
      Metadata([a, b], true) == Some([Row(b, p, k), Row(a, q, k)])
    ensures var a, b := ChunkFileName(PageKey(q), k), ChunkFileName(PageKey(p), k);
      Metadata([b, a], true) == Some([Row(b, p, k), Row(a, q, k)])
  {
    var a, b := ChunkFileName(PageKey(q), k), ChunkFileName(PageKey(p), k);
    ChunkNameParsesBefore(q, k);
    ChunkNameParsesBefore(p, k);
    KeepPair(a, b);
    ParseRowsPair(a, b, Row(a, q, k), Row(b, p, k), true);
    SortPair(Row(a, q, k), Row(b, p, k));
    KeepPair(b, a);
    ParseRowsPair(b, a, Row(b, p, k), Row(a, q, k), true);
    SortedPair(Row(b, p, k), Row(a, q, k));
  }

  lemma KeepPair(a: string, b: string)
    requires IsChunkFile(a) && IsChunkFile(b)
    ensures KeepChunkFiles([a, b]) == [a, b]
  {
    assert [a, b][1..] == [b] && [b][1..] == [];
  }

  lemma ParseRowsPair(a: string, b: string, ra: Row, rb: Row, before: bool)
    requires ParseRow(a, before) == Some(ra) && ParseRow(b, before) == Some(rb)
    ensures ParseRows([a, b], before) == Some([ra, rb])
  {
    assert [a, b][1..] == [b] && [b][1..] == [];
    assert ParseRows([b], before) == Some([rb] + []);
    assert [rb] + [] == [rb] && [ra] + [rb] == [ra, rb];
  }

  lemma SortedPair(ra: Row, rb: Row)
    requires RowLe(ra, rb)
    ensures SortRows([ra, rb]) == [ra, rb]
  {
    assert [ra, rb][1..] == [rb] && [rb][1..] == [];
    assert SortRows([rb]) == [rb];
  }

  lemma SortPair(ra: Row, rb: Row)
    requires !RowLe(ra, rb)
    ensures SortRows([ra, rb]) == [rb, ra]
  {
    assert [ra, rb][1..] == [rb] && [rb][1..] == [];
    assert SortRows([rb]) == [rb];
  }

  // ---------------------------------------------------------------------------
  // Listing order does not matter
  // ---------------------------------------------------------------------------

  /** The name chunk `k` of page `p` is stored under: the extractor's name in
      the chunk directory (`before`), its translation's name otherwise. */
  function StoredName(p: nat, k: nat, before: bool): string
  {
    var name := ChunkFileName(PageKey(p), k);
    if before then name else TranslatedName(name)
  }

  lemma StoredNameParses(p: nat, k: nat, before: bool)
    ensures IsChunkFile(StoredName(p, k, before))
    ensures ParseRow(StoredName(p, k, before), before) == Some(Row(StoredName(p, k, before), p, k))
  {
    if before {
      ChunkNameParsesBefore(p, k);
    } else {
      TranslatedNameRoundTrip(p, k);
    }
  }

  /** The rows of a page's `count` chunks, in the order the chunk loop writes them. */
  function PageRows(p: nat, count: nat, before: bool): seq<Row>
  {
    seq(count, k requires 0 <= k < count => Row(StoredName(p, k, before), p, k))
  }

  /** The rows of every page's chunks, page after page. */
  function WrittenRows(pages: seq<nat>, counts: seq<nat>, before: bool): seq<Row>
    requires |pages| == |counts|
    decreases |pages|
  {
    if |pages| == 0 then []
    else PageRows(pages[0], counts[0], before) + WrittenRows(pages[1..], counts[1..], before)
  }

  /** The chunk loop writes exactly the names of `PageRows`, in that order. */
  lemma PageRowsOfChunkFiles(path: string, p: nat, sents: seq<string>)
    ensures var rows, files := PageRows(p, ChunkCount(|sents|), true), ChunkFiles(path, PageKey(p), sents);
      |rows| == |files| && forall k :: 0 <= k < |rows| ==> files[k].location == path + rows[k].fileName
  {
  }

  predicate RowLt(a: Row, b: Row)
  {
    a.pageNum < b.pageNum || (a.pageNum == b.pageNum && a.paragraphNum < b.paragraphNum)
  }

  /** Ascending with no two rows on the same (page, paragraph) pair. */
  predicate StrictlySorted(rows: seq<Row>)
  {
    forall i, j :: 0 <= i < j < |rows| ==> RowLt(rows[i], rows[j])
  }

  predicate Increasing(pages: seq<nat>)
  {
    forall i, j :: 0 <= i < j < |pages| ==> pages[i] < pages[j]
  }

  /** Every row is what its own file name parses to. */
  predicate Canonical(rows: seq<Row>, parse: string -> Option<Row>)
  {
    forall row :: row in rows ==> parse(row.fileName) == Some(row)
  }

  /** The written rows are chunk files, each the parse of its own name. */
  lemma {:induction false} WrittenRowsCanonical(pages: seq<nat>, counts: seq<nat>, before: bool)
    requires |pages| == |counts|
    ensures var w := WrittenRows(pages, counts, before);
      forall row :: row in w ==> IsChunkFile(row.fileName) && ParseRow(row.fileName, before) == Some(row)
    decreases |pages|
  {
    if |pages| > 0 {
      WrittenRowsCanonical(pages[1..], counts[1..], before);
      var head := PageRows(pages[0], counts[0], before);
      forall row | row in head
        ensures IsChunkFile(row.fileName) && ParseRow(row.fileName, before) == Some(row)
      {
        var k :| 0 <= k < |head| && head[k] == row;
        StoredNameParses(pages[0], k, before);
      }
    }
  }

  /** Joining two strictly sorted tables, all of the first before all of the
      second, gives a strictly sorted table. */
  lemma StrictlySortedConcat(x: seq<Row>, y: seq<Row>)
    requires StrictlySorted(x) && StrictlySorted(y)
    requires forall a, b :: a in x && b in y ==> RowLt(a, b)
    ensures StrictlySorted(x + y)
  {
    var z := x + y;
    forall i, j | 0 <= i < j < |z| ensures RowLt(z[i], z[j]) {
      if j < |x| {
        assert z[i] == x[i] && z[j] == x[j];
      } else if i >= |x| {
        assert z[i] == y[i - |x|] && z[j] == y[j - |x|];
      } else {
        assert z[i] == x[i] && z[j] == y[j - |x|];
      }
    }
  }

  /** Pages in ascending order give a strictly sorted table, no row below the first page. */
  lemma {:induction false} WrittenRowsStrict(pages: seq<nat>, counts: seq<nat>, before: bool)
    requires |pages| == |counts| && Increasing(pages)
    ensures var w := WrittenRows(pages, counts, before);
      StrictlySorted(w) && forall row :: row in w ==> pages[0] <= row.pageNum
    decreases |pages|
  {
    if |pages| > 0 {
      var head, rest := PageRows(pages[0], counts[0], before), WrittenRows(pages[1..], counts[1..], before);
      assert Increasing(pages[1..]) by {
        forall i, j | 0 <= i < j < |pages[1..]| ensures pages[1..][i] < pages[1..][j] {
          assert pages[1..][i] == pages[i + 1] && pages[1..][j] == pages[j + 1];
        }
      }
      WrittenRowsStrict(pages[1..], counts[1..], before);
      assert forall row :: row in rest ==> pages[0] < row.pageNum by {
        if |pages| > 1 {
          assert pages[0] < pages[1] == pages[1..][0];
        }
      }
      assert StrictlySorted(head) by {
        forall i, j | 0 <= i < j < |head| ensures RowLt(head[i], head[j]) {
          assert head[i].paragraphNum == i && head[j].paragraphNum == j;
        }
      }
      assert forall row :: row in head ==> row.pageNum == pages[0];
      StrictlySortedConcat(head, rest);
    }
  }

  /** The row holding a given name, in a table of rows that are their names' parses. */
  lemma RowOfName(rows: seq<Row>, parse: string -> Option<Row>, x: Row)
    requires Canonical(rows, parse) && parse(x.fileName) == Some(x)
    requires x.fileName in multiset(FileNames(rows))
    ensures x in rows
  {
    var j :| 0 <= j < |rows| && FileNames(rows)[j] == x.fileName;
    assert rows[j] in rows;
  }

  /** Under the conditions of `CanonicalSortedUnique`, the two first rows agree. */
  lemma HeadsAgree(a: seq<Row>, b: seq<Row>, parse: string -> Option<Row>)
    requires |a| > 0 && |b| > 0
    requires Sorted(a) && StrictlySorted(b) && Canonical(a, parse) && Canonical(b, parse)
    requires multiset(FileNames(a)) == multiset(FileNames(b))
    ensures a[0] == b[0]
  {
    assert a[0] in a && b[0] in b;
    assert FileNames(a)[0] == a[0].fileName && FileNames(b)[0] == b[0].fileName;
    RowOfName(b, parse, a[0]);
    RowOfName(a, parse, b[0]);
    var j :| 0 <= j < |b| && b[j] == a[0];
    var i :| 0 <= i < |a| && a[i] == b[0];
    assert RowLe(a[0], b[0]) by {
      if i > 0 {
        assert RowLe(a[0], a[i]);
      }
    }
    if j > 0 {
      assert false;
    }
  }

  /** A sorted table equals a strictly sorted one when both hold the same file
      names and every row is its own name's parse. */
  lemma {:induction false} CanonicalSortedUnique(a: seq<Row>, b: seq<Row>, parse: string -> Option<Row>)
    requires Sorted(a) && StrictlySorted(b) && Canonical(a, parse) && Canonical(b, parse)
    requires multiset(FileNames(a)) == multiset(FileNames(b))
    ensures a == b
    decreases |a|
  {
    SameNamesSameLength(a, b);
    if |a| > 0 {
      TailsAgree(a, b, parse);
      CanonicalSortedUnique(a[1..], b[1..], parse);
      assert a == [a[0]] + a[1..] && b == [b[0]] + b[1..];
    }
  }

  lemma SameNamesSameLength(a: seq<Row>, b: seq<Row>)
    requires multiset(FileNames(a)) == multiset(FileNames(b))
    ensures |a| == |b|
  {
    assert |a| == |FileNames(a)| == |multiset(FileNames(a))|;
    assert |b| == |FileNames(b)| == |multiset(FileNames(b))|;
  }

  /** One step of `CanonicalSortedUnique`: the heads agree and the tails meet
      its conditions again. */
  lemma TailsAgree(a: seq<Row>, b: seq<Row>, parse: string -> Option<Row>)
    requires |a| == |b| > 0
    requires Sorted(a) && StrictlySorted(b) && Canonical(a, parse) && Canonical(b, parse)
    requires multiset(FileNames(a)) == multiset(FileNames(b))
    ensures a[0] == b[0]
    ensures Sorted(a[1..]) && StrictlySorted(b[1..]) && Canonical(a[1..], parse) && Canonical(b[1..], parse)
    ensures multiset(FileNames(a[1..])) == multiset(FileNames(b[1..]))
  {
    HeadsAgree(a, b, parse);
    FileNamesTail(a);
    FileNamesTail(b);
    SortedTail(a);
    StrictlySortedTail(b);
    CanonicalTail(a, parse);
    CanonicalTail(b, parse);
    MultisetCancel(a[0].fileName, multiset(FileNames(a[1..])), multiset(FileNames(b[1..])));
  }

  lemma MultisetCancel(x: string, m: multiset<string>, n: multiset<string>)
    requires multiset{x} + m == multiset{x} + n
    ensures m == n
  {
    assert forall o :: m[o] == (multiset{x} + m)[o] - multiset{x}[o];
  }

  lemma FileNamesTail(a: seq<Row>)
    requires |a| > 0
    ensures multiset(FileNames(a)) == multiset{a[0].fileName} + multiset(FileNames(a[1..]))
  {
    assert a == [a[0]] + a[1..];
    FileNamesCons(a[0], a[1..]);
  }

  lemma CanonicalTail(a: seq<Row>, parse: string -> Option<Row>)
    requires Canonical(a, parse) && |a| > 0
    ensures Canonical(a[1..], parse)
  {
    forall row | row in a[1..] ensures parse(row.fileName) == Some(row) {
      assert row in a;
    }
  }

  lemma SortedTail(a: seq<Row>)
    requires Sorted(a) && |a| > 0
    ensures Sorted(a[1..])
  {
    forall m, n | 0 <= m < n < |a[1..]| ensures RowLe(a[1..][m], a[1..][n]) {
      assert a[1..][m] == a[m + 1] && a[1..][n] == a[n + 1];
    }
  }

  lemma StrictlySortedTail(b: seq<Row>)
    requires StrictlySorted(b) && |b| > 0
    ensures StrictlySorted(b[1..])
  {
    forall m, n | 0 <= m < n < |b[1..]| ensures RowLt(b[1..][m], b[1..][n]) {
      assert b[1..][m] == b[m + 1] && b[1..][n] == b[n + 1];
    }
  }

  /** Every name of such a listing passes the filter and parses, so the
      filter keeps the whole listing up to order. */
  lemma ListingOfWrittenRows(listing: seq<string>, pages: seq<nat>, counts: seq<nat>, before: bool)
    requires |pages| == |counts|
    requires multiset(listing) == multiset(FileNames(WrittenRows(pages, counts, before)))
    ensures forall name :: name in listing ==> IsChunkFile(name) && ParseRow(name, before).Some?
    ensures multiset(KeepChunkFiles(listing)) == multiset(listing)
    ensures forall row :: row in WrittenRows(pages, counts, before) ==> ParseRow(row.fileName, before) == Some(row)
  {
    var w := WrittenRows(pages, counts, before);
    WrittenRowsCanonical(pages, counts, before);
    forall name | name in listing
      ensures IsChunkFile(name) && ParseRow(name, before).Some?
    {
      assert name in multiset(FileNames(w));
      var i :| 0 <= i < |w| && FileNames(w)[i] == name;
      assert w[i] in w;
    }
    var kept := KeepChunkFiles(listing);
    forall name ensures multiset(kept)[name] == multiset(listing)[name] {
      if !IsChunkFile(name) {
        assert name !in listing;
      }
    }
  }

  /** The filter keeps a listing of chunk files whole, so filtering twice is
      filtering once. */
  lemma {:induction false} KeepAllChunkFiles(names: seq<string>)
    requires forall name :: name in names ==> IsChunkFile(name)
    ensures KeepChunkFiles(names) == names
    decreases |names|
  {
    if |names| > 0 {
      var rest := names[1..];
      assert names == [names[0]] + rest;
      assert IsChunkFile(names[0]);
      forall name | name in rest ensures IsChunkFile(name) {
        assert name in names;
      }
      KeepAllChunkFiles(rest);
    }
  }

  /** The chunk files of pages in ascending order, listed by the directory in
      any order and among any other files (the `log/` directory, the merged
      document), come back from `get_metadata` as the table in the order they
      were written: page by page, chunk `0, 1, …` within a page. This holds for
      the chunk directory and, with the translated names, for the translation
      directory `merge_files` reads. */
  lemma ListingOrderRoundTrip(listing: seq<string>, pages: seq<nat>, counts: seq<nat>, before: bool)
    requires |pages| == |counts| && Increasing(pages)
    requires multiset(KeepChunkFiles(listing)) == multiset(FileNames(WrittenRows(pages, counts, before)))
    ensures Metadata(listing, before) == Some(WrittenRows(pages, counts, before))
  {
    var kept := KeepChunkFiles(listing);
    KeepAllChunkFiles(kept);
    assert Metadata(kept, before) == Metadata(listing, before);
    var w := WrittenRows(pages, counts, before);
    WrittenRowsStrict(pages, counts, before);
    ListingOfWrittenRows(kept, pages, counts, before);
    MetadataDefined(kept, before);
    MetadataRows(kept, before);
    var parse := name => ParseRow(name, before);
    var m := Metadata(kept, before).value;
    assert Canonical(m, parse) && Canonical(w, parse);
    CanonicalSortedUnique(m, w, parse);
  }

  // ---------------------------------------------------------------------------
  // Same-page flags
  // ---------------------------------------------------------------------------

  /** A row of `t_metadata`: a metadata row with its `check_same_page` flag. */
  datatype FlaggedRow = FlaggedRow(row: Row, samePage: bool)

  /** The flag column `check_page_num` fills in. */
  function PageFlags(rows: seq<Row>): seq<bool>
  {
    seq(|rows|, i requires 0 <= i < |rows| => i + 1 == |rows| || rows[i].pageNum == rows[i + 1].pageNum)
  }

  /** `check_page_num`'s loop: row `i` is flagged when row `i + 1` is on the
      same page; the last row reads past the end, and the `IndexError` branch
      flags it too. */
  method SameFlags(rows: seq<Row>) returns (flags: seq<bool>)
    ensures |flags| == |rows|
    ensures forall i :: 0 <= i < |rows| - 1 ==> (flags[i] <==> rows[i].pageNum == rows[i + 1].pageNum)
    ensures |rows| > 0 ==> flags[|rows| - 1]
    ensures flags == PageFlags(rows)
  {
    flags := [];
    for i := 0 to |rows|
      invariant |flags| == i
      invariant forall j :: 0 <= j < i ==> flags[j] == PageFlags(rows)[j]
    {
      if i + 1 < |rows| {
        flags := flags + [rows[i].pageNum == rows[i + 1].pageNum];
      } else {
        flags := flags + [true];
      }
    }
  }

  /** On a sorted table an unflagged row is the last chunk of its page: the
      next row starts a higher page. */
  lemma UnflaggedEndsPage(rows: seq<Row>, i: nat)
    requires Sorted(rows) && i < |rows| && !PageFlags(rows)[i]
    ensures i + 1 < |rows| && rows[i].pageNum < rows[i + 1].pageNum
  {
    assert PageFlags(rows)[i] == (i + 1 == |rows| || rows[i].pageNum == rows[i + 1].pageNum);
    assert i + 1 < |rows|;
    assert RowLe(rows[i], rows[i + 1]);
  }

  /** The table with its flag column. */
  function Flagged(rows: seq<Row>): (t: seq<FlaggedRow>)
    ensures |t| == |rows|
  {
    seq(|rows|, i requires 0 <= i < |rows| => FlaggedRow(rows[i], PageFlags(rows)[i]))
  }

  // ---------------------------------------------------------------------------
  // The merged document
  // ---------------------------------------------------------------------------

  /** `doc.replace("。", "。\n")`: a line break after every full stop. */
  function BreakLines(doc: string): string
  {
    Replace(doc, "。", "。\n")
  }

  /** Every full stop of the broken text is followed by a line break. */
  lemma {:induction false} BreakLinesFollowed(doc: string)
    ensures forall i :: 0 <= i < |BreakLines(doc)| && BreakLines(doc)[i] == '。' ==>
      i + 1 < |BreakLines(doc)| && BreakLines(doc)[i + 1] == '\n'
    decreases |doc|
  {
    if |doc| > 0 {
      BreakLinesFollowed(doc[1..]);
      var rest := BreakLines(doc[1..]);
      if "。" <= doc {
        assert BreakLines(doc) == "。\n" + rest;
      } else {
        assert BreakLines(doc) == [doc[0]] + rest;
      }
    }
  }

  /** Taking the inserted line breaks out again gives back the translation. */
  lemma {:induction false} BreakLinesRoundTrip(doc: string)
    ensures Replace(BreakLines(doc), "。\n", "。") == doc
    decreases |doc|
  {
    if |doc| > 0 {
      BreakLinesRoundTrip(doc[1..]);
      var rest := BreakLines(doc[1..]);
      if "。" <= doc {
        assert BreakLines(doc) == "。\n" + rest;
        assert ("。\n" + rest)[2..] == rest;
        assert doc == "。" + doc[1..];
      } else {
        assert BreakLines(doc) == [doc[0]] + rest;
        assert doc[0] != '。';
        assert ([doc[0]] + rest)[1..] == rest;
        assert doc == [doc[0]] + doc[1..];
      }
    }
  }

  /** One character more per full stop. */
  lemma BreakLinesLength(doc: string)
    ensures |BreakLines(doc)| == |doc| + Count(doc, "。")
  {
    ReplaceLength(doc, "。", "。\n");
  }

  /** One sentence and its full stop: the stop gets its line break. */
  lemma BreakLinesSentence(a: string)
    requires Free(a, '。')
    ensures BreakLines(a + "。") == a + "。\n"
  {
    assert "。" == ['。'];
    ReplaceCharConcat(a, "。", '。', "。\n");
    MissingCharNotContains(a, "。", 0);
    ReplaceWithoutOccurrence(a, "。", "。\n");
    assert Replace("。", "。", "。\n") == "。\n" + Replace("", "。", "。\n");
  }

  /** `"第一句。第二句。"` becomes `"第一句。\n第二句。\n"`. */
  lemma BreakLinesExample()
    ensures BreakLines("第一句。第二句。") == "第一句。\n第二句。\n"
  {
    var a, b := "第一句", "第二句";
    assert Free(a, '。') && Free(b, '。');
    assert "第一句。第二句。" == (a + "。") + (b + "。");
    assert "第一句。\n第二句。\n" == (a + "。\n") + (b + "。\n");
    BreakLinesTwoSentences(a, b);
  }

  /** Two sentences without inner full stops each get their own line. */
  lemma BreakLinesTwoSentences(a: string, b: string)
    requires Free(a, '。') && Free(b, '。')
    ensures BreakLines((a + "。") + (b + "。")) == (a + "。\n") + (b + "。\n")
  {
    assert "。" == ['。'];
    ReplaceCharConcat(a + "。", b + "。", '。', "。\n");
    BreakLinesSentence(a);
    BreakLinesSentence(b);
  }

  /** What one row contributes: its broken text and one line break, or two
      when the next row starts another page. */
  function Piece(doc: string, samePage: bool): string
  {
    BreakLines(doc) + (if samePage then "\n" else "\n\n")
  }

  /** The `+=` accumulation of the pieces, in table order. */
  function Merged(docs: seq<string>, flags: seq<bool>): string
    requires |docs| == |flags|
    decreases |docs|
  {
    if |docs| == 0 then ""
    else Merged(docs[..|docs| - 1], flags[..|flags| - 1]) + Piece(docs[|docs| - 1], flags[|flags| - 1])
  }

  lemma MergedSnoc(docs: seq<string>, flags: seq<bool>, doc: string, samePage: bool)
    requires |docs| == |flags|
    ensures Merged(docs + [doc], flags + [samePage]) == Merged(docs, flags) + Piece(doc, samePage)
  {
    assert (docs + [doc])[..|docs|] == docs;
    assert (flags + [samePage])[..|flags|] == flags;
  }

  /** Merging two runs of rows is merging each and joining the results. */
  lemma {:induction false} MergedConcat(d1: seq<string>, f1: seq<bool>, d2: seq<string>, f2: seq<bool>)
    requires |d1| == |f1| && |d2| == |f2|
    ensures Merged(d1 + d2, f1 + f2) == Merged(d1, f1) + Merged(d2, f2)
    decreases |d2|
  {
    if |d2| > 0 {
      var n := |d2| - 1;
      MergedConcat(d1, f1, d2[..n], f2[..n]);
      assert (d1 + d2)[..|d1 + d2| - 1] == d1 + d2[..n];
      assert (f1 + f2)[..|f1 + f2| - 1] == f1 + f2[..n];
    } else {
      assert d1 + d2 == d1 && f1 + f2 == f1;
    }
  }

  /** Row `i`'s piece sits between the merge of the rows before it and the
      merge of the rows after it. */
  lemma MergedAt(docs: seq<string>, flags: seq<bool>, i: nat)
    requires |docs| == |flags| && i < |docs|
    ensures Merged(docs, flags) ==
      Merged(docs[..i], flags[..i]) + Piece(docs[i], flags[i]) + Merged(docs[i + 1..], flags[i + 1..])
  {
    assert docs == docs[..i] + [docs[i]] + docs[i + 1..];
    assert flags == flags[..i] + [flags[i]] + flags[i + 1..];
    MergedConcat(docs[..i] + [docs[i]], flags[..i] + [flags[i]], docs[i + 1..], flags[i + 1..]);
    assert (docs[..i] + [docs[i]])[..i] == docs[..i];
    assert (flags[..i] + [flags[i]])[..i] == flags[..i];
  }

  /** Chunks 0 and 1 of one page and chunk 0 of the next: a single line
      break between the first two, a blank line before the third, and a
      single line break at the end. */
  lemma MergeAdjacencyExample(n0: string, n1: string, n2: string, p: nat, a: string, b: string, c: string)
    ensures var rows := [Row(n0, p, 0), Row(n1, p, 1), Row(n2, p + 1, 0)];
      PageFlags(rows) == [true, false, true]
      && Merged([a, b, c], PageFlags(rows)) == BreakLines(a) + "\n" + BreakLines(b) + "\n\n" + BreakLines(c) + "\n"
  {
    var rows := [Row(n0, p, 0), Row(n1, p, 1), Row(n2, p + 1, 0)];
    var flags := PageFlags(rows);
    assert flags == [true, false, true];
    var docs := [a, b, c];
    assert docs[..2] == [a, b] && flags[..2] == [true, false];
    assert [a, b][..1] == [a] && [true, false][..1] == [true];
    assert [a][..0] == [] && [true][..0] == [];
    assert Merged([a], [true]) == Piece(a, true);
    assert Merged([a, b], [true, false]) == Piece(a, true) + Piece(b, false);
    assert Merged(docs, flags) == Piece(a, true) + Piece(b, false) + Piece(c, true);
  }

  /** `read_txt_file(fname, before=False)` for every row: the contents of
      every file, or `None` when one of them cannot be read. */
  function ReadAll(dir: string, names: seq<string>, files: map<string, string>): Option<seq<string>>
  {
    if forall i :: 0 <= i < |names| ==> dir + names[i] in files
    then Some(seq(|names|, i requires 0 <= i < |names| && dir + names[i] in files => files[dir + names[i]]))
    else None
  }

  lemma ReadAllMissing(dir: string, names: seq<string>, files: map<string, string>, i: nat)
    requires i < |names| && dir + names[i] !in files
    ensures ReadAll(dir, names, files) == None
  {
  }

  /** The files read for the first rows of a table, in row order. */
  ghost predicate ReadPrefix(dir: string, names: seq<string>, files: map<string, string>, docs: seq<string>)
  {
    |docs| <= |names| && forall j :: 0 <= j < |docs| ==> dir + names[j] in files && docs[j] == files[dir + names[j]]
  }

  lemma ReadAllFound(dir: string, names: seq<string>, files: map<string, string>, docs: seq<string>)
    requires |docs| == |names| && ReadPrefix(dir, names, files, docs)
    ensures ReadAll(dir, names, files) == Some(docs)
  {
    assert forall i :: 0 <= i < |names| ==> dir + names[i] in files;
    var read := seq(|names|, i requires 0 <= i < |names| && dir + names[i] in files => files[dir + names[i]]);
    assert read == docs;
  }

  /** Reading the next row's file extends the prefix read so far. */
  lemma ReadPrefixSnoc(dir: string, names: seq<string>, files: map<string, string>, docs: seq<string>)
    requires |docs| < |names| && ReadPrefix(dir, names, files, docs) && dir + names[|docs|] in files
    ensures ReadPrefix(dir, names, files, docs + [files[dir + names[|docs|]]])
  {
    var docs' := docs + [files[dir + names[|docs|]]];
    forall j | 0 <= j < |docs'|
      ensures dir + names[j] in files && docs'[j] == files[dir + names[j]]
    {
      if j < |docs| {
        assert docs'[j] == docs[j];
      }
    }
  }

  /** One more row merged extends the accumulation by that row's piece. */
  lemma {:induction false} MergeStep(docs: seq<string>, flags: seq<bool>, doc: string, merged: string, piece: string)
    requires |docs| < |flags|
    requires merged == Merged(docs, flags[..|docs|])
    requires piece == Piece(doc, flags[|docs|])
    ensures merged + piece == Merged(docs + [doc], flags[..|docs| + 1])
  {
    var i := |docs|;
    var d, f := docs + [doc], flags[..i + 1];
    assert d[..i] == docs && f[..i] == flags[..i];
    assert d[i] == doc && f[i] == flags[i];
    assert Merged(d, f) == Merged(d[..i], f[..i]) + Piece(d[i], f[i]);
  }

  function RowNames(t: seq<FlaggedRow>): seq<string>
  {
    seq(|t|, i requires 0 <= i < |t| => t[i].row.fileName)
  }

  function RowFlags(t: seq<FlaggedRow>): seq<bool>
  {
    seq(|t|, i requires 0 <= i < |t| => t[i].samePage)
  }

  /** The merged document of a flagged table, or `None` when a file is missing. */
  function MergeOf(dir: string, t: seq<FlaggedRow>, files: map<string, string>): Option<string>
  {
    var docs := ReadAll(dir, RowNames(t), files);
    if docs.None? then None else Some(Merged(docs.value, RowFlags(t)))
  }

  /** `merge_files`' loop over the flagged table. */
  method MergeTexts(dir: string, t: seq<FlaggedRow>, files: map<string, string>) returns (r: Option<string>)
    ensures r == MergeOf(dir, t, files)
  {
    var merged := "";
    ghost var docs: seq<string> := [];
    ghost var names, flags := RowNames(t), RowFlags(t);
    for i := 0 to |t|
      invariant |docs| == i && ReadPrefix(dir, names, files, docs)
      invariant merged == Merged(docs, flags[..i])
    {
      var location := dir + t[i].row.fileName;
      assert location == dir + names[i];
      if location !in files {
        ReadAllMissing(dir, names, files, i);
        return None;
      }
      var doc := BreakLines(files[location]);
      ghost var before := merged;
      if t[i].samePage {
        merged := merged + (doc + "\n");
      } else {
        merged := merged + (doc + "\n\n");
      }
      ReadPrefixSnoc(dir, names, files, docs);
      MergeStep(docs, flags, files[location], before, merged[|before|..]);
      docs := docs + [files[location]];
    }
    ReadAllFound(dir, names, files, docs);
    assert flags[..|t|] == flags;
    r := Some(merged);
  }

  /** Everything `merge_files` returns for a listing of the translation
      directory and the files in it. */
  function MergeDocument(dir: string, listing: seq<string>, files: map<string, string>): Option<string>
  {
    var rows := Metadata(listing, false);
    if rows.None? then None else MergeOf(dir, Flagged(rows.value), files)
  }

  /** A merge whose last flag is set ends with the last document's broken
      text and a single line break. */
  lemma MergedEnding(docs: seq<string>, flags: seq<bool>)
    requires |docs| == |flags| > 0 && flags[|flags| - 1]
    ensures EndsWith(Merged(docs, flags), BreakLines(docs[|docs| - 1]) + "\n")
  {
    var n := |docs| - 1;
    var m := Merged(docs, flags);
    var tail := BreakLines(docs[n]) + "\n";
    assert m == Merged(docs[..n], flags[..n]) + tail;
    assert m[|m| - |tail|..] == tail;
  }

  /** The merged document ends with the last chunk's broken text and a single
      line break. */
  lemma MergeDocumentEnding(dir: string, listing: seq<string>, files: map<string, string>)
    requires MergeDocument(dir, listing, files).Some?
    requires |Metadata(listing, false).value| > 0
    ensures var rows := Metadata(listing, false).value;
      var location := dir + rows[|rows| - 1].fileName;
      location in files && EndsWith(MergeDocument(dir, listing, files).value, BreakLines(files[location]) + "\n")
  {
    MergeOfEnding(dir, Metadata(listing, false).value, files);
  }

  /** Merging a non-empty table ends with its last file's broken text and a
      single line break, since the last row is always flagged. */
  lemma MergeOfEnding(dir: string, rows: seq<Row>, files: map<string, string>)
    requires |rows| > 0 && MergeOf(dir, Flagged(rows), files).Some?
    ensures dir + rows[|rows| - 1].fileName in files
    ensures EndsWith(MergeOf(dir, Flagged(rows), files).value, BreakLines(files[dir + rows[|rows| - 1].fileName]) + "\n")
  {
    var t := Flagged(rows);
    var names := RowNames(t);
    var docs := ReadAll(dir, names, files).value;
    var n := |rows| - 1;
    assert t[n] == FlaggedRow(rows[n], PageFlags(rows)[n]);
    assert names[n] == rows[n].fileName;
    assert dir + names[n] in files;
    assert docs[n] == files[dir + names[n]];
    assert RowFlags(t)[n];
    MergedEnding(docs, RowFlags(t));
  }

  // ---------------------------------------------------------------------------
  // The translator object
  // ---------------------------------------------------------------------------

  /** The translator's state: the `before/` directory, the parent directory,
      the target language, the `after/log/` and `after/` directories, the two
      metadata tables (`None` until first computed) and the files written. */
  class Translator {
    var path: string
    var parentDir: string
    var language: string
    var logPath: string
    var saveTranslationPath: string
    var metadata: Option<seq<Row>>
    var tMetadata: Option<seq<FlaggedRow>>
    var written: seq<FileWrite>

    /** `__init__`: the input directory gets its trailing separator and the
        parent directory is everything before `before`. */
    constructor (path: string, language: string)
      ensures this.path == InputPath(path) && parentDir == ParentDir(InputPath(path))
      ensures this.language == language
      ensures logPath == "" && saveTranslationPath == ""
      ensures metadata == None && tMetadata == None && written == []
    {
      var withSep := InputPath(path);
      this.path := withSep;
      parentDir := ParentDir(withSep);
      this.language := language;
      logPath := "";
      saveTranslationPath := "";
      metadata := None;
      tMetadata := None;
      written := [];
    }

    /** `create_directory`: `after/log/` under the parent directory, and the
        translation directory `after/` that holds it. */
    method CreateDirectory(host: Host)
      modifies this`logPath, this`saveTranslationPath
      ensures logPath == LogPath(parentDir, host)
      ensures saveTranslationPath == SaveTranslationPath(parentDir, host)
      ensures logPath == saveTranslationPath + "log" + SepFor(parentDir)
    {
      logPath := LogPath(parentDir, host);
      saveTranslationPath := SaveTranslationPath(parentDir, host);
    }

    /** `get_metadata` on the listing of `path` (before) or of
        `saveTranslationPath` (after); a failure leaves `metadata` alone. */
    method GetMetadata(listing: seq<string>, before: bool) returns (r: Option<seq<Row>>)
      modifies this`metadata
      ensures r == Metadata(listing, before)
      ensures metadata == (if r.Some? then r else old(metadata))
    {
      var kept := KeepChunkFiles(listing);
      var rows := ParseRows(kept, before);
      if rows.None? {
        return None;
      }
      r := Some(SortRows(rows.value));
      metadata := r;
    }

    /** `check_page_num`: the after-translation table with its same-page
        flags; `get_metadata` also stores that table in `metadata`. */
    method CheckPageNum(listing: seq<string>) returns (r: Option<seq<FlaggedRow>>)
      modifies this`metadata, this`tMetadata
      ensures var rows := Metadata(listing, false);
        r == (if rows.None? then None else Some(Flagged(rows.value)))
      ensures metadata == (if r.Some? then Metadata(listing, false) else old(metadata))
      ensures tMetadata == (if r.Some? then r else old(tMetadata))
    {
      var rows := GetMetadata(listing, false);
      if rows.None? {
        return None;
      }
      var flags := SameFlags(rows.value);
      var t := seq(|rows.value|, i requires 0 <= i < |rows.value| => FlaggedRow(rows.value[i], flags[i]));
      tMetadata := Some(t);
      r := Some(t);
    }

    /** `merge_files`: the merged translation, written to
        `merge_translation.txt` in the translation directory. A failure
        stores `None` as the flagged table and writes nothing. */
    method MergeFiles(listing: seq<string>, files: map<string, string>) returns (r: Option<string>)
      modifies this`metadata, this`tMetadata, this`written
      ensures r == MergeDocument(saveTranslationPath, listing, files)
      ensures var rows := Metadata(listing, false);
        tMetadata == (if rows.None? then None else Some(Flagged(rows.value)))
        && metadata == (if rows.None? then old(metadata) else rows)
      ensures written == old(written) +
        (if r.Some? then [FileWrite(saveTranslationPath + MergeName, r.value)] else [])
    {
      var t := CheckPageNum(listing);
      tMetadata := t;
      if t.None? {
        return None;
      }
      r := MergeTexts(saveTranslationPath, t.value, files);
      if r.Some? {
        written := written + [FileWrite(saveTranslationPath + MergeName, r.value)];
      }
    }
  }
}

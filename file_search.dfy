/** bm_search and search_keywords_in_files (multiprocess.py): searching one file for every
    keyword chunk by chunk, and one worker's pass over its slice of the file list. */
module FileSearch {
  import opened Seqs
  import opened Outcome
  import opened ShiftTable
  import opened Horspool
  import opened ChunkReader
  import opened KeywordIndex

  /** A file as the search sees it: one whose bytes decode to `text`, one that exists but
      whose bytes are not valid UTF-8, or one that cannot be opened. */
  datatype FileContent = Readable(text: string) | Undecodable | Missing

  /** The file system as the search sees it; a path that is not a key cannot be opened. */
  type Disk = map<FileId, FileContent>

  function Open(disk: Disk, file: FileId): (content: FileContent)
  {
    if file in disk then disk[file] else Missing
  }

  /** Opening and reading the file raises: `open` fails on a missing file, and a read of a
      non-zero count fails on an undecodable one; `f.read(0)` decodes nothing and returns "". */
  predicate ReadFails(content: FileContent, bufferSize: int)
  {
    content.Missing? || (content.Undecodable? && bufferSize != 0)
  }

  /** The exception a failing open or read raises. */
  function ReadError(content: FileContent): (e: SearchError)
  {
    if content.Missing? then FileNotFound else DecodeFailed
  }

  /** The chunks the generator yields for a file that opens and reads without raising. */
  function ContentChunks(content: FileContent, bufferSize: int): (chunks: seq<string>)
  {
    if content.Readable? then Chunks(content.text, bufferSize) else []
  }

  /** The number of chunks, among `chunks`, in which `pattern` occurs. */
  function ChunkHits(pattern: string, chunks: seq<string>): (hits: nat)
  {
    if chunks == [] then 0
    else ChunkHits(pattern, chunks[..|chunks| - 1]) + (if Occurs(pattern, chunks[|chunks| - 1]) then 1 else 0)
  }

  /** `result_dict[pattern].append(file)` done n times; with n == 0 the key is not touched. */
  function AddHits(d: Index, pattern: Keyword, file: FileId, n: nat): (updated: Index)
  {
    if n == 0 then d else Extend(d, pattern, Repeat(file, n))
  }

  /** The mapping bm_search builds for a readable file split into `chunks`, keyword after
      keyword. */
  function FileHits(file: FileId, patterns: seq<Keyword>, chunks: seq<string>): (d: Index)
  {
    if patterns == [] then map[]
    else
      var last := patterns[|patterns| - 1];
      AddHits(FileHits(file, patterns[..|patterns| - 1], chunks), last, file, ChunkHits(last, chunks))
  }

  /** A keyword is a key of bm_search's mapping iff some chunk contains it; it then lists the
      file once per chunk that contains it, for each time the keyword appears in the keyword
      list; a keyword found in no chunk is absent, never mapped to an empty list. */
  lemma FileHitsMeaning(file: FileId, patterns: seq<Keyword>, chunks: seq<string>)
    ensures forall p :: p in FileHits(file, patterns, chunks) <==> p in patterns && ChunkHits(p, chunks) > 0
    ensures forall p :: p in FileHits(file, patterns, chunks)
                        ==> FileHits(file, patterns, chunks)[p] == Repeat(file, multiset(patterns)[p] * ChunkHits(p, chunks))
    ensures NoEmptyLists(FileHits(file, patterns, chunks))
  {
    forall p ensures p in FileHits(file, patterns, chunks) <==> p in patterns && ChunkHits(p, chunks) > 0
      ensures p in FileHits(file, patterns, chunks)
              ==> FileHits(file, patterns, chunks)[p] == Repeat(file, multiset(patterns)[p] * ChunkHits(p, chunks))
      ensures p in FileHits(file, patterns, chunks) ==> FileHits(file, patterns, chunks)[p] != []
    {
      FileHitsAt(file, patterns, chunks, p);
      var count := multiset(patterns)[p] * ChunkHits(p, chunks);
      if p in FileHits(file, patterns, chunks) {
        assert multiset(patterns)[p] >= 1 && ChunkHits(p, chunks) >= 1;
        assert count >= 1;
        assert |FileHits(file, patterns, chunks)[p]| == count;
      }
    }
  }

  /** FileHitsMeaning for one keyword p, by induction on the keyword list. */
  lemma {:induction false} FileHitsAt(file: FileId, patterns: seq<Keyword>, chunks: seq<string>, p: Keyword)
    ensures p in FileHits(file, patterns, chunks) <==> p in patterns && ChunkHits(p, chunks) > 0
    ensures p in FileHits(file, patterns, chunks)
            ==> FileHits(file, patterns, chunks)[p] == Repeat(file, multiset(patterns)[p] * ChunkHits(p, chunks))
  {
    if patterns != [] {
      var init := patterns[..|patterns| - 1];
      var last := patterns[|patterns| - 1];
      var n := ChunkHits(last, chunks);
      var prev := FileHits(file, init, chunks);
      FileHitsAt(file, init, chunks, p);
      assert patterns == init + [last];
      assert p in patterns <==> p in init || p == last;
      assert multiset(patterns)[p] == multiset(init)[p] + (if p == last then 1 else 0);
      if p == last && n > 0 {
        ExtendRepeats(file, multiset(init)[last], n);
      }
    }
  }

  /** m * n appends followed by n more make (m + 1) * n. */
  lemma ExtendRepeats(file: FileId, m: nat, n: nat)
    ensures Repeat(file, m * n) + Repeat(file, n) == Repeat(file, (m + 1) * n)
  {
    RepeatAdd(file, m * n, n);
    assert (m + 1) * n == m * n + n;
  }

  /** What bm_search returns or raises for one file. Keywords are taken in order; for each,
      the shift table is built first (an empty keyword raises there) and then the file is
      opened and read (a missing or undecodable file raises there); an exception discards
      everything found so far. With no keywords the file is never opened. */
  function BmSearchSpec(file: FileId, content: FileContent, patterns: seq<Keyword>, bufferSize: int): (r: Result<Index>)
  {
    if [] in patterns || (ReadFails(content, bufferSize) && patterns != []) then
      Failure(if patterns[0] == [] || !ReadFails(content, bufferSize) then InvalidPattern else ReadError(content))
    else if patterns == [] then Success(map[])
    else Success(FileHits(file, patterns, ContentChunks(content, bufferSize)))
  }

  lemma ChunkHitsSnoc(pattern: string, chunks: seq<string>, c: nat)
    requires c < |chunks|
    ensures ChunkHits(pattern, chunks[..c + 1])
            == ChunkHits(pattern, chunks[..c]) + (if Occurs(pattern, chunks[c]) then 1 else 0)
  {
    assert chunks[..c + 1][..c] == chunks[..c];
  }

  lemma AddHitsSnoc(d: Index, pattern: Keyword, file: FileId, n: nat)
    ensures AddHits(d, pattern, file, n + 1) == Extend(AddHits(d, pattern, file, n), pattern, [file])
  {
    RepeatAdd(file, n, 1);
    assert Repeat(file, 1) == [file];
    var before := AddHits(d, pattern, file, n);
    assert Get(before, pattern) == Get(d, pattern) + Repeat(file, n);
    assert Get(d, pattern) + Repeat(file, n + 1) == (Get(d, pattern) + Repeat(file, n)) + [file];
  }

  /** Scanning one more chunk appends the file once more exactly when the chunk holds the
      pattern. */
  lemma ChunkStep(d: Index, pattern: Keyword, file: FileId, chunks: seq<string>, c: nat)
    requires c < |chunks|
    ensures AddHits(d, pattern, file, ChunkHits(pattern, chunks[..c + 1]))
            == if Occurs(pattern, chunks[c])
               then Extend(AddHits(d, pattern, file, ChunkHits(pattern, chunks[..c])), pattern, [file])
               else AddHits(d, pattern, file, ChunkHits(pattern, chunks[..c]))
  {
    ChunkHitsSnoc(pattern, chunks, c);
    if Occurs(pattern, chunks[c]) {
      AddHitsSnoc(d, pattern, file, ChunkHits(pattern, chunks[..c]));
    }
  }

  lemma FileHitsSnoc(file: FileId, patterns: seq<Keyword>, chunks: seq<string>, k: nat)
    requires k < |patterns|
    ensures FileHits(file, patterns[..k + 1], chunks)
            == AddHits(FileHits(file, patterns[..k], chunks), patterns[k], file, ChunkHits(patterns[k], chunks))
  {
    assert patterns[..k + 1][..k] == patterns[..k];
  }

  /** One keyword's pass of bm_search over a readable file: build the keyword's shift table,
      then scan every chunk and append the file once for each chunk in which it is found. */
  method SearchPattern(file: FileId, pattern: Keyword, chunks: seq<string>, resultDict: Index)
    returns (updated: Index)
    requires pattern != []
    ensures updated == AddHits(resultDict, pattern, file, ChunkHits(pattern, chunks))
  {
    var table := BuildShiftTable(pattern);
    updated := resultDict;
    for c := 0 to |chunks|
      invariant updated == AddHits(resultDict, pattern, file, ChunkHits(pattern, chunks[..c]))
    {
      var found := HorspoolFind(chunks[c], pattern, table);
      ChunkStep(resultDict, pattern, file, chunks, c);
      if found {
        updated := Extend(updated, pattern, [file]);
      }
    }
    assert chunks[..|chunks|] == chunks;
  }

  /** bm_search: every keyword in turn is searched for in every chunk of the file. */
  method BmSearch(file: FileId, content: FileContent, patterns: seq<Keyword>, bufferSize: int)
    returns (r: Result<Index>)
    ensures r == BmSearchSpec(file, content, patterns, bufferSize)
  {
    var resultDict: Index := map[];
    for k := 0 to |patterns|
      invariant forall i :: 0 <= i < k ==> patterns[i] != []
      invariant k > 0 ==> !ReadFails(content, bufferSize)
      invariant resultDict == if k == 0 then map[] else FileHits(file, patterns[..k], ContentChunks(content, bufferSize))
    {
      var pattern := patterns[k];
      if pattern == [] {
        return Failure(InvalidPattern);
      }
      if content.Missing? {
        return Failure(FileNotFound);
      }
      if content.Undecodable? && bufferSize != 0 {
        return Failure(DecodeFailed);
      }
      var chunks := ContentChunks(content, bufferSize);
      assert resultDict == FileHits(file, patterns[..k], chunks) by {
        assert k == 0 ==> patterns[..k] == [];
      }
      resultDict := SearchPattern(file, pattern, chunks, resultDict);
      FileHitsSnoc(file, patterns, chunks, k);
    }
    assert patterns[..|patterns|] == patterns;
    return Success(resultDict);
  }

  /** What one file contributes to a worker's result: bm_search's mapping, or nothing when
      bm_search raised (the worker logs the error and goes on). */
  function FileIndex(file: FileId, keywords: seq<Keyword>, disk: Disk, bufferSize: int): (d: Index)
  {
    match BmSearchSpec(file, Open(disk, file), keywords, bufferSize)
    case Success(d) => d
    case Failure(_) => map[]
  }

  /** A file's contribution never maps a keyword to an empty list. */
  lemma FileIndexNoEmptyLists(file: FileId, keywords: seq<Keyword>, disk: Disk, bufferSize: int)
    ensures NoEmptyLists(FileIndex(file, keywords, disk, bufferSize))
  {
    FileHitsMeaning(file, keywords, ContentChunks(Open(disk, file), bufferSize));
  }

  /** The contributions of a list of files, in order. */
  function FileIndexes(files: seq<FileId>, keywords: seq<Keyword>, disk: Disk, bufferSize: int): (r: seq<Index>)
    ensures |r| == |files|
    ensures forall i :: 0 <= i < |files| ==> r[i] == FileIndex(files[i], keywords, disk, bufferSize)
  {
    seq(|files|, i requires 0 <= i < |files| => FileIndex(files[i], keywords, disk, bufferSize))
  }

  lemma FileIndexesConcat(a: seq<FileId>, b: seq<FileId>, keywords: seq<Keyword>, disk: Disk, bufferSize: int)
    ensures FileIndexes(a + b, keywords, disk, bufferSize)
            == FileIndexes(a, keywords, disk, bufferSize) + FileIndexes(b, keywords, disk, bufferSize)
  {
  }

  lemma MergeIntoEmpty(acc: Index)
    ensures MergeInto(acc, map[]) == acc
  {
    MergeIntoCharacterized(acc, map[], acc);
  }

  /** A worker's result never maps a keyword to an empty list. */
  lemma WorkerResultHasNoEmptyLists(files: seq<FileId>, keywords: seq<Keyword>, disk: Disk, bufferSize: int)
    ensures NoEmptyLists(MergeAll(FileIndexes(files, keywords, disk, bufferSize)))
  {
    var indexes := FileIndexes(files, keywords, disk, bufferSize);
    forall j | 0 <= j < |indexes| ensures NoEmptyLists(indexes[j]) {
      FileIndexNoEmptyLists(files[j], keywords, disk, bufferSize);
    }
    MergeAllKeys(indexes);
  }

  /** A file on which bm_search raises contributes nothing: the worker's result is the one it
      would have given without that file in its slice, and the files after it are still
      searched. */
  lemma FailingFileContributesNothing(files: seq<FileId>, keywords: seq<Keyword>, disk: Disk, bufferSize: int, i: int)
    requires 0 <= i < |files|
    requires BmSearchSpec(files[i], Open(disk, files[i]), keywords, bufferSize).Failure?
    ensures MergeAll(FileIndexes(files, keywords, disk, bufferSize))
            == MergeAll(FileIndexes(files[..i] + files[i + 1..], keywords, disk, bufferSize))
  {
    var before := FileIndexes(files[..i], keywords, disk, bufferSize);
    var after := FileIndexes(files[i + 1..], keywords, disk, bufferSize);
    FileIndexesSplit(files, keywords, disk, bufferSize, i);
    assert FileIndex(files[i], keywords, disk, bufferSize) == map[];
    MergeAllSkipsEmpty(before, after);
  }

  /** The contributions of a file list around its i-th file. */
  lemma FileIndexesSplit(files: seq<FileId>, keywords: seq<Keyword>, disk: Disk, bufferSize: int, i: int)
    requires 0 <= i < |files|
    ensures FileIndexes(files, keywords, disk, bufferSize)
            == FileIndexes(files[..i], keywords, disk, bufferSize) + [FileIndex(files[i], keywords, disk, bufferSize)]
               + FileIndexes(files[i + 1..], keywords, disk, bufferSize)
    ensures FileIndexes(files[..i] + files[i + 1..], keywords, disk, bufferSize)
            == FileIndexes(files[..i], keywords, disk, bufferSize) + FileIndexes(files[i + 1..], keywords, disk, bufferSize)
  {
    assert files == files[..i] + [files[i]] + files[i + 1..];
    FileIndexesConcat(files[..i] + [files[i]], files[i + 1..], keywords, disk, bufferSize);
    FileIndexesConcat(files[..i], [files[i]], keywords, disk, bufferSize);
    FileIndexesConcat(files[..i], files[i + 1..], keywords, disk, bufferSize);
  }

  /** Searching one more file merges its contribution into the worker's result. */
  lemma WorkerStep(files: seq<FileId>, keywords: seq<Keyword>, disk: Disk, bufferSize: int, i: int)
    requires 0 <= i < |files|
    ensures MergeAll(FileIndexes(files[..i + 1], keywords, disk, bufferSize))
            == MergeInto(MergeAll(FileIndexes(files[..i], keywords, disk, bufferSize)),
                         FileIndex(files[i], keywords, disk, bufferSize))
  {
    var done := FileIndexes(files[..i], keywords, disk, bufferSize);
    var next := FileIndexes(files[..i + 1], keywords, disk, bufferSize);
    assert files[..i + 1] == files[..i] + [files[i]];
    FileIndexesConcat(files[..i], [files[i]], keywords, disk, bufferSize);
    assert next == done + [FileIndex(files[i], keywords, disk, bufferSize)];
    assert next[..i] == done;
  }

  /** search_keywords_in_files: one worker's pass over its slice. Each file is searched with
      bm_search and its mapping is merged into the worker's result by key; a file on which
      bm_search raises contributes nothing and the worker goes on with the next file. */
  method SearchKeywordsInFiles(files: seq<FileId>, keywords: seq<Keyword>, disk: Disk, bufferSize: int)
    returns (results: Index)
    ensures results == MergeAll(FileIndexes(files, keywords, disk, bufferSize))
    ensures forall k :: Get(results, k) == FlatMap(ListOf(k), FileIndexes(files, keywords, disk, bufferSize))
    ensures forall k :: k in results <==> exists i :: 0 <= i < |files| && k in FileIndex(files[i], keywords, disk, bufferSize)
    ensures NoEmptyLists(results)
  {
    results := map[];
    for i := 0 to |files|
      invariant results == MergeAll(FileIndexes(files[..i], keywords, disk, bufferSize))
    {
      var file := files[i];
      var outcome := BmSearch(file, Open(disk, file), keywords, bufferSize);
      WorkerStep(files, keywords, disk, bufferSize, i);
      if outcome.Success? {
        results := ExtendAll(results, outcome.value);
      } else {
        MergeIntoEmpty(results);
      }
    }
    assert files[..|files|] == files;
    WorkerResultMeaning(files, keywords, disk, bufferSize);
  }

  /** A worker's result lists, under each keyword, the lists of its files' mappings in file
      order; a keyword is present iff some file's mapping has it, and never with an empty list. */
  lemma WorkerResultMeaning(files: seq<FileId>, keywords: seq<Keyword>, disk: Disk, bufferSize: int)
    ensures var results := MergeAll(FileIndexes(files, keywords, disk, bufferSize));
            && (forall k :: Get(results, k) == FlatMap(ListOf(k), FileIndexes(files, keywords, disk, bufferSize)))
            && (forall k :: k in results <==> exists i :: 0 <= i < |files| && k in FileIndex(files[i], keywords, disk, bufferSize))
            && NoEmptyLists(results)
  {
    var indexes := FileIndexes(files, keywords, disk, bufferSize);
    forall k ensures Get(MergeAll(indexes), k) == FlatMap(ListOf(k), indexes) {
      MergeAllConcatenates(indexes, k);
    }
    MergeAllKeys(indexes);
    WorkerResultHasNoEmptyLists(files, keywords, disk, bufferSize);
  }

  lemma {:induction false} ChunkHitsWitness(pattern: string, chunks: seq<string>)
    requires ChunkHits(pattern, chunks) > 0
    ensures exists i :: 0 <= i < |chunks| && Occurs(pattern, chunks[i])
  {
    var init := chunks[..|chunks| - 1];
    if !Occurs(pattern, chunks[|chunks| - 1]) {
      ChunkHitsWitness(pattern, init);
      var i :| 0 <= i < |init| && Occurs(pattern, init[i]);
      assert chunks[i] == init[i];
    }
  }

  /** No false hits: a keyword that a file's search reports occurs in the file's text. */
  lemma FoundKeywordOccursInFile(file: FileId, keywords: seq<Keyword>, disk: Disk, bufferSize: int, k: Keyword)
    requires k in FileIndex(file, keywords, disk, bufferSize)
    ensures k in keywords
    ensures Open(disk, file).Readable? && Occurs(k, Open(disk, file).text)
  {
    var content := Open(disk, file);
    var chunks := ContentChunks(content, bufferSize);
    FileHitsMeaning(file, keywords, chunks);
    ChunkHitsWitness(k, chunks);
    var i :| 0 <= i < |chunks| && Occurs(k, chunks[i]);
    ChunkOccurrenceIsFileOccurrence(k, content.text, bufferSize, i);
  }

  /** When a single read takes in the whole file (a negative buffer size, or one at least the
      file's length) the chunked search is exact: a keyword is found iff it occurs in the
      file, and the file is then listed once per occurrence of the keyword in the list. */
  lemma WholeFileReadIsExact(file: FileId, text: string, keywords: seq<Keyword>, disk: Disk, bufferSize: int, k: Keyword)
    requires Open(disk, file) == Readable(text)
    requires [] !in keywords
    requires bufferSize < 0 || bufferSize >= |text|
    ensures var d := FileIndex(file, keywords, disk, bufferSize);
            && (k in d <==> k in keywords && Occurs(k, text))
            && (k in d ==> d[k] == Repeat(file, multiset(keywords)[k]))
  {
    var chunks := Chunks(text, bufferSize);
    FileHitsMeaning(file, keywords, chunks);
    if text == [] {
      assert k in keywords ==> !Occurs(k, text);
    } else {
      SingleReadIsWholeFile(text, bufferSize);
      assert chunks[..0] == [];
      assert ChunkHits(k, chunks) == if Occurs(k, text) then 1 else 0;
    }
  }

  /** Chunks are scanned independently, with nothing carried over from one to the next: an
      occurrence that straddles a chunk boundary is not found. "bc" occurs in "abcd", but read
      in chunks of 2 ("ab", "cd") the file is not reported, while in chunks of 4 it is. */
  lemma StraddlingOccurrenceIsMissed()
    ensures Occurs("bc", "abcd")
    ensures BmSearchSpec("a.txt", Readable("abcd"), ["bc"], 2) == Success(map[])
    ensures BmSearchSpec("a.txt", Readable("abcd"), ["bc"], 4) == Success(map["bc" := ["a.txt"]])
  {
    assert MatchAt("abcd", "bc", 1);
    assert Chunks("abcd", 2) == ["ab", "cd"] by {
      assert "abcd"[..2] == "ab" && "abcd"[2..] == "cd";
    }
    assert !Occurs("bc", "ab") by {
      assert "ab"[0..2] == "ab";
    }
    assert !Occurs("bc", "cd") by {
      assert "cd"[0..2] == "cd";
    }
    assert ["ab", "cd"][..1] == ["ab"];
    assert ChunkHits("bc", ["ab", "cd"]) == 0;
    assert ["bc"][..0] == [];
    assert Chunks("abcd", 4) == ["abcd"];
    assert ChunkHits("bc", ["abcd"]) == 1 by {
      assert ["abcd"][..0] == [];
    }
    assert Repeat("a.txt", 1) == ["a.txt"];
    assert FileHits("a.txt", ["bc"], ["abcd"]) == Extend(map[], "bc", ["a.txt"]);
    assert Get(map[], "bc") + ["a.txt"] == ["a.txt"];
    assert [] !in ["bc"];
  }

  /** A file whose bytes are not valid UTF-8 makes bm_search raise only when it reads
      something: with a buffer size of 0 every read returns "" without decoding, so the file
      raises nothing and is found to hold no keyword. */
  lemma UndecodableFileFailsOnlyWhenRead(file: FileId, patterns: seq<Keyword>, bufferSize: int)
    requires patterns != [] && [] !in patterns
    ensures BmSearchSpec(file, Undecodable, patterns, bufferSize)
            == if bufferSize == 0 then Success(map[]) else Failure(DecodeFailed)
  {
    if bufferSize == 0 {
      var d := FileHits(file, patterns, []);
      FileHitsMeaning(file, patterns, []);
      assert d.Keys == {};
      assert d == map[];
    }
  }

  /** Every file a worker lists under a keyword is a file of its slice that contains the
      keyword. */
  lemma WorkerListsOnlyMatchingFiles(files: seq<FileId>, keywords: seq<Keyword>, disk: Disk, bufferSize: int,
                                     k: Keyword, x: FileId)
    requires x in Get(MergeAll(FileIndexes(files, keywords, disk, bufferSize)), k)
    ensures x in files && k in keywords
    ensures Open(disk, x).Readable? && Occurs(k, Open(disk, x).text)
  {
    var indexes := FileIndexes(files, keywords, disk, bufferSize);
    MergeAllConcatenates(indexes, k);
    FlatMapMember(ListOf(k), indexes, x);
    var i :| 0 <= i < |indexes| && x in ListOf(k)(indexes[i]);
    var content := Open(disk, files[i]);
    FileHitsMeaning(files[i], keywords, ContentChunks(content, bufferSize));
    assert x == files[i];
    FoundKeywordOccursInFile(files[i], keywords, disk, bufferSize, k);
  }
}

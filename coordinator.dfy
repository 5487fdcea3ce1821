/** multiprocessing_search (multiprocess.py): the static split of the file list into one
    contiguous slice per worker, the workers, and the final drain of their partial results.
    The workers run one after another here; the order in which they finish, which is the order
    their results come off the queue, is a parameter. */
module Coordinator {
  import opened Seqs
  import opened Outcome
  import opened Horspool
  import opened KeywordIndex
  import opened FileSearch

  /** First index of slice i: i * (count // n). */
  function SliceStart(count: nat, n: nat, i: nat): (start: nat)
    requires n >= 1
  {
    i * (count / n)
  }

  /** End of slice i: (i + 1) * (count // n), except that the last slice ends at count. */
  function SliceEnd(count: nat, n: nat, i: nat): (end: nat)
    requires n >= 1
  {
    if i != n - 1 then (i + 1) * (count / n) else count
  }

  lemma MulMono(a: nat, b: nat, q: nat)
    requires a <= b
    ensures a * q <= b * q
  {
  }

  /** Slice boundaries are in order and inside the list. */
  lemma SliceBounds(count: nat, n: nat, i: nat)
    requires 1 <= n && i < n
    ensures SliceStart(count, n, i) <= SliceEnd(count, n, i) <= count
  {
    var q := count / n;
    assert n * q <= count;
    MulMono(i, i + 1, q);
    MulMono(i + 1, n, q);
    MulMono(i, n, q);
  }

  /** `files[start_index:end_index]` for worker i. */
  function Slice(files: seq<FileId>, n: nat, i: nat): (slice: seq<FileId>)
    requires 1 <= n && i < n
  {
    SliceBounds(|files|, n, i);
    files[SliceStart(|files|, n, i)..SliceEnd(|files|, n, i)]
  }

  /** The slices of all n workers, in worker order. */
  function Partition(files: seq<FileId>, n: nat): (slices: seq<seq<FileId>>)
    requires n >= 1
  {
    seq(n, i requires 0 <= i < n => Slice(files, n, i))
  }

  /** Slice i holds |files| // n files, except the last, which takes the remainder. */
  lemma SliceLength(files: seq<FileId>, n: nat, i: nat)
    requires 1 <= n && i < n
    ensures |Slice(files, n, i)| == if i < n - 1 then |files| / n else |files| - (n - 1) * (|files| / n)
  {
    SliceBounds(|files|, n, i);
    var q := |files| / n;
    assert (i + 1) * q == i * q + q;
  }

  /** There are exactly n slices; all but the last hold |files| // n files and the last takes
      the remainder; with more workers than files, every slice but the last is empty. */
  lemma PartitionShape(files: seq<FileId>, n: nat)
    requires n >= 1
    ensures |Partition(files, n)| == n
    ensures forall i :: 0 <= i < n - 1 ==> |Partition(files, n)[i]| == |files| / n
    ensures |Partition(files, n)[n - 1]| == |files| - (n - 1) * (|files| / n)
    ensures n > |files| ==> (forall i :: 0 <= i < n - 1 ==> Partition(files, n)[i] == [])
                            && Partition(files, n)[n - 1] == files
  {
    forall i | 0 <= i < n ensures |Partition(files, n)[i]| == if i < n - 1 then |files| / n else |files| - (n - 1) * (|files| / n) {
      SliceLength(files, n, i);
    }
    if n > |files| {
      assert |files| / n == 0;
      assert Partition(files, n)[n - 1] == files[0..|files|];
    }
  }

  lemma {:induction false} PartitionPrefixCovers(files: seq<FileId>, n: nat, m: nat)
    requires 1 <= n && m < n
    ensures Flatten(Partition(files, n)[..m]) == files[..m * (|files| / n)]
  {
    var slices := Partition(files, n);
    var q := |files| / n;
    if m == 0 {
      assert slices[..0] == [];
    } else {
      PartitionPrefixCovers(files, n, m - 1);
      assert slices[..m] == slices[..m - 1] + [slices[m - 1]];
      FlattenConcat(slices[..m - 1], [slices[m - 1]]);
      assert Flatten([slices[m - 1]]) == slices[m - 1] + Flatten([]);
      SliceBounds(|files|, n, m - 1);
      SliceBounds(|files|, n, m);
      assert m * q == (m - 1) * q + q;
      assert files[..m * q] == files[..(m - 1) * q] + files[(m - 1) * q..m * q];
    }
  }

  /** The slices concatenate, in worker order, to the file list: every file is assigned to
      exactly one worker, and the workers' slices keep the list's order. */
  lemma PartitionCovers(files: seq<FileId>, n: nat)
    requires n >= 1
    ensures Flatten(Partition(files, n)) == files
  {
    var slices := Partition(files, n);
    var q := |files| / n;
    PartitionPrefixCovers(files, n, n - 1);
    assert slices == slices[..n - 1] + [slices[n - 1]];
    FlattenConcat(slices[..n - 1], [slices[n - 1]]);
    assert Flatten([slices[n - 1]]) == slices[n - 1] + Flatten([]);
    SliceBounds(|files|, n, n - 1);
    assert files == files[..(n - 1) * q] + files[(n - 1) * q..];
  }

  /** The partial result of each worker, for the given slices, in worker order. */
  function Workers(slices: seq<seq<FileId>>, keywords: seq<Keyword>, disk: Disk, bufferSize: int): (r: seq<Index>)
    ensures |r| == |slices|
    ensures forall i :: 0 <= i < |slices| ==> r[i] == MergeAll(FileIndexes(slices[i], keywords, disk, bufferSize))
  {
    seq(|slices|, i requires 0 <= i < |slices| => MergeAll(FileIndexes(slices[i], keywords, disk, bufferSize)))
  }

  /** order lists every worker index 0 .. n - 1 exactly once (none when n <= 0). */
  predicate IsDrainOrder(order: seq<nat>, n: int)
  {
    multiset(order) == multiset(Range(if n < 0 then 0 else n))
  }

  /** Worker index i's partial result as a one-element sequence. */
  function Pick(parts: seq<Index>): (pick: nat -> seq<Index>)
  {
    (i: nat) => if i < |parts| then [parts[i]] else []
  }

  /** The queue's contents as the coordinator drains it: the partial results in the order
      the workers finished. */
  function Drained(parts: seq<Index>, order: seq<nat>): (drained: seq<Index>)
  {
    FlatMap(Pick(parts), order)
  }

  lemma {:induction false} DrainedInWorkerOrder(parts: seq<Index>, m: nat)
    requires m <= |parts|
    ensures Drained(parts, Range(m)) == parts[..m]
  {
    if m == 0 {
      assert Range(0) == [];
      assert parts[..0] == [];
    } else {
      DrainedInWorkerOrder(parts, m - 1);
      var last: seq<nat> := [m - 1];
      assert Range(m) == Range(m - 1) + last;
      FlatMapConcat(Pick(parts), Range(m - 1), last);
      assert FlatMap(Pick(parts), last) == [parts[m - 1]] + FlatMap(Pick(parts), []);
      assert parts[..m] == parts[..m - 1] + [parts[m - 1]];
    }
  }

  /** A drain order of n workers has n entries, each a worker index below n. */
  lemma DrainOrderBounds(order: seq<nat>, n: nat)
    requires IsDrainOrder(order, n)
    ensures |order| == n
    ensures forall j :: 0 <= j < |order| ==> order[j] < n
  {
    assert |multiset(order)| == |multiset(Range(n))|;
    forall j | 0 <= j < |order| ensures order[j] < n {
      assert order[j] in multiset(order);
      assert order[j] in Range(n);
    }
  }

  /** Draining one more partial result merges it into what was drained so far. */
  lemma DrainStep(parts: seq<Index>, order: seq<nat>, j: nat)
    requires j < |order| && order[j] < |parts|
    ensures MergeAll(Drained(parts, order[..j + 1]))
            == MergeInto(MergeAll(Drained(parts, order[..j])), parts[order[j]])
  {
    var before := Drained(parts, order[..j]);
    var last: seq<nat> := [order[j]];
    assert order[..j + 1] == order[..j] + last;
    FlatMapConcat(Pick(parts), order[..j], last);
    assert FlatMap(Pick(parts), last) == [parts[order[j]]] + FlatMap(Pick(parts), []);
    assert (before + [parts[order[j]]])[..|before|] == before;
  }

  /** Every partial result is drained exactly once, whatever the order. */
  lemma DrainedIsPermutation(parts: seq<Index>, order: seq<nat>)
    requires IsDrainOrder(order, |parts|)
    ensures multiset(Drained(parts, order)) == multiset(parts)
  {
    FlatMapPermutation(Pick(parts), order, Range(|parts|));
    DrainedInWorkerOrder(parts, |parts|);
    assert parts[..|parts|] == parts;
  }

  /** Per key, the workers' lists taken in worker order are the lists of the files of the
      concatenated slices, in order. */
  lemma {:induction false} WorkersConcatenate(slices: seq<seq<FileId>>, keywords: seq<Keyword>, disk: Disk,
                                              bufferSize: int, k: Keyword)
    ensures FlatMap(ListOf(k), Workers(slices, keywords, disk, bufferSize))
            == FlatMap(ListOf(k), FileIndexes(Flatten(slices), keywords, disk, bufferSize))
  {
    if slices != [] {
      var workers := Workers(slices, keywords, disk, bufferSize);
      var first := FileIndexes(slices[0], keywords, disk, bufferSize);
      var rest := FileIndexes(Flatten(slices[1..]), keywords, disk, bufferSize);
      assert workers[1..] == Workers(slices[1..], keywords, disk, bufferSize);
      WorkersConcatenate(slices[1..], keywords, disk, bufferSize, k);
      MergeAllConcatenates(first, k);
      FileIndexesConcat(slices[0], Flatten(slices[1..]), keywords, disk, bufferSize);
      FlatMapConcat(ListOf(k), first, rest);
    } else {
      assert FileIndexes([], keywords, disk, bufferSize) == [];
    }
  }

  /** No worker's partial result maps a keyword to an empty list. */
  lemma WorkersHaveNoEmptyLists(slices: seq<seq<FileId>>, keywords: seq<Keyword>, disk: Disk, bufferSize: int)
    ensures forall i :: 0 <= i < |slices| ==> NoEmptyLists(Workers(slices, keywords, disk, bufferSize)[i])
  {
    forall i | 0 <= i < |slices| ensures NoEmptyLists(Workers(slices, keywords, disk, bufferSize)[i]) {
      WorkerResultHasNoEmptyLists(slices[i], keywords, disk, bufferSize);
    }
  }

  /** Merged in worker order, the workers' partial results are exactly what one sequential
      pass over the whole file list gives. */
  lemma WorkersInOrderMatchSequential(files: seq<FileId>, keywords: seq<Keyword>, n: nat, bufferSize: int, disk: Disk)
    requires n >= 1
    ensures MergeAll(Workers(Partition(files, n), keywords, disk, bufferSize))
            == MergeAll(FileIndexes(files, keywords, disk, bufferSize))
  {
    var workers := Workers(Partition(files, n), keywords, disk, bufferSize);
    var indexes := FileIndexes(files, keywords, disk, bufferSize);
    var sequential := MergeAll(indexes);
    PartitionCovers(files, n);
    forall k ensures Get(MergeAll(workers), k) == Get(sequential, k) {
      MergeAllConcatenates(workers, k);
      WorkersConcatenate(Partition(files, n), keywords, disk, bufferSize, k);
      MergeAllConcatenates(indexes, k);
    }
    WorkersHaveNoEmptyLists(Partition(files, n), keywords, disk, bufferSize);
    MergeAllKeys(workers);
    WorkerResultHasNoEmptyLists(files, keywords, disk, bufferSize);
    forall k ensures k in MergeAll(workers) <==> k in sequential {
      PresentIffNonEmpty(MergeAll(workers), k);
      PresentIffNonEmpty(sequential, k);
    }
    IndexExtensionality(MergeAll(workers), sequential);
  }

  /** The parallel search finds what one sequential pass over the whole file list finds: the
      same keywords are present, and every keyword lists the same files with the same
      multiplicities, whatever order the workers finish in; when they finish in worker order
      the result is exactly the sequential one. */
  lemma ParallelSearchMatchesSequential(files: seq<FileId>, keywords: seq<Keyword>, n: nat, bufferSize: int,
                                        disk: Disk, order: seq<nat>)
    requires n >= 1 && IsDrainOrder(order, n)
    ensures var parallel := MergeAll(Drained(Workers(Partition(files, n), keywords, disk, bufferSize), order));
            var sequential := MergeAll(FileIndexes(files, keywords, disk, bufferSize));
            && parallel.Keys == sequential.Keys
            && (forall k :: multiset(Get(parallel, k)) == multiset(Get(sequential, k)))
            && (order == Range(n) ==> parallel == sequential)
  {
    var workers := Workers(Partition(files, n), keywords, disk, bufferSize);
    PartitionShape(files, n);
    DrainedIsPermutation(workers, order);
    DrainOrderIrrelevant(workers, Drained(workers, order));
    WorkersInOrderMatchSequential(files, keywords, n, bufferSize, disk);
    if order == Range(n) {
      DrainedInWorkerOrder(workers, n);
      assert workers[..n] == workers;
    }
  }

  /** The process-starting loop of multiprocessing_search: worker i searches slice i, and
      its partial result is the one a sequential pass over that slice gives. */
  method StartWorkers(files: seq<FileId>, keywords: seq<Keyword>, n: nat, disk: Disk, bufferSize: int)
    returns (partials: seq<Index>)
    requires n >= 1
    ensures partials == Workers(Partition(files, n), keywords, disk, bufferSize)
  {
    ghost var workers := Workers(Partition(files, n), keywords, disk, bufferSize);
    partials := [];
    for i := 0 to n
      invariant partials == workers[..i]
    {
      var processFiles := Slice(files, n, i);
      assert processFiles == Partition(files, n)[i];
      var result := SearchKeywordsInFiles(processFiles, keywords, disk, bufferSize);
      assert workers[..i + 1] == workers[..i] + [result];
      partials := partials + [result];
    }
    assert partials == workers;
  }

  /** The final drain of multiprocessing_search: take the partial results off the queue in
      the given order and extend the final mapping by each, key by key. */
  method DrainQueue(partials: seq<Index>, order: seq<nat>) returns (finalResults: Index)
    requires forall j :: 0 <= j < |order| ==> order[j] < |partials|
    ensures finalResults == MergeAll(Drained(partials, order))
  {
    finalResults := map[];
    for j := 0 to |order|
      invariant finalResults == MergeAll(Drained(partials, order[..j]))
    {
      DrainStep(partials, order, j);
      finalResults := ExtendAll(finalResults, partials[order[j]]);
    }
    assert order[..|order|] == order;
  }

  /** multiprocessing_search: slice the file list, run one worker per slice, then merge the
      partial results by key in the order they come off the queue. A worker count of zero
      raises (the slice size divides by it); a negative count starts no worker and gives the
      empty mapping. */
  method MultiprocessingSearch(files: seq<FileId>, keywords: seq<Keyword>, numProcesses: int, bufferSize: int,
                               disk: Disk, drainOrder: seq<nat>)
    returns (r: Result<Index>)
    requires IsDrainOrder(drainOrder, numProcesses)
    ensures numProcesses == 0 ==> r == Failure(NoWorkers)
    ensures numProcesses < 0 ==> r == Success(map[])
    ensures numProcesses >= 1 ==>
              r == Success(MergeAll(Drained(Workers(Partition(files, numProcesses), keywords, disk, bufferSize), drainOrder)))
    ensures numProcesses >= 1 ==>
              var sequential := MergeAll(FileIndexes(files, keywords, disk, bufferSize));
              && r.Success?
              && r.value.Keys == sequential.Keys
              && (forall k :: multiset(Get(r.value, k)) == multiset(Get(sequential, k)))
  {
    if numProcesses == 0 {
      return Failure(NoWorkers);
    }
    var partials: seq<Index> := [];
    if numProcesses >= 1 {
      partials := StartWorkers(files, keywords, numProcesses, disk, bufferSize);
    }
    // range() of a negative count is empty: no worker, and nothing on the queue
    DrainOrderBounds(drainOrder, |partials|);
    var finalResults := DrainQueue(partials, drainOrder);
    if numProcesses >= 1 {
      ParallelSearchMatchesSequential(files, keywords, numProcesses, bufferSize, disk, drainOrder);
    } else {
      assert drainOrder == [];
    }
    return Success(finalResults);
  }

  /** With no files every worker gets an empty slice and the search finds nothing. */
  lemma EmptyFileListGivesEmptyResult(keywords: seq<Keyword>, n: nat, bufferSize: int, disk: Disk, order: seq<nat>)
    requires n >= 1 && IsDrainOrder(order, n)
    ensures MergeAll(Drained(Workers(Partition([], n), keywords, disk, bufferSize), order)) == map[]
  {
    ParallelSearchMatchesSequential([], keywords, n, bufferSize, disk, order);
    assert FileIndexes([], keywords, disk, bufferSize) == [];
  }

  /** A readable file read in one piece, in which exactly one keyword of the list occurs
      and that keyword is listed once, contributes that keyword with the file, and nothing else. */
  lemma SingleHitFileIndex(file: FileId, text: string, keywords: seq<Keyword>, disk: Disk, bufferSize: int,
                           k: Keyword)
    requires Open(disk, file) == Readable(text)
    requires [] !in keywords && bufferSize >= |text|
    requires multiset(keywords)[k] == 1 && Occurs(k, text)
    requires forall k' :: k' in keywords && k' != k ==> !Occurs(k', text)
    ensures FileIndex(file, keywords, disk, bufferSize) == map[k := [file]]
  {
    var d := FileIndex(file, keywords, disk, bufferSize);
    assert k in keywords;
    forall k' ensures (k' in d <==> k' == k) && (k' in d ==> d[k'] == [file]) {
      WholeFileReadIsExact(file, text, keywords, disk, bufferSize, k');
      assert Repeat(file, 1) == [file];
    }
    IndexExtensionality(d, map[k := [file]]);
  }

  const ExampleDisk: Disk := map["a.txt" := Readable("the book is here"), "b.txt" := Readable("summer is great")]
  const ExampleKeywords: seq<Keyword> := ["book", "summer", "life"]

  lemma ExampleFirstFileText()
    ensures Occurs("book", "the book is here")
    ensures !Occurs("summer", "the book is here") && !Occurs("life", "the book is here")
  {
    var a := "the book is here";
    assert MatchAt(a, "book", 4) by { assert a[4..8] == "book"; }
    OccurrenceHasPatternCharacter("summer", a, 2);
    OccurrenceHasPatternCharacter("life", a, 0);
  }

  lemma ExampleSecondFileText()
    ensures Occurs("summer", "summer is great")
    ensures !Occurs("book", "summer is great") && !Occurs("life", "summer is great")
  {
    var b := "summer is great";
    assert MatchAt(b, "summer", 0) by { assert b[0..6] == "summer"; }
    OccurrenceHasPatternCharacter("book", b, 0);
    OccurrenceHasPatternCharacter("life", b, 0);
  }

  lemma ExampleFirstFile()
    ensures FileIndex("a.txt", ExampleKeywords, ExampleDisk, 4096) == map["book" := ["a.txt"]]
  {
    ExampleFirstFileText();
    assert multiset(ExampleKeywords)["book"] == 1;
    SingleHitFileIndex("a.txt", "the book is here", ExampleKeywords, ExampleDisk, 4096, "book");
  }

  lemma ExampleSecondFile()
    ensures FileIndex("b.txt", ExampleKeywords, ExampleDisk, 4096) == map["summer" := ["b.txt"]]
  {
    ExampleSecondFileText();
    assert multiset(ExampleKeywords)["summer"] == 1;
    SingleHitFileIndex("b.txt", "summer is great", ExampleKeywords, ExampleDisk, 4096, "summer");
  }

  lemma ExampleSequential()
    ensures MergeAll(FileIndexes(["a.txt", "b.txt"], ExampleKeywords, ExampleDisk, 4096))
            == map["book" := ["a.txt"], "summer" := ["b.txt"]]
  {
    var ia: Index := map["book" := ["a.txt"]];
    var ib: Index := map["summer" := ["b.txt"]];
    ExampleFirstFile();
    ExampleSecondFile();
    var indexes := FileIndexes(["a.txt", "b.txt"], ExampleKeywords, ExampleDisk, 4096);
    assert indexes[0] == ia && indexes[1] == ib;
    assert indexes == [ia, ib];
    MergeAllPair(ia, ib);
    IndexExtensionality(MergeInto(ia, ib), map["book" := ["a.txt"], "summer" := ["b.txt"]]);
  }

  /** Two files, three keywords, two workers, default buffer: "book" is listed for the first
      file, "summer" for the second, and "life", found nowhere, is absent; the result is the
      same whichever worker finishes first. */
  lemma TwoFileExample(order: seq<nat>)
    requires IsDrainOrder(order, 2)
    ensures MergeAll(Drained(Workers(Partition(["a.txt", "b.txt"], 2), ExampleKeywords, ExampleDisk, 4096), order))
            == map["book" := ["a.txt"], "summer" := ["b.txt"]]
  {
    var expected := map["book" := ["a.txt"], "summer" := ["b.txt"]];
    ExampleSequential();
    ParallelSearchMatchesSequential(["a.txt", "b.txt"], ExampleKeywords, 2, 4096, ExampleDisk, order);
    var parallel := MergeAll(Drained(Workers(Partition(["a.txt", "b.txt"], 2), ExampleKeywords, ExampleDisk, 4096), order));
    forall k ensures Get(parallel, k) == Get(expected, k) {
      SingletonMultiset(Get(parallel, k), Get(expected, k));
    }
    IndexExtensionality(parallel, expected);
  }

  /** A list with the same elements as a list of at most one element is that list. */
  lemma SingletonMultiset(xs: seq<FileId>, ys: seq<FileId>)
    requires |ys| <= 1 && multiset(xs) == multiset(ys)
    ensures xs == ys
  {
    assert |xs| == |multiset(xs)| == |multiset(ys)| == |ys|;
    if |ys| == 1 {
      assert xs[0] in multiset(ys);
    }
  }
}

# Keyword search over files with Boyer–Moore–Horspool, modelled in Dafny

`multiprocess.py` searches a list of text files for a list of keywords. It splits the file list
into one contiguous slice per worker process. Each worker runs a Boyer–Moore–Horspool search of
every keyword over every file of its slice, reading the file in fixed-size chunks, and collects
a mapping keyword → list of files. The workers put their mappings on a queue, and the
coordinator merges them by key.

This project models that core:

- `shift_table.dfy` (module `ShiftTable`): `build_shift_table`. This is the bad-character table:
  right-most occurrence before the last position, then `setdefault` for the last character.
- `horspool.dfy` (module `Horspool`): the right-to-left scan of one chunk, proved against plain
  substring occurrence.
- `chunks.dfy` (module `ChunkReader`): the `read_file_in_chunks` generator, as a function from a
  file's text and the buffer size to the chunks it yields.
- `file_search.dfy` (module `FileSearch`): `bm_search` over a modelled file system, where each
  file is readable with some text or raises. It also holds the worker
  `search_keywords_in_files`, which skips files on which `bm_search` raises.
- `keyword_index.dfy` (module `KeywordIndex`): the `defaultdict(list)` mappings and the
  extend-by-key merge used both by a worker and by the final drain.
- `coordinator.dfy` (module `Coordinator`): `multiprocessing_search`, meaning the slicing, the
  workers and the drain of the queue.
- `seqs.dfy`, `outcome.dfy`: sequence helpers (flattening, ranges, repetition) and the
  success/failure result type.

The loops of the source are methods with loop invariants:
- the table fill;
- the two nested scan loops;
- the per-keyword chunk loop;
- the per-file loop of a worker;
- the worker-start loop;
- the drain loop.

Each method is proved equal to a specification function, and the lemmas beside it state what
that function means. The main results are:
- the scan reports a keyword iff it occurs in the chunk;
- a keyword is listed for a file once per chunk containing it, and a straddling occurrence is
  missed;
- the slices cover the file list exactly once and in order;
- merging in any drain order gives, per keyword, the same multiset of files as one sequential
  pass over the whole list. The same keys are present. In worker order the result is exactly
  the sequential one.

The worker processes run one after another in the model. The order in which their results come
off the queue is a parameter `drainOrder`, a permutation of the worker indices. Opening and
decoding a file is a parameter as well: a map `Disk` from each path to one of three values:
- `Readable(text)`, a file whose bytes decode to `text`;
- `Undecodable`, a file that opens but whose bytes are not valid UTF-8;
- `Missing`, a file that cannot be opened. This is also the value for a path not in the map.

Behaviour the model keeps exactly as the code has it, where a more careful search would differ:

- The chunked scan carries nothing from one chunk to the next. A boundary-safe scan would
  carry the last `len(pattern) - 1` characters over. Here an occurrence that straddles two
  chunks is not found, and a file is listed once per chunk containing the keyword
  (`FileSearch.StraddlingOccurrenceIsMissed`, `FileSearch.FileHitsMeaning`).
- An empty keyword does not stop the run. `pattern[-1]` raises inside `bm_search`, and the
  worker's `except Exception` swallows the error. Each file then contributes nothing, and the
  run goes on (`FileSearch.BmSearch`, `FileSearch.FailingFileContributesNothing`).
- An empty file list still starts `num_processes` workers, each on an empty slice. The result
  is the empty mapping (`Coordinator.EmptyFileListGivesEmptyResult`).

Edge cases taken from the code:

- `buffer_size == 0`: `f.read(0)` returns `""` without decoding anything. The generator yields
  nothing, no keyword is ever found, and even an undecodable file raises nothing
  (`FileSearch.UndecodableFileFailsOnlyWhenRead`).
- `buffer_size < 0`: the first read returns the whole file.
- `num_processes == 0`: `len(files) // 0` raises, modelled as `Failure(NoWorkers)`.
- `num_processes < 0`: `range` is empty, so no worker starts and the result is `{}`.

## Model

| member | source | states |
|---|---|---|
| ShiftTable.BuildShiftTable | multiprocess.py:11-26 | For a non-empty pattern, the keys are exactly the pattern's characters. Every shift lies in [1, len]. A character whose right-most occurrence before the last position is at i maps to len-1-i. The last character maps to len iff it does not occur earlier (`setdefault` does not overwrite). The result is the shift table of the pattern. |
| ShiftTable.ShiftTableFacts | multiprocess.py:23-25 | Any table meeting the right-most-occurrence definition has shifts in [1, len]. It has the right-most-occurrence value for each character before the last position, and the `setdefault` value for the last character. |
| ShiftTable.SetDefaultCompletes | multiprocess.py:23-25 | The table filled by the loop over `pattern[:-1]` becomes the full shift table once the last character is added only if absent. |
| ShiftTable.ShiftSkipsNoAlignment | multiprocess.py:73 | Shifting by less than the table's shift would align a pattern character other than the one under the window's last position, so the skipped windows cannot match. |
| Horspool.HorspoolFind | multiprocess.py:64-73 | The right-to-left scan with the bad-character shift (default len) returns found iff the pattern occurs as a contiguous substring of the chunk. Every index access is in bounds and the loop terminates. |
| ChunkReader.Chunks | multiprocess.py:52-57 | Every chunk yielded is non-empty. With a positive buffer size, each chunk holds at most `buffer_size` characters. |
| ChunkReader.ChunksConcatenate | multiprocess.py:52-57 | The chunks concatenate, in order, to the file's whole text; with `buffer_size == 0` nothing is yielded. |
| ChunkReader.ChunksAreFull | multiprocess.py:54 | Every chunk but the last is exactly `buffer_size` characters long. |
| ChunkReader.SingleReadIsWholeFile | multiprocess.py:54 | A negative buffer size, or one at least the file's length, yields the whole non-empty text as one chunk. |
| ChunkReader.ChunkOccurrenceIsFileOccurrence | multiprocess.py:52-63 | An occurrence inside a chunk is an occurrence in the file, so chunking adds no false hits. |
| FileSearch.SearchPattern | multiprocess.py:62-73 | For one keyword, the file is appended once for each chunk in which the scan finds the keyword (the `break` leaves only the scan of that chunk), and the key is left untouched when no chunk holds it. |
| FileSearch.BmSearch | multiprocess.py:29-75 | It raises on an empty keyword (at `pattern[-1]`), on a missing file (at `open`) or on an undecodable file read with a non-zero count, whichever comes first in keyword order. With no keywords it returns `{}` without opening the file. Otherwise it returns the per-keyword chunk hits over the file's chunks. |
| FileSearch.FileHitsMeaning | multiprocess.py:61-75 | A keyword is a key of bm_search's mapping iff it is in the list and some single chunk contains it. The file is then listed (occurrences in the keyword list) × (chunks containing it) times. No key maps to an empty list. |
| FileSearch.StraddlingOccurrenceIsMissed | multiprocess.py:53-73 | "bc" occurs in "abcd". Read in chunks of 2 it is not found; read in one chunk of 4 it is. |
| FileSearch.WholeFileReadIsExact | multiprocess.py:52-75 | When one read takes the whole file, a keyword is found iff it occurs in the file's text, and the file is listed once per occurrence of the keyword in the list. |
| FileSearch.FoundKeywordOccursInFile | multiprocess.py:61-75 | A keyword reported for a file is in the keyword list and occurs in that readable file's text. |
| FileSearch.FileIndexNoEmptyLists | multiprocess.py:90-99 | What a file contributes to a worker (bm_search's mapping, or nothing when it raised) never maps a keyword to an empty list. |
| FileSearch.FailingFileContributesNothing | multiprocess.py:90-99 | A file on which bm_search raises contributes nothing. The worker's result is exactly the one for the slice without that file, so the later files are still searched. |
| FileSearch.SearchKeywordsInFiles | multiprocess.py:78-102 | The worker's mapping is the key-by-key merge of its files' mappings, in file order. Each keyword lists the concatenation of the files' lists. A key is present iff some file's mapping has it, and no list is empty. |
| FileSearch.WorkerResultMeaning | multiprocess.py:89-95 | The merged mapping of a slice has, per keyword, the concatenation of the files' lists in order. A key is present iff some file's mapping has it, and no list is empty. |
| FileSearch.UndecodableFileFailsOnlyWhenRead | multiprocess.py:52-57 | For a non-empty list of non-empty keywords, an undecodable file makes bm_search raise a decode error exactly when the buffer size is non-zero. With a buffer size of 0 it returns `{}`, because `f.read(0)` decodes nothing. |
| FileSearch.WorkerListsOnlyMatchingFiles | multiprocess.py:89-99 | Every file a worker lists under a keyword is a file of its slice, is readable, and contains the keyword. |
| KeywordIndex.ExtendAll | multiprocess.py:94-95 | `for keyword, paths in result.items(): acc[keyword].extend(paths)` leaves each key with acc's list followed by the part's list. The keys are those of either mapping. |
| KeywordIndex.MergeAllConcatenates | multiprocess.py:163-167 | After merging a sequence of mappings, each keyword's list is the concatenation of that keyword's lists in the inputs, in input order. |
| KeywordIndex.MergeAllKeys | multiprocess.py:163-167 | A key is present after merging iff some input has it. Merging inputs with no empty lists gives no empty list. |
| KeywordIndex.MergeAllSkipsEmpty | multiprocess.py:96-99 | An empty mapping among the inputs (a skipped file) changes nothing in the merge. |
| KeywordIndex.DrainOrderIrrelevant | multiprocess.py:163-167 | Merging any reordering of the partial results gives, for every keyword, the same multiset of files, and the same keys are present. |
| Coordinator.PartitionShape | multiprocess.py:147-155 | There are exactly n slices. The first n-1 have length `len(files) // n` and the last has the remainder. With n > len(files), all but the last are empty and the last is the whole list. |
| Coordinator.PartitionCovers | multiprocess.py:147-155 | The slices concatenate in worker order to the file list, so each file is assigned to exactly one worker. |
| Coordinator.StartWorkers | multiprocess.py:152-158 | Worker i searches exactly the slice `files[i*chunk_size : end]` and produces that slice's worker mapping. |
| Coordinator.DrainQueue | multiprocess.py:162-167 | Draining the queue in the given order merges the partial results, in that order, into the final mapping. |
| Coordinator.WorkersInOrderMatchSequential | multiprocess.py:147-167 | Merged in worker order, the partial results equal one sequential worker pass over the whole file list. |
| Coordinator.ParallelSearchMatchesSequential | multiprocess.py:128-171 | Whatever order the workers finish in, the final mapping has the same keys as one sequential pass, and each keyword has the same multiset of files. When the workers finish in worker order, the mapping equals the sequential one. |
| Coordinator.MultiprocessingSearch | multiprocess.py:128-171 | `num_processes == 0` raises. A negative count gives `{}`. Otherwise the result is the merge of the workers' mappings in drain order, with the same keys and per-keyword file multisets as a sequential search. |
| Coordinator.EmptyFileListGivesEmptyResult | multiprocess.py:147-171 | With no files, every worker has an empty slice and the final mapping is `{}`. |
| Coordinator.TwoFileExample | multiprocess.py:128-171 | The inputs are "a.txt" ("the book is here") and "b.txt" ("summer is great"), the keywords book/summer/life, two workers and buffer 4096. The result is {"book": ["a.txt"], "summer": ["b.txt"]} in either drain order, and "life" is absent. |

## Left out

- Processes, `Queue`, `Lock`, `start` and `join` are not modelled; workers run one after another. The queue's delivery order is the `drainOrder` parameter.
- `cpu_count()`, the default worker count when `num_processes` is `None`, is left out; the count is always given.
- Reliance on `queue.empty()` after `join` is left out. The model assumes every partial result is drained exactly once (`IsDrainOrder`). It does not model a stale `empty()` or a worker blocked on a full pipe before `join` returns.
- File I/O is left out: `open`, UTF-8 decoding and newline translation.
  - A file is `Readable(text)`, `Undecodable` or `Missing`, and `buffer_size` counts characters, as text-mode `read` does.
  - With a non-zero buffer size, an undecodable file raises during the first keyword's reads. The model raises before any chunk is scanned, not at the read that meets the bad bytes. Either way bm_search's partial result is discarded and its outcome is the same exception.
- The worker's two `except` branches (`FileNotFoundError` and any other `Exception`) differ only in their log line, which is not modelled. Either way the file contributes nothing.
- `get_files_from_directory` (directory listing) is not part of this model.
- Logging, `time.time()` measurements and the `__main__` driver are left out.
- Coordinator.MultiprocessingSearch: the final mapping is stated exactly for the given drain order, but it is compared with a sequential search per keyword only up to the order of files in each list. That order depends on which worker finishes first.


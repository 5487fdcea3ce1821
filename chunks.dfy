/** The chunk generator read_file_in_chunks of bm_search (multiprocess.py): a readable
    file's decoded text, read through `f.read(buffer_size)` until a read returns "". */
module ChunkReader {
  import opened Seqs
  import opened Horspool

  /** The pieces the generator yields for a file whose text is `text`. A text-mode read of
      n > 0 characters returns n characters, or what is left before the end of the file;
      a read of 0 characters returns "" and so ends the generator at once; a read of a
      negative count returns everything up to the end of the file. */
  function Chunks(text: string, bufferSize: int): (chunks: seq<string>)
    ensures forall i :: 0 <= i < |chunks| ==> chunks[i] != []
    ensures bufferSize > 0 ==> forall i :: 0 <= i < |chunks| ==> |chunks[i]| <= bufferSize
    decreases |text|
  {
    if text == [] || bufferSize == 0 then []
    else if bufferSize < 0 || |text| <= bufferSize then [text]
    else [text[..bufferSize]] + Chunks(text[bufferSize..], bufferSize)
  }

  /** Reading never loses or reorders text: the chunks concatenate to the whole text,
      unless the buffer size is 0, in which case nothing is yielded. */
  lemma {:induction false} ChunksConcatenate(text: string, bufferSize: int)
    ensures bufferSize != 0 ==> Flatten(Chunks(text, bufferSize)) == text
    ensures bufferSize == 0 ==> Chunks(text, bufferSize) == []
    decreases |text|
  {
    if text != [] && bufferSize > 0 && |text| > bufferSize {
      ChunksConcatenate(text[bufferSize..], bufferSize);
      assert text == text[..bufferSize] + text[bufferSize..];
    } else if text != [] && bufferSize != 0 {
      assert Flatten([text]) == text + Flatten([]);
    }
  }

  /** Every chunk but the last is exactly `bufferSize` long. */
  lemma {:induction false} ChunksAreFull(text: string, bufferSize: int, i: int)
    requires bufferSize > 0
    requires 0 <= i < |Chunks(text, bufferSize)| - 1
    ensures |Chunks(text, bufferSize)[i]| == bufferSize
    decreases |text|
  {
    if i > 0 {
      ChunksAreFull(text[bufferSize..], bufferSize, i - 1);
    }
  }

  /** A pattern found in some chunk occurs in the file's text: the chunked scan reports
      no false hits. */
  lemma {:induction false} ChunkOccurrenceIsFileOccurrence(pattern: string, text: string, bufferSize: int, i: int)
    requires 0 <= i < |Chunks(text, bufferSize)|
    requires Occurs(pattern, Chunks(text, bufferSize)[i])
    ensures Occurs(pattern, text)
    decreases |text|
  {
    if |text| > bufferSize > 0 {
      assert text == text[..bufferSize] + text[bufferSize..];
      if i == 0 {
        OccursInConcat(pattern, text[..bufferSize], text[bufferSize..]);
      } else {
        ChunkOccurrenceIsFileOccurrence(pattern, text[bufferSize..], bufferSize, i - 1);
        OccursInConcat(pattern, text[..bufferSize], text[bufferSize..]);
      }
    }
  }

  /** When one read takes in the whole file (a negative buffer size, or one at least the
      file's length), a non-empty file is a single chunk. */
  lemma SingleReadIsWholeFile(text: string, bufferSize: int)
    requires text != []
    requires bufferSize < 0 || bufferSize >= |text|
    ensures Chunks(text, bufferSize) == [text]
  {
  }
}

/** The single-chunk Boyer-Moore-Horspool scan inside bm_search (multiprocess.py). */
module Horspool {
  import opened ShiftTable

  /** pattern sits in text at offset i. */
  predicate MatchAt(text: string, pattern: string, i: int)
  {
    0 <= i && i + |pattern| <= |text| && text[i..i + |pattern|] == pattern
  }

  /** pattern occurs in text as a contiguous substring. */
  predicate Occurs(pattern: string, text: string)
  {
    exists i :: 0 <= i <= |text| - |pattern| && MatchAt(text, pattern, i)
  }

  /** An occurrence in a piece of a text is an occurrence in the whole text. */
  lemma OccursInConcat(pattern: string, a: string, b: string)
    ensures Occurs(pattern, a) ==> Occurs(pattern, a + b)
    ensures Occurs(pattern, b) ==> Occurs(pattern, a + b)
  {
    if Occurs(pattern, a) {
      var i :| 0 <= i <= |a| - |pattern| && MatchAt(a, pattern, i);
      assert (a + b)[i..i + |pattern|] == a[i..i + |pattern|];
      assert MatchAt(a + b, pattern, i);
    }
    if Occurs(pattern, b) {
      var j :| 0 <= j <= |b| - |pattern| && MatchAt(b, pattern, j);
      assert (a + b)[|a| + j..|a| + j + |pattern|] == b[j..j + |pattern|];
      assert MatchAt(a + b, pattern, |a| + j);
    }
  }

  /** Every character of a pattern that occurs in a text is a character of the text; so a
      pattern holding a character the text lacks does not occur in it. */
  lemma OccurrenceHasPatternCharacter(pattern: string, text: string, j: nat)
    requires j < |pattern|
    ensures Occurs(pattern, text) ==> pattern[j] in text
  {
    if Occurs(pattern, text) {
      var i :| 0 <= i <= |text| - |pattern| && MatchAt(text, pattern, i);
      assert text[i..i + |pattern|][j] == text[i + j];
    }
  }

  /** With the window at i and c = text[i + |pattern| - 1] under its last position, no
      window start strictly between i and i + ShiftFor(pattern, c) is a match. */
  lemma SkippedWindowsDoNotMatch(text: string, pattern: string, i: int, k: int)
    requires pattern != []
    requires 0 <= i && i + |pattern| <= |text|
    requires 0 < k < ShiftFor(pattern, text[i + |pattern| - 1])
    ensures !MatchAt(text, pattern, i + k)
  {
    var c := text[i + |pattern| - 1];
    ShiftSkipsNoAlignment(pattern, c, k);
  }

  /** Scans one chunk right to left with the bad-character rule: on a mismatch the window
      moves by the table entry of the chunk character under the window's last position,
      |pattern| when that character is not a key. Reports whether the pattern occurs. */
  method HorspoolFind(chunk: string, pattern: string, table: map<char, int>) returns (found: bool)
    requires pattern != []
    requires IsShiftTableFor(pattern, table)
    ensures found <==> Occurs(pattern, chunk)
  {
    var length := |pattern|;
    var i := 0;
    while i <= |chunk| - length
      invariant 0 <= i
      invariant forall k :: 0 <= k < i ==> !MatchAt(chunk, pattern, k)
      decreases |chunk| - i
    {
      var j := length - 1;
      while j >= 0 && chunk[i + j] == pattern[j]
        invariant -1 <= j < length
        invariant forall m :: j < m < length ==> chunk[i + m] == pattern[m]
      {
        j := j - 1;
      }
      if j < 0 {
        assert chunk[i..i + length] == pattern;
        assert MatchAt(chunk, pattern, i);
        return true;
      }
      assert chunk[i..i + length][j] != pattern[j];
      var c := chunk[i + length - 1];
      var shift := if c in table then table[c] else length;
      assert shift == ShiftFor(pattern, c) by {
        if c !in table {
          assert c !in CharsOf(pattern);
          assert c !in CharsOf(pattern[..length - 1]) by {
            assert pattern[..length] == pattern;
            CharsOfSnoc(pattern, length - 1);
          }
          RightmostIsInPrefix(pattern, c, length - 1);
        }
      }
      ShiftInRange(pattern, c);
      forall k | i < k < i + shift
        ensures !MatchAt(chunk, pattern, k)
      {
        SkippedWindowsDoNotMatch(chunk, pattern, i, k - i);
      }
      i := i + shift;
    }
    return false;
  }
}

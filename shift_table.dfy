/** The bad-character shift table of the Boyer-Moore-Horspool search (multiprocess.py,
    build_shift_table). */
module ShiftTable {

  /** The set of characters that occur in s. */
  function CharsOf(s: string): (chars: set<char>)
  {
    set i | 0 <= i < |s| :: s[i]
  }

  /** The largest index below n at which c occurs in p, or -1 when there is none. */
  function RightmostBefore(p: string, c: char, n: nat): (r: int)
    requires n <= |p|
    ensures -1 <= r < n
    ensures r >= 0 ==> p[r] == c
    ensures forall k :: r < k < n ==> p[k] != c
  {
    if n == 0 then -1
    else if p[n - 1] == c then n - 1
    else RightmostBefore(p, c, n - 1)
  }

  /** The shift the search makes when c is under the last position of the window: the
      distance from the right-most occurrence of c among all but the last character of p
      to the last position, or |p| when c does not occur there. */
  function ShiftFor(p: string, c: char): (shift: int)
    requires p != []
  {
    var r := RightmostBefore(p, c, |p| - 1);
    if r >= 0 then |p| - 1 - r else |p|
  }

  /** table is the shift table of p: its keys are p's characters and each maps to its shift. */
  predicate IsShiftTableFor(p: string, table: map<char, int>)
    requires p != []
  {
    && table.Keys == CharsOf(p)
    && forall c :: c in table ==> table[c] == ShiftFor(p, c)
  }

  /** Every shift lies in [1, |p|]. */
  lemma ShiftInRange(p: string, c: char)
    requires p != []
    ensures 1 <= ShiftFor(p, c) <= |p|
  {
  }

  /** The Horspool skip is safe: if c sits under the last position of the window, then
      aligning the pattern k positions further, for any k below the shift of c, puts a
      character of p other than c above that same position. */
  lemma ShiftSkipsNoAlignment(p: string, c: char, k: int)
    requires p != []
    requires 0 < k < ShiftFor(p, c)
    ensures k < |p| && p[|p| - 1 - k] != c
  {
  }

  /** A character whose right-most occurrence before the last position is at index i
      shifts by |p| - 1 - i. */
  lemma ShiftForRightmost(p: string, i: nat)
    requires i < |p| - 1
    requires forall k :: i < k < |p| - 1 ==> p[k] != p[i]
    ensures ShiftFor(p, p[i]) == |p| - 1 - i
  {
    assert RightmostBefore(p, p[i], |p| - 1) >= i;
  }

  /** The last character shifts by |p| exactly when it does not occur earlier in p. */
  lemma ShiftForLast(p: string)
    requires p != []
    ensures ShiftFor(p, p[|p| - 1]) == |p| <==> forall k :: 0 <= k < |p| - 1 ==> p[k] != p[|p| - 1]
  {
    var last := p[|p| - 1];
    if exists k :: 0 <= k < |p| - 1 && p[k] == last {
      var k :| 0 <= k < |p| - 1 && p[k] == last;
      assert RightmostBefore(p, last, |p| - 1) >= k;
    }
  }

  lemma CharsOfSnoc(s: string, n: nat)
    requires n < |s|
    ensures CharsOf(s[..n + 1]) == CharsOf(s[..n]) + {s[n]}
  {
    assert s[..n + 1] == s[..n] + [s[n]];
  }

  lemma RightmostIsInPrefix(p: string, c: char, n: nat)
    requires n <= |p|
    ensures RightmostBefore(p, c, n) >= 0 ==> c in CharsOf(p[..n])
  {
    var r := RightmostBefore(p, c, n);
    if r >= 0 {
      assert p[..n][r] == c;
    }
  }

  /** What a shift table promises, read off the right-most-occurrence rule. */
  lemma ShiftTableFacts(p: string, table: map<char, int>)
    requires p != [] && IsShiftTableFor(p, table)
    ensures forall c :: c in table ==> 1 <= table[c] <= |p|
    ensures forall i :: 0 <= i < |p| - 1 && (forall k :: i < k < |p| - 1 ==> p[k] != p[i])
                        ==> table[p[i]] == |p| - 1 - i
    ensures table[p[|p| - 1]] == |p| <==> forall k :: 0 <= k < |p| - 1 ==> p[k] != p[|p| - 1]
  {
    forall c | c in table ensures 1 <= table[c] <= |p| {
      ShiftInRange(p, c);
    }
    forall i | 0 <= i < |p| - 1 && (forall k :: i < k < |p| - 1 ==> p[k] != p[i])
      ensures table[p[i]] == |p| - 1 - i
    {
      ShiftForRightmost(p, i);
    }
    ShiftForLast(p);
  }

  /** The `setdefault` step: a table holding the right-most shifts of all but the last
      character becomes the full shift table once the last character is added if absent. */
  lemma SetDefaultCompletes(p: string, table: map<char, int>)
    requires p != []
    requires table.Keys == CharsOf(p[..|p| - 1])
    requires forall c :: c in table ==> table[c] == |p| - 1 - RightmostBefore(p, c, |p| - 1)
    ensures var last := p[|p| - 1];
            IsShiftTableFor(p, if last in table then table else table[last := |p|])
  {
    var last := p[|p| - 1];
    CharsOfSnoc(p, |p| - 1);
    assert p[..|p|] == p;
    var full := if last in table then table else table[last := |p|];
    var prefix := p[..|p| - 1];
    assert CharsOf(p) == CharsOf(prefix) + {last};
    if last in table {
      assert full.Keys == CharsOf(p);
    } else {
      assert full.Keys == table.Keys + {last};
    }
    forall c | c in full ensures full[c] == ShiftFor(p, c) {
      if c in table {
        OccursBeforeLast(p, c);
      } else {
        RightmostIsInPrefix(p, c, |p| - 1);
      }
    }
  }

  /** A character of all but the last position has a right-most occurrence there. */
  lemma OccursBeforeLast(p: string, c: char)
    requires p != [] && c in CharsOf(p[..|p| - 1])
    ensures RightmostBefore(p, c, |p| - 1) >= 0
  {
    var prefix := p[..|p| - 1];
    var k :| 0 <= k < |prefix| && prefix[k] == c;
    assert p[k] == c;
  }

  /** Builds the shift table of a non-empty pattern: every character before the last
      position maps to |pattern| - 1 - index, later occurrences overwriting earlier ones;
      the last character is then set to |pattern| only if it is not already a key. */
  method BuildShiftTable(pattern: string) returns (table: map<char, int>)
    requires pattern != []
    ensures table.Keys == CharsOf(pattern)
    ensures forall c :: c in table ==> 1 <= table[c] <= |pattern|
    ensures forall i :: 0 <= i < |pattern| - 1 && (forall k :: i < k < |pattern| - 1 ==> pattern[k] != pattern[i])
                        ==> table[pattern[i]] == |pattern| - 1 - i
    ensures table[pattern[|pattern| - 1]] == |pattern|
            <==> forall k :: 0 <= k < |pattern| - 1 ==> pattern[k] != pattern[|pattern| - 1]
    ensures IsShiftTableFor(pattern, table)
  {
    table := map[];
    var length := |pattern|;
    for index := 0 to length - 1
      invariant table.Keys == CharsOf(pattern[..index])
      invariant forall c :: c in table ==> table[c] == length - 1 - RightmostBefore(pattern, c, index)
    {
      CharsOfSnoc(pattern, index);
      table := table[pattern[index] := length - index - 1];
    }
    SetDefaultCompletes(pattern, table);
    var last := pattern[length - 1];
    if last !in table {
      table := table[last := length];
    }
    ShiftTableFacts(pattern, table);
  }
}

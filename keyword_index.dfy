/** The keyword -> file-list mappings of multiprocess.py, which are `defaultdict(list)`
    values: reading a missing key gives the empty list, and `d[k].extend(xs)` creates the
    key (even when xs is empty) and appends xs to its list. */
module KeywordIndex {
  import opened Seqs

  type Keyword = string
  type FileId = string
  type Index = map<Keyword, seq<FileId>>

  /** `d[k]` read through the defaultdict: the list of k, or the empty list. */
  function Get(d: Index, k: Keyword): (xs: seq<FileId>)
  {
    if k in d then d[k] else []
  }

  /** `d[k].extend(xs)`. */
  function Extend(d: Index, k: Keyword, xs: seq<FileId>): (r: Index)
    ensures r.Keys == d.Keys + {k}
    ensures Get(r, k) == Get(d, k) + xs
    ensures forall k' :: k' != k ==> Get(r, k') == Get(d, k')
  {
    d[k := Get(d, k) + xs]
  }

  /** No key maps to the empty list. */
  predicate NoEmptyLists(d: Index)
  {
    forall k :: k in d ==> d[k] != []
  }

  /** The outcome of `for k, xs in part.items(): acc[k].extend(xs)`: every key of either
      mapping is present and holds acc's list followed by part's. */
  function MergeInto(acc: Index, part: Index): (r: Index)
  {
    map k | k in acc.Keys + part.Keys :: Get(acc, k) + Get(part, k)
  }

  /** Merging one mapping after another, in order, starting from the empty mapping. */
  function MergeAll(parts: seq<Index>): (r: Index)
  {
    if parts == [] then map[] else MergeInto(MergeAll(parts[..|parts| - 1]), parts[|parts| - 1])
  }

  /** Reads the list of key k from a mapping (as a function value, for FlatMap). */
  function ListOf(k: Keyword): (read: Index -> seq<FileId>)
  {
    d => Get(d, k)
  }

  /** Extends acc by every entry of part, one key at a time, as the merge loops of the
      worker and of the final drain do. */
  method ExtendAll(acc: Index, part: Index) returns (merged: Index)
    ensures merged.Keys == acc.Keys + part.Keys
    ensures forall k :: Get(merged, k) == Get(acc, k) + Get(part, k)
    ensures merged == MergeInto(acc, part)
  {
    merged := acc;
    var pending := part.Keys;
    while pending != {}
      invariant pending <= part.Keys
      invariant merged.Keys == acc.Keys + (part.Keys - pending)
      invariant forall k :: Get(merged, k) == Get(acc, k) + (if k in part && k !in pending then part[k] else [])
      decreases pending
    {
      var k :| k in pending;
      merged := Extend(merged, k, part[k]);
      pending := pending - {k};
    }
    MergeIntoCharacterized(acc, part, merged);
  }

  /** MergeInto is determined by its key set and the list each key reads. */
  lemma MergeIntoCharacterized(acc: Index, part: Index, m: Index)
    requires m.Keys == acc.Keys + part.Keys
    requires forall k :: Get(m, k) == Get(acc, k) + Get(part, k)
    ensures m == MergeInto(acc, part)
  {
    forall k | k in m ensures m[k] == MergeInto(acc, part)[k] {
      assert Get(m, k) == m[k];
    }
  }

  /** Merging keeps, for every key, the concatenation of the inputs' lists in input order. */
  lemma {:induction false} MergeAllConcatenates(parts: seq<Index>, k: Keyword)
    ensures Get(MergeAll(parts), k) == FlatMap(ListOf(k), parts)
  {
    if parts != [] {
      var init := parts[..|parts| - 1];
      var last := parts[|parts| - 1];
      MergeAllConcatenates(init, k);
      assert parts == init + [last];
      FlatMapConcat(ListOf(k), init, [last]);
      assert FlatMap(ListOf(k), [last]) == Get(last, k) + FlatMap(ListOf(k), []);
    }
  }

  /** A key is present after merging iff some input has it; when no input holds an empty
      list, neither does the merge, and then a key is present iff its list is non-empty. */
  lemma MergeAllKeys(parts: seq<Index>)
    ensures forall k :: k in MergeAll(parts) <==> exists i :: 0 <= i < |parts| && k in parts[i]
    ensures (forall i :: 0 <= i < |parts| ==> NoEmptyLists(parts[i])) ==> NoEmptyLists(MergeAll(parts))
  {
    forall k ensures k in MergeAll(parts) <==> exists i :: 0 <= i < |parts| && k in parts[i] {
      MergeAllKeyAt(parts, k);
    }
    if forall i :: 0 <= i < |parts| ==> NoEmptyLists(parts[i]) {
      MergeAllNoEmptyLists(parts);
    }
  }

  /** MergeAllKeys for one key, by induction on the inputs. */
  lemma {:induction false} MergeAllKeyAt(parts: seq<Index>, k: Keyword)
    ensures k in MergeAll(parts) <==> exists i :: 0 <= i < |parts| && k in parts[i]
  {
    if parts != [] {
      var init := parts[..|parts| - 1];
      var last := parts[|parts| - 1];
      MergeAllKeyAt(init, k);
      assert k in MergeAll(parts) <==> k in MergeAll(init) || k in last;
      if k in MergeAll(init) {
        var i :| 0 <= i < |init| && k in init[i];
        assert k in parts[i];
      }
      if k in last {
        assert k in parts[|parts| - 1];
      }
      if exists i :: 0 <= i < |parts| && k in parts[i] {
        var i :| 0 <= i < |parts| && k in parts[i];
        if i < |init| {
          assert k in init[i];
        }
      }
    }
  }

  /** Merging inputs without empty lists gives a mapping without empty lists. */
  lemma {:induction false} MergeAllNoEmptyLists(parts: seq<Index>)
    requires forall i :: 0 <= i < |parts| ==> NoEmptyLists(parts[i])
    ensures NoEmptyLists(MergeAll(parts))
  {
    if parts != [] {
      MergeAllNoEmptyLists(parts[..|parts| - 1]);
    }
  }

  /** In a mapping without empty lists, a key is present exactly when its list is non-empty. */
  lemma PresentIffNonEmpty(d: Index, k: Keyword)
    requires NoEmptyLists(d)
    ensures k in d <==> Get(d, k) != []
  {
  }

  /** Two mappings with the same keys and the same list under every key are equal. */
  lemma IndexExtensionality(a: Index, b: Index)
    requires a.Keys == b.Keys
    requires forall k :: Get(a, k) == Get(b, k)
    ensures a == b
  {
    forall k | k in a ensures a[k] == b[k] {
      assert Get(a, k) == a[k] && Get(b, k) == b[k];
    }
  }

  /** Merging two mappings is merging the second into the first. */
  lemma MergeAllPair(a: Index, b: Index)
    ensures MergeAll([a, b]) == MergeInto(a, b)
  {
    assert [a, b][..1] == [a] && [a][..0] == [];
    IndexExtensionality(MergeInto(map[], a), a);
    assert MergeAll([a]) == a;
  }

  /** An empty mapping among the inputs changes nothing in the merge. */
  lemma MergeAllSkipsEmpty(before: seq<Index>, after: seq<Index>)
    ensures MergeAll(before + [map[]] + after) == MergeAll(before + after)
  {
    var all := before + [map[]] + after;
    var rest := before + after;
    forall k ensures Get(MergeAll(all), k) == Get(MergeAll(rest), k) {
      SkipEmptyAt(before, after, k);
    }
    SkipEmptyKeys(before, after);
    IndexExtensionality(MergeAll(all), MergeAll(rest));
  }

  /** The keys of all the inputs together. */
  function AllKeys(parts: seq<Index>): (keys: set<Keyword>)
  {
    if parts == [] then {} else AllKeys(parts[..|parts| - 1]) + parts[|parts| - 1].Keys
  }

  lemma {:induction false} MergeAllKeySet(parts: seq<Index>)
    ensures MergeAll(parts).Keys == AllKeys(parts)
  {
    if parts != [] {
      MergeAllKeySet(parts[..|parts| - 1]);
    }
  }

  lemma {:induction false} AllKeysConcat(a: seq<Index>, b: seq<Index>)
    ensures AllKeys(a + b) == AllKeys(a) + AllKeys(b)
  {
    if b != [] {
      var init := b[..|b| - 1];
      AllKeysConcat(a, init);
      assert (a + b)[..|a + b| - 1] == a + init;
    } else {
      assert a + b == a;
    }
  }

  lemma SkipEmptyKeys(before: seq<Index>, after: seq<Index>)
    ensures MergeAll(before + [map[]] + after).Keys == MergeAll(before + after).Keys
  {
    var empty: seq<Index> := [map[]];
    MergeAllKeySet(before + empty + after);
    MergeAllKeySet(before + after);
    AllKeysConcat(before + empty, after);
    AllKeysConcat(before, empty);
    AllKeysConcat(before, after);
    assert AllKeys(empty) == {} by {
      assert empty[..0] == [];
    }
  }

  lemma SkipEmptyAt(before: seq<Index>, after: seq<Index>, k: Keyword)
    ensures Get(MergeAll(before + [map[]] + after), k) == Get(MergeAll(before + after), k)
  {
    var empty: seq<Index> := [map[]];
    var f := ListOf(k);
    var all := before + empty + after;
    var rest := before + after;
    MergeAllConcatenates(all, k);
    MergeAllConcatenates(rest, k);
    FlatMapConcat(f, before + empty, after);
    FlatMapConcat(f, before, empty);
    FlatMapConcat(f, before, after);
    assert FlatMap(f, empty) == [] by {
      assert FlatMap(f, empty) == f(map[]) + FlatMap(f, empty[1..]);
      assert empty[1..] == [];
    }
    calc {
      FlatMap(f, all);
      FlatMap(f, before + empty) + FlatMap(f, after);
      FlatMap(f, before) + FlatMap(f, empty) + FlatMap(f, after);
      { assert FlatMap(f, before) + [] == FlatMap(f, before); }
      FlatMap(f, before) + FlatMap(f, after);
      FlatMap(f, rest);
    }
  }

  /** The final drain takes the partial results in whatever order the workers finished: for
      every key the merged list holds the same files, with the same multiplicities, in
      every order, and the same keys are present. */
  lemma DrainOrderIrrelevant(parts: seq<Index>, reordered: seq<Index>)
    requires multiset(parts) == multiset(reordered)
    ensures forall k :: multiset(Get(MergeAll(reordered), k)) == multiset(Get(MergeAll(parts), k))
    ensures MergeAll(reordered).Keys == MergeAll(parts).Keys
  {
    forall k ensures multiset(Get(MergeAll(reordered), k)) == multiset(Get(MergeAll(parts), k)) {
      MergeAllConcatenates(parts, k);
      MergeAllConcatenates(reordered, k);
      FlatMapPermutation(ListOf(k), reordered, parts);
    }
    forall k ensures k in MergeAll(reordered) <==> k in MergeAll(parts) {
      KeySurvivesReordering(parts, reordered, k);
      KeySurvivesReordering(reordered, parts, k);
    }
  }

  /** A key some input has is still present after merging the inputs in another order. */
  lemma KeySurvivesReordering(a: seq<Index>, b: seq<Index>, k: Keyword)
    requires multiset(a) == multiset(b)
    ensures k in MergeAll(a) ==> k in MergeAll(b)
  {
    MergeAllKeyAt(a, k);
    MergeAllKeyAt(b, k);
    if k in MergeAll(a) {
      var i :| 0 <= i < |a| && k in a[i];
      assert a[i] in multiset(b);
      var j :| 0 <= j < |b| && b[j] == a[i];
    }
  }
}

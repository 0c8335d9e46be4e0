/**
 * Whole-column operations of the table library, stated over sequences: boolean-mask
 * selection, first-occurrence de-duplication and the descending sort used by value counts.
 */
module Seqs {

  /** `r` is `s` with some elements removed and the rest kept in order: `r[k]` is `s[idx[k]]`
      and the positions `idx` strictly increase. */
  ghost predicate IsSelection<T>(s: seq<T>, r: seq<T>, idx: seq<int>)
  {
    && |idx| == |r|
    && (forall k :: 0 <= k < |idx| ==> 0 <= idx[k] < |s| && r[k] == s[idx[k]])
    && (forall k, l :: 0 <= k < l < |idx| ==> idx[k] < idx[l])
  }

  /** Boolean-mask indexing `df[mask]`: the rows that satisfy `p`, in their original order. */
  function Filter<T>(p: T -> bool, s: seq<T>): (r: seq<T>)
    ensures |r| <= |s|
  {
    if s == [] then []
    else
      var n := |s| - 1;
      assert s == s[..n] + [s[n]];
      var r' := Filter(p, s[..n]);
      if p(s[n]) then r' + [s[n]] else r'
  }

  /** Appending one input row, kept or not, extends a selection. */
  lemma SelectionSnoc<T>(s: seq<T>, r: seq<T>, idx: seq<int>, x: T, keep: bool)
    requires IsSelection(s, r, idx)
    ensures IsSelection(s + [x], if keep then r + [x] else r, if keep then idx + [|s|] else idx)
    ensures forall i :: 0 <= i < |s| ==> (i in (if keep then idx + [|s|] else idx) <==> i in idx)
    ensures (|s| in (if keep then idx + [|s|] else idx)) == keep
  {
    assert forall k :: 0 <= k < |idx| ==> idx[k] < |s|;
    assert forall k :: 0 <= k < |idx| ==> (s + [x])[idx[k]] == s[idx[k]];
  }

  /** The mask selection keeps exactly the positions whose row satisfies `p`, in order. */
  lemma {:induction false} FilterSelects<T>(p: T -> bool, s: seq<T>) returns (idx: seq<int>)
    ensures IsSelection(s, Filter(p, s), idx)
    ensures forall i :: 0 <= i < |s| ==> (i in idx <==> p(s[i]))
  {
    if s == [] {
      idx := [];
    } else {
      var n := |s| - 1;
      var init := s[..n];
      assert s == init + [s[n]];
      var idx' := FilterSelects(p, init);
      assert Filter(p, s) == if p(s[n]) then Filter(p, init) + [s[n]] else Filter(p, init);
      SelectionSnoc(init, Filter(p, init), idx', s[n], p(s[n]));
      idx := if p(s[n]) then idx' + [n] else idx';
      forall i | 0 <= i < |s|
        ensures i in idx <==> p(s[i])
      {
        if i < n {
          assert init[i] == s[i];
        }
      }
    }
  }

  /** A mask that every row satisfies leaves the table as it is. */
  lemma {:induction false} FilterKeepsAll<T>(p: T -> bool, s: seq<T>)
    requires forall x :: x in s ==> p(x)
    ensures Filter(p, s) == s
  {
    if s != [] {
      var n := |s| - 1;
      FilterKeepsAll(p, s[..n]);
      assert s == s[..n] + [s[n]];
    }
  }

  /** Masks that agree on every row select the same rows. */
  lemma {:induction false} FilterExt<T>(p: T -> bool, q: T -> bool, s: seq<T>)
    requires forall x :: p(x) == q(x)
    ensures Filter(p, s) == Filter(q, s)
  {
    if s != [] {
      FilterExt(p, q, s[..|s| - 1]);
    }
  }

  /** Two masks applied one after the other select what their conjunction selects. */
  lemma {:induction false} FilterFuse<T>(p: T -> bool, q: T -> bool, pq: T -> bool, s: seq<T>)
    requires forall x :: pq(x) == (p(x) && q(x))
    ensures Filter(q, Filter(p, s)) == Filter(pq, s)
  {
    if s != [] {
      var n := |s| - 1;
      FilterFuse(p, q, pq, s[..n]);
      var r' := Filter(p, s[..n]);
      if p(s[n]) {
        assert (r' + [s[n]])[..|r'|] == r';
      }
    }
  }

  /** The position `i` holds the first row of `s` with its key. */
  ghost predicate FirstOfKey<T, K>(key: T -> K, s: seq<T>, i: int)
    requires 0 <= i < |s|
  {
    forall j :: 0 <= j < i ==> key(s[j]) != key(s[i])
  }

  /** No two rows share a key. */
  ghost predicate UniqueKeys<T, K>(key: T -> K, s: seq<T>)
  {
    forall k, l :: 0 <= k < l < |s| ==> key(s[k]) != key(s[l])
  }

  /** `drop_duplicates(subset=key)` with its default `keep='first'`. */
  function DedupBy<T, K(==)>(key: T -> K, s: seq<T>): (r: seq<T>)
    ensures |r| <= |s|
  {
    if s == [] then []
    else
      var n := |s| - 1;
      var r' := DedupBy(key, s[..n]);
      if exists j | 0 <= j < n :: key(s[j]) == key(s[n]) then r' else r' + [s[n]]
  }

  /** De-duplication keeps exactly the first row of each key, in order. */
  lemma {:induction false} DedupSelects<T, K>(key: T -> K, s: seq<T>) returns (idx: seq<int>)
    ensures IsSelection(s, DedupBy(key, s), idx)
    ensures forall i :: 0 <= i < |s| ==> (i in idx <==> FirstOfKey(key, s, i))
  {
    if s == [] {
      idx := [];
    } else {
      var n := |s| - 1;
      var init := s[..n];
      assert s == init + [s[n]];
      var idx' := DedupSelects(key, init);
      var first := !exists j | 0 <= j < n :: key(s[j]) == key(s[n]);
      assert first == FirstOfKey(key, s, n);
      SelectionSnoc(init, DedupBy(key, init), idx', s[n], first);
      idx := if first then idx' + [n] else idx';
      forall i | 0 <= i < n
        ensures FirstOfKey(key, s, i) == FirstOfKey(key, init, i)
      {
        assert forall j :: 0 <= j <= i ==> init[j] == s[j];
      }
    }
  }

  /** After de-duplication no two rows share a key. */
  lemma DedupUnique<T, K>(key: T -> K, s: seq<T>)
    ensures UniqueKeys(key, DedupBy(key, s))
  {
    var r := DedupBy(key, s);
    var idx := DedupSelects(key, s);
    forall k, l | 0 <= k < l < |r|
      ensures key(r[k]) != key(r[l])
    {
      assert idx[l] in idx;
      assert FirstOfKey(key, s, idx[l]);
    }
  }

  /** Every key of the input is still present after de-duplication. */
  lemma {:induction false} DedupCovers<T, K>(key: T -> K, s: seq<T>)
    ensures forall x :: x in s ==> exists y :: y in DedupBy(key, s) && key(y) == key(x)
  {
    if s != [] {
      var n := |s| - 1;
      var init := s[..n];
      DedupCovers(key, init);
      var r' := DedupBy(key, init);
      var r := DedupBy(key, s);
      assert s == init + [s[n]];
      assert forall y :: y in r' ==> y in r;
      if exists j | 0 <= j < n :: key(s[j]) == key(s[n]) {
        var j :| 0 <= j < n && key(s[j]) == key(s[n]);
        assert init[j] in init;
        var y :| y in r' && key(y) == key(init[j]);
        assert y in r;
      } else {
        assert s[n] in r;
      }
    }
  }

  /** A table whose keys are already unique is left as it is. */
  lemma {:induction false} DedupOfUnique<T, K>(key: T -> K, s: seq<T>)
    requires UniqueKeys(key, s)
    ensures DedupBy(key, s) == s
  {
    if s != [] {
      var n := |s| - 1;
      DedupOfUnique(key, s[..n]);
      assert s == s[..n] + [s[n]];
    }
  }

  /** De-duplicating twice is the same as de-duplicating once. */
  lemma DedupIdempotent<T, K>(key: T -> K, s: seq<T>)
    ensures DedupBy(key, DedupBy(key, s)) == DedupBy(key, s)
  {
    DedupUnique(key, s);
    DedupOfUnique(key, DedupBy(key, s));
  }

  /** Every row of a selection of a table with unique keys has a key of its own. */
  lemma SelectionKeepsUniqueKeys<T, K>(key: T -> K, s: seq<T>, r: seq<T>, idx: seq<int>)
    requires UniqueKeys(key, s) && IsSelection(s, r, idx)
    ensures UniqueKeys(key, r)
  {
    forall k, l | 0 <= k < l < |r|
      ensures key(r[k]) != key(r[l])
    {
      assert idx[k] < idx[l];
    }
  }

  /** No entry occurs twice. */
  ghost predicate NoDuplicates<T>(s: seq<T>)
  {
    forall k, l :: 0 <= k < l < |s| ==> s[k] != s[l]
  }

  /** In a sequence without repeats every value occurs at most once. */
  lemma {:induction false} NoDuplicatesOccurOnce<T>(s: seq<T>, x: T)
    requires NoDuplicates(s)
    ensures multiset(s)[x] <= 1
  {
    if s != [] {
      var n := |s| - 1;
      var init := s[..n];
      assert s == init + [s[n]];
      assert NoDuplicates(init) by {
        forall k, l | 0 <= k < l < |init| ensures init[k] != init[l] {
          assert init[k] == s[k] && init[l] == s[l];
        }
      }
      NoDuplicatesOccurOnce(init, x);
      if x == s[n] {
        forall k | 0 <= k < |init| ensures init[k] != x {
          assert init[k] == s[k];
        }
        assert x !in init;
      }
    }
  }

  /** A value at two positions occurs at least twice. */
  lemma RepeatOccursTwice<T>(s: seq<T>, k: int, l: int)
    requires 0 <= k < l < |s| && s[k] == s[l]
    ensures multiset(s)[s[k]] >= 2
  {
    assert s == s[..l] + [s[l]] + s[l + 1..];
    assert s[..l][k] == s[k];
  }

  /** A permutation of a sequence without repeats has none either. */
  lemma PermutationKeepsNoDuplicates<T>(a: seq<T>, b: seq<T>)
    requires multiset(a) == multiset(b) && NoDuplicates(b)
    ensures NoDuplicates(a)
  {
    forall k, l | 0 <= k < l < |a|
      ensures a[k] != a[l]
    {
      if a[k] == a[l] {
        RepeatOccursTwice(a, k, l);
        NoDuplicatesOccurOnce(b, a[k]);
      }
    }
  }

  /** No label is listed twice. */
  ghost predicate DistinctLabels<L>(s: seq<(L, nat)>)
  {
    forall k, l :: 0 <= k < l < |s| ==> s[k].0 != s[l].0
  }

  /** A list with distinct labels has as many labels as entries. */
  lemma {:induction false} DistinctLabelsCount<L>(s: seq<(L, nat)>)
    requires DistinctLabels(s)
    ensures |set k | 0 <= k < |s| :: s[k].0| == |s|
  {
    if s != [] {
      var n := |s| - 1;
      var init := s[..n];
      assert DistinctLabels(init) by {
        forall k, l | 0 <= k < l < |init| ensures init[k].0 != init[l].0 {
          assert init[k] == s[k] && init[l] == s[l];
        }
      }
      DistinctLabelsCount(init);
      var before := set k | 0 <= k < |init| :: init[k].0;
      assert (set k | 0 <= k < |s| :: s[k].0) == before + {s[n].0} by {
        forall y | y in before ensures y in (set k | 0 <= k < |s| :: s[k].0) {
          var k :| 0 <= k < |init| && init[k].0 == y;
          assert s[k] == init[k];
        }
      }
      assert s[n].0 !in before by {
        forall k | 0 <= k < |init| ensures init[k].0 != s[n].0 {
          assert init[k] == s[k];
        }
      }
    }
  }

  /** A subset is no larger than its superset. */
  lemma SubsetNoLarger<T>(a: set<T>, b: set<T>)
    requires a <= b
    ensures |a| <= |b|
  {
    assert b == a + (b - a);
  }

  /** Counts in the order of the value-count table: never larger than the entry before. */
  ghost predicate NonIncreasing<L>(s: seq<(L, nat)>)
  {
    forall k, l :: 0 <= k < l < |s| ==> s[k].1 >= s[l].1
  }

  /** Places `e` after every entry whose count is at least its own. */
  function InsertByCount<L>(e: (L, nat), s: seq<(L, nat)>): (r: seq<(L, nat)>)
    ensures multiset(r) == multiset(s) + multiset{e}
  {
    if s == [] then [e]
    else if s[0].1 >= e.1 then
      assert s == [s[0]] + s[1..];
      [s[0]] + InsertByCount(e, s[1..])
    else
      [e] + s
  }

  /** Inserting into a list sorted by descending count keeps it sorted. */
  lemma {:induction false} InsertKeepsOrder<L>(e: (L, nat), s: seq<(L, nat)>)
    requires NonIncreasing(s)
    ensures NonIncreasing(InsertByCount(e, s))
  {
    if s != [] && s[0].1 >= e.1 {
      var tail := s[1..];
      assert NonIncreasing(tail) by {
        forall k, l | 0 <= k < l < |tail| ensures tail[k].1 >= tail[l].1 {
          assert tail[k] == s[k + 1] && tail[l] == s[l + 1];
        }
      }
      InsertKeepsOrder(e, tail);
      var r' := InsertByCount(e, tail);
      forall k | 0 <= k < |r'|
        ensures r'[k].1 <= s[0].1
      {
        assert r'[k] in multiset(r');
        if r'[k] != e {
          assert r'[k] in multiset(tail);
          var j :| 0 <= j < |tail| && tail[j] == r'[k];
          assert s[j + 1] == r'[k];
        }
      }
      var r := [s[0]] + r';
      forall k, l | 0 <= k < l < |r|
        ensures r[k].1 >= r[l].1
      {
        assert r[l] == r'[l - 1];
        if k > 0 {
          assert r[k] == r'[k - 1];
        }
      }
    }
  }

  /** Sorts entries by descending count, ties kept in their original order. */
  function SortByCount<L>(s: seq<(L, nat)>): (r: seq<(L, nat)>)
    ensures multiset(r) == multiset(s)
    ensures NonIncreasing(r)
  {
    if s == [] then []
    else
      var n := |s| - 1;
      assert s == s[..n] + [s[n]];
      var sorted := SortByCount(s[..n]);
      InsertKeepsOrder(s[n], sorted);
      InsertByCount(s[n], sorted)
  }
}

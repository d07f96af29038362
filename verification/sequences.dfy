/** Order-preserving filtering and concatenation over sequences, the two shapes the catalogue is built from. */
module Sequences {

  /** `idx` lists strictly increasing positions of `s` whose elements, read in order, are `r`. */
  ghost predicate Embeds<T>(idx: seq<int>, r: seq<T>, s: seq<T>)
  {
    && |idx| == |r|
    && (forall k :: 0 <= k < |idx| ==> 0 <= idx[k] < |s| && r[k] == s[idx[k]])
    && (forall k, l :: 0 <= k < l < |idx| ==> idx[k] < idx[l])
  }

  /** `r` is obtained from `s` by deleting elements, keeping the order of the rest. */
  ghost predicate IsSubsequence<T>(r: seq<T>, s: seq<T>)
  {
    exists idx :: Embeds(idx, r, s)
  }

  /** The elements of `s` that satisfy `keep`, in their original order (LINQ `Where` then `ToList`). */
  function Filter<T>(s: seq<T>, keep: T -> bool): (r: seq<T>)
    ensures |r| <= |s|
    ensures forall k :: 0 <= k < |r| ==> keep(r[k])
  {
    if |s| == 0 then []
    else
      var init, last := s[..|s| - 1], s[|s| - 1];
      assert s == init + [last];
      if keep(last) then Filter(init, keep) + [last] else Filter(init, keep)
  }

  /** No element that satisfies `keep` is dropped, however often it occurs, and no other element is kept. */
  lemma {:induction false} FilterCounts<T>(s: seq<T>, keep: T -> bool, x: T)
    ensures multiset(Filter(s, keep))[x] == if keep(x) then multiset(s)[x] else 0
  {
    if |s| > 0 {
      var init, last := s[..|s| - 1], s[|s| - 1];
      assert s == init + [last];
      FilterCounts(init, keep, x);
    }
  }

  /** The positions of `s` whose elements satisfy `keep`, in increasing order. */
  ghost function MatchIndices<T>(s: seq<T>, keep: T -> bool): (idx: seq<int>)
    ensures forall i :: i in idx <==> 0 <= i < |s| && keep(s[i])
    ensures forall k :: 0 <= k < |idx| ==> 0 <= idx[k] < |s|
    ensures forall k, l :: 0 <= k < l < |idx| ==> idx[k] < idx[l]
  {
    if |s| == 0 then []
    else
      var init := s[..|s| - 1];
      if keep(s[|s| - 1]) then MatchIndices(init, keep) + [|s| - 1] else MatchIndices(init, keep)
  }

  /** The filter reads `s` at exactly the positions that satisfy `keep`, and at no others. */
  lemma {:induction false} FilterPicksMatches<T>(s: seq<T>, keep: T -> bool)
    ensures Embeds(MatchIndices(s, keep), Filter(s, keep), s)
  {
    if |s| > 0 {
      var init, last := s[..|s| - 1], s[|s| - 1];
      FilterPicksMatches(init, keep);
      var idx, r := MatchIndices(init, keep), Filter(init, keep);
      assert forall k :: 0 <= k < |idx| ==> s[idx[k]] == init[idx[k]];
      if keep(last) {
        assert MatchIndices(s, keep) == idx + [|s| - 1];
        assert Filter(s, keep) == r + [last];
      }
    }
  }

  /** Filtering distributes over concatenation. */
  lemma {:induction false} FilterAppend<T>(a: seq<T>, b: seq<T>, keep: T -> bool)
    ensures Filter(a + b, keep) == Filter(a, keep) + Filter(b, keep)
  {
    if |b| == 0 {
      assert a + b == a;
    } else {
      var init := b[..|b| - 1];
      FilterAppend(a, init, keep);
      assert (a + b)[..|a + b| - 1] == a + init;
    }
  }

  /** Filtering by a stronger condition can be done on the result of filtering by a weaker one. */
  lemma {:induction false} FilterOfFilter<T>(s: seq<T>, narrow: T -> bool, wide: T -> bool)
    requires forall x :: narrow(x) ==> wide(x)
    ensures Filter(Filter(s, wide), narrow) == Filter(s, narrow)
  {
    if |s| > 0 {
      var init, last := s[..|s| - 1], s[|s| - 1];
      FilterOfFilter(init, narrow, wide);
      if wide(last) {
        FilterAppend(Filter(init, wide), [last], narrow);
        assert [last][..0] == [];
      }
    }
  }

  /** The concatenation of `f(x)` for every `x` of `s`, in order. */
  function FlatMap<T, U>(s: seq<T>, f: T -> seq<U>): seq<U>
  {
    if |s| == 0 then [] else FlatMap(s[..|s| - 1], f) + f(s[|s| - 1])
  }

  /** Concatenating pieces distributes over concatenation. */
  lemma {:induction false} FlatMapAppend<T, U>(a: seq<T>, b: seq<T>, f: T -> seq<U>)
    ensures FlatMap(a + b, f) == FlatMap(a, f) + FlatMap(b, f)
  {
    if |b| == 0 {
      assert a + b == a;
    } else {
      var init := b[..|b| - 1];
      FlatMapAppend(a, init, f);
      assert (a + b)[..|a + b| - 1] == a + init;
    }
  }

  /** The piece of the i-th element sits right after the pieces of the elements before it. */
  lemma FlatMapPieceAt<T, U>(s: seq<T>, f: T -> seq<U>, i: int)
    requires 0 <= i < |s|
    ensures var at := |FlatMap(s[..i], f)|;
      && at + |f(s[i])| <= |FlatMap(s, f)|
      && FlatMap(s, f)[..at] == FlatMap(s[..i], f)
      && FlatMap(s, f)[at..at + |f(s[i])|] == f(s[i])
  {
    assert s == s[..i] + [s[i]] + s[i + 1..];
    FlatMapAppend(s[..i] + [s[i]], s[i + 1..], f);
    FlatMapAppend(s[..i], [s[i]], f);
  }
}

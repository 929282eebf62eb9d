/** `Array.prototype.filter` and counting over sequences, with the laws the
    pages' filters rely on. */
module Seqs {

  /** `s.filter(keep)`: the elements `keep` accepts, in their original order. */
  function Filter<T>(s: seq<T>, keep: T -> bool): (r: seq<T>)
    ensures |r| <= |s|
    ensures forall i :: 0 <= i < |r| ==> r[i] in s && keep(r[i])
    ensures forall i :: 0 <= i < |s| && keep(s[i]) ==> s[i] in r
  {
    if s == [] then []
    else Filter(s[..|s| - 1], keep) + (if keep(s[|s| - 1]) then [s[|s| - 1]] else [])
  }

  /** Filtering a concatenation filters each part. */
  lemma {:induction false} FilterAppend<T>(a: seq<T>, b: seq<T>, keep: T -> bool)
    ensures Filter(a + b, keep) == Filter(a, keep) + Filter(b, keep)
  {
    if b != [] {
      var b' := b[..|b| - 1];
      assert (a + b)[..|a + b| - 1] == a + b';
      assert (a + b)[|a + b| - 1] == b[|b| - 1];
      FilterAppend(a, b', keep);
    } else {
      assert a + b == a;
    }
  }

  /** A filter that accepts every element returns the sequence unchanged. */
  lemma {:induction false} FilterKeepsAll<T>(s: seq<T>, keep: T -> bool)
    requires forall i :: 0 <= i < |s| ==> keep(s[i])
    ensures Filter(s, keep) == s
  {
    if s != [] {
      FilterKeepsAll(s[..|s| - 1], keep);
    }
  }

  /** A filter that rejects every element returns nothing. */
  lemma {:induction false} FilterKeepsNone<T>(s: seq<T>, keep: T -> bool)
    requires forall i :: 0 <= i < |s| ==> !keep(s[i])
    ensures Filter(s, keep) == []
  {
    if s != [] {
      FilterKeepsNone(s[..|s| - 1], keep);
    }
  }

  /** A filter keeps each accepted element as many times as it occurs, and
      no rejected one. */
  lemma {:induction false} FilterMultiplicity<T>(s: seq<T>, keep: T -> bool, x: T)
    ensures multiset(Filter(s, keep))[x] == if keep(x) then multiset(s)[x] else 0
  {
    if s != [] {
      var s' := s[..|s| - 1];
      FilterMultiplicity(s', keep, x);
      assert s == s' + [s[|s| - 1]];
    }
  }

  /** Two filters in a row keep what both accept. */
  lemma {:induction false} FilterTwice<T>(s: seq<T>, p: T -> bool, q: T -> bool)
    ensures Filter(Filter(s, p), q) == Filter(s, x => p(x) && q(x))
  {
    if s != [] {
      var s' := s[..|s| - 1];
      var x := s[|s| - 1];
      FilterTwice(s', p, q);
      FilterAppend(Filter(s', p), if p(x) then [x] else [], q);
      if p(x) {
        assert Filter([x], q) == Filter([], q) + (if q(x) then [x] else []) by {
          assert [x][..0] == [];
        }
      }
    }
  }

  /** The number of elements `keep` accepts. */
  function Count<T>(s: seq<T>, keep: T -> bool): (n: nat)
    ensures n <= |s|
  {
    |Filter(s, keep)|
  }

  /** Counting over a concatenation adds the parts' counts. */
  lemma CountAppend<T>(a: seq<T>, b: seq<T>, keep: T -> bool)
    ensures Count(a + b, keep) == Count(a, keep) + Count(b, keep)
  {
    FilterAppend(a, b, keep);
  }

  /** Elements accepted by neither of two disjoint tests are counted at most once:
      the two counts never exceed the length. */
  lemma {:induction false} CountDisjoint<T>(s: seq<T>, p: T -> bool, q: T -> bool)
    requires forall i :: 0 <= i < |s| ==> !(p(s[i]) && q(s[i]))
    ensures Count(s, p) + Count(s, q) <= |s|
  {
    if s != [] {
      var s' := s[..|s| - 1];
      CountDisjoint(s', p, q);
    }
  }

  /** Filters whose tests agree on every element select the same elements. */
  lemma {:induction false} FilterSameOn<T>(s: seq<T>, p: T -> bool, q: T -> bool)
    requires forall i :: 0 <= i < |s| ==> p(s[i]) == q(s[i])
    ensures Filter(s, p) == Filter(s, q)
  {
    if s != [] {
      FilterSameOn(s[..|s| - 1], p, q);
    }
  }

  /** Two sequences whose elements pass two tests alike, position by position,
      have equal counts. */
  lemma {:induction false} CountPointwise<A, B>(a: seq<A>, p: A -> bool, b: seq<B>, q: B -> bool)
    requires |a| == |b|
    requires forall i :: 0 <= i < |a| ==> p(a[i]) == q(b[i])
    ensures Count(a, p) == Count(b, q)
  {
    if a != [] {
      var a', b' := a[..|a| - 1], b[..|b| - 1];
      assert forall i :: 0 <= i < |a'| ==> a'[i] == a[i] && b'[i] == b[i];
      CountPointwise(a', p, b', q);
      var x, y := a[|a| - 1], b[|b| - 1];
      assert p(x) == q(y);
      assert |Filter(a, p)| == |Filter(a', p)| + (if p(x) then 1 else 0);
      assert |Filter(b, q)| == |Filter(b', q)| + (if q(y) then 1 else 0);
    }
  }

  // ----- order-preserving subsequences -----

  /** `idx` lists, in increasing order, positions of `s` that spell out `r`. */
  ghost predicate Embeds<T>(r: seq<T>, s: seq<T>, idx: seq<int>) {
    && |idx| == |r|
    && (forall k :: 0 <= k < |idx| ==> 0 <= idx[k] < |s| && r[k] == s[idx[k]])
    && (forall k, l :: 0 <= k < l < |idx| ==> idx[k] < idx[l])
  }

  /** `r` is `s` with some elements removed and the rest in their original order. */
  ghost predicate IsSubsequence<T>(r: seq<T>, s: seq<T>) {
    exists idx :: Embeds(r, s, idx)
  }

  lemma {:induction false} FilterEmbedding<T>(s: seq<T>, keep: T -> bool) returns (idx: seq<int>)
    ensures Embeds(Filter(s, keep), s, idx)
  {
    if s == [] {
      idx := [];
    } else {
      var s' := s[..|s| - 1];
      var idx' := FilterEmbedding(s', keep);
      if keep(s[|s| - 1]) {
        idx := idx' + [|s| - 1];
      } else {
        idx := idx';
      }
    }
  }

  /** A filter keeps the original order. */
  lemma FilterIsSubsequence<T>(s: seq<T>, keep: T -> bool)
    ensures IsSubsequence(Filter(s, keep), s)
  {
    var idx := FilterEmbedding(s, keep);
  }

  lemma SubsequenceRefl<T>(s: seq<T>)
    ensures IsSubsequence(s, s)
  {
    var idx := seq(|s|, k => k);
    assert Embeds(s, s, idx);
  }

  /** A subsequence of a subsequence is a subsequence. */
  lemma SubsequenceTrans<T>(a: seq<T>, b: seq<T>, c: seq<T>)
    requires IsSubsequence(a, b) && IsSubsequence(b, c)
    ensures IsSubsequence(a, c)
  {
    var ab :| Embeds(a, b, ab);
    var bc :| Embeds(b, c, bc);
    var ac := seq(|ab|, k requires 0 <= k < |ab| => bc[ab[k]]);
    assert Embeds(a, c, ac);
  }

  /** A subsequence of a sequence in order is in order. */
  lemma SubsequenceKeepsOrder<T>(r: seq<T>, s: seq<T>, cmp: Comparator<T>)
    requires IsSubsequence(r, s) && SortedBy(s, cmp)
    ensures SortedBy(r, cmp)
  {
    var idx :| Embeds(r, s, idx);
    forall i, j | 0 <= i < j < |r| ensures cmp(r[i], r[j]) <= 0 {
      assert cmp(s[idx[i]], s[idx[j]]) <= 0;
    }
  }

  /** No element occurs twice. */
  predicate NoDuplicates<T(==)>(s: seq<T>) {
    forall i, j :: 0 <= i < j < |s| ==> s[i] != s[j]
  }

  /** A subsequence of a sequence without duplicates has none. */
  lemma SubsequenceKeepsNoDuplicates<T>(r: seq<T>, s: seq<T>)
    requires IsSubsequence(r, s) && NoDuplicates(s)
    ensures NoDuplicates(r)
  {
    var idx :| Embeds(r, s, idx);
    forall i, j | 0 <= i < j < |r| ensures r[i] != r[j] {
      assert s[idx[i]] != s[idx[j]];
    }
  }

  /** Without duplicates, every element is counted at most once. */
  lemma {:induction false} NoDuplicatesCountsOnce<T>(s: seq<T>, x: T)
    requires NoDuplicates(s)
    ensures multiset(s)[x] <= 1
  {
    if s != [] {
      var s' := s[..|s| - 1];
      assert s == s' + [s[|s| - 1]];
      NoDuplicatesCountsOnce(s', x);
      if x == s[|s| - 1] {
        assert x !in s';
      }
    }
  }

  /** An element at two positions is counted twice. */
  lemma CountedTwice<T>(s: seq<T>, i: int, j: int)
    requires 0 <= i < j < |s| && s[i] == s[j]
    ensures multiset(s)[s[i]] >= 2
  {
    assert s == s[..j] + [s[j]] + s[j + 1..];
    assert s[i] in s[..j];
  }

  /** A permutation of a sequence without duplicates has none. */
  lemma PermutationKeepsNoDuplicates<T>(r: seq<T>, s: seq<T>)
    requires multiset(r) == multiset(s) && NoDuplicates(s)
    ensures NoDuplicates(r)
  {
    forall i, j | 0 <= i < j < |r| ensures r[i] != r[j] {
      if r[i] == r[j] {
        CountedTwice(r, i, j);
        NoDuplicatesCountsOnce(s, r[i]);
      }
    }
  }

  // ----- map, first index, distinct -----

  /** `s.map(f)`. */
  function MapSeq<A, B>(s: seq<A>, f: A -> B): (r: seq<B>)
    ensures |r| == |s|
    ensures forall i :: 0 <= i < |s| ==> r[i] == f(s[i])
  {
    seq(|s|, i requires 0 <= i < |s| => f(s[i]))
  }

  /** `s.findIndex(p)`: the first position whose element passes, or -1. */
  function FindIndex<T>(s: seq<T>, p: T -> bool): (r: int)
    ensures -1 <= r < |s|
    ensures r >= 0 ==> p(s[r])
    ensures forall j :: 0 <= j < |s| && (r == -1 || j < r) ==> !p(s[j])
  {
    if s == [] then -1
    else if p(s[0]) then 0
    else
      var k := FindIndex(s[1..], p);
      if k == -1 then -1 else k + 1
  }

  /** Tests that agree on every element find the same first index. */
  lemma {:induction false} FindIndexSameOn<T>(s: seq<T>, p: T -> bool, q: T -> bool)
    requires forall i :: 0 <= i < |s| ==> p(s[i]) == q(s[i])
    ensures FindIndex(s, p) == FindIndex(s, q)
  {
    if s != [] {
      FindIndexSameOn(s[1..], p, q);
    }
  }

  /** Membership in a mapped sequence. */
  lemma MapSeqMembers<A, B>(s: seq<A>, f: A -> B, y: B)
    ensures y in MapSeq(s, f) <==> exists x :: x in s && f(x) == y
  {
    if y in MapSeq(s, f) {
      var k :| 0 <= k < |s| && MapSeq(s, f)[k] == y;
      assert s[k] in s;
    }
  }

  /** `[...new Set(s)]`: each value once, at its first occurrence. */
  function Distinct<T(==,!new)>(s: seq<T>): (r: seq<T>)
    ensures forall x :: x in r <==> x in s
    ensures forall i, j :: 0 <= i < j < |r| ==> r[i] != r[j]
  {
    if s == [] then []
    else
      var d := Distinct(s[..|s| - 1]);
      if s[|s| - 1] in s[..|s| - 1] then d else d + [s[|s| - 1]]
  }

  // ----- sorting -----

  /** A comparator in the `Array.prototype.sort` sense: negative, zero or positive. */
  type Comparator<!T> = (T, T) -> int

  ghost predicate Antisymmetric<T(!new)>(cmp: Comparator<T>) {
    forall a, b :: cmp(a, b) == -cmp(b, a)
  }

  ghost predicate Transitive<T(!new)>(cmp: Comparator<T>) {
    forall a, b, c :: cmp(a, b) <= 0 && cmp(b, c) <= 0 ==> cmp(a, c) <= 0
  }

  /** `cmp` is a total preorder: the condition `Array.prototype.sort` needs. */
  ghost predicate TotalPreorder<T(!new)>(cmp: Comparator<T>) {
    Antisymmetric(cmp) && Transitive(cmp)
  }

  ghost predicate SortedBy<T>(s: seq<T>, cmp: Comparator<T>) {
    forall i, j :: 0 <= i < j < |s| ==> cmp(s[i], s[j]) <= 0
  }

  /** `s` with `x` placed after its last element not greater than `x`. */
  function InsertSorted<T>(s: seq<T>, x: T, cmp: Comparator<T>): (r: seq<T>)
    ensures multiset(r) == multiset(s) + multiset{x}
  {
    if s == [] then [x]
    else if cmp(s[|s| - 1], x) <= 0 then s + [x]
    else
      assert s == s[..|s| - 1] + [s[|s| - 1]];
      InsertSorted(s[..|s| - 1], x, cmp) + [s[|s| - 1]]
  }

  /** Appending an element not smaller than the last keeps a sequence sorted. */
  lemma AppendKeepsOrder<T(!new)>(s: seq<T>, x: T, cmp: Comparator<T>)
    requires Transitive(cmp) && SortedBy(s, cmp)
    requires s != [] ==> cmp(s[|s| - 1], x) <= 0
    ensures SortedBy(s + [x], cmp)
  {
    var r := s + [x];
    forall i, j | 0 <= i < j < |r| ensures cmp(r[i], r[j]) <= 0 {
      if j == |s| && i < |s| - 1 {
        assert cmp(s[i], s[|s| - 1]) <= 0;
      }
    }
  }

  /** Inserting into a sorted sequence keeps it sorted. */
  lemma {:induction false} InsertSortedKeepsOrder<T(!new)>(s: seq<T>, x: T, cmp: Comparator<T>)
    requires TotalPreorder(cmp) && SortedBy(s, cmp)
    ensures SortedBy(InsertSorted(s, x, cmp), cmp)
  {
    if s == [] {
    } else if cmp(s[|s| - 1], x) <= 0 {
      AppendKeepsOrder(s, x, cmp);
    } else {
      var last := s[|s| - 1];
      var s' := s[..|s| - 1];
      InsertSortedKeepsOrder(s', x, cmp);
      var r' := InsertSorted(s', x, cmp);
      assert cmp(x, last) < 0;
      BoundedBelowLast(s, x, r', cmp);
      if r' != [] {
        assert r'[|r'| - 1] in r';
      }
      AppendKeepsOrder(r', last, cmp);
    }
  }

  /** Every element of `s` without its last, and `x`, is at most that last element. */
  lemma BoundedBelowLast<T(!new)>(s: seq<T>, x: T, r: seq<T>, cmp: Comparator<T>)
    requires s != [] && SortedBy(s, cmp)
    requires cmp(x, s[|s| - 1]) <= 0
    requires multiset(r) == multiset(s[..|s| - 1]) + multiset{x}
    ensures forall y :: y in r ==> cmp(y, s[|s| - 1]) <= 0
  {
    forall y | y in r ensures cmp(y, s[|s| - 1]) <= 0 {
      assert y in multiset(r);
      if y != x {
        assert y in multiset(s[..|s| - 1]);
        var k :| 0 <= k < |s| - 1 && s[k] == y;
        assert cmp(s[k], s[|s| - 1]) <= 0;
      }
    }
  }

  /** `[...s].sort(cmp)`, as a stable insertion sort. */
  function SortBy<T>(s: seq<T>, cmp: Comparator<T>): (r: seq<T>)
    ensures multiset(r) == multiset(s)
  {
    if s == [] then []
    else
      assert s == s[..|s| - 1] + [s[|s| - 1]];
      InsertSorted(SortBy(s[..|s| - 1], cmp), s[|s| - 1], cmp)
  }

  /** Under a total preorder the result is in order. */
  lemma {:induction false} SortByIsSorted<T(!new)>(s: seq<T>, cmp: Comparator<T>)
    requires TotalPreorder(cmp)
    ensures SortedBy(SortBy(s, cmp), cmp)
  {
    if s != [] {
      SortByIsSorted(s[..|s| - 1], cmp);
      InsertSortedKeepsOrder(SortBy(s[..|s| - 1], cmp), s[|s| - 1], cmp);
    }
  }
}

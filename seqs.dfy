/** Sequence operations used by the model: filtering, flattening and sorting. */
module Seqs {

  /** List-comprehension filter `[x for x in s if p(x)]`. */
  function Filter<T(!new)>(p: T -> bool, s: seq<T>): (r: seq<T>)
    ensures |r| <= |s|
    ensures forall x :: x in r <==> x in s && p(x)
    ensures multiset(r) <= multiset(s)
  {
    if s == [] then []
    else
      assert s == [s[0]] + s[1..];
      if p(s[0]) then [s[0]] + Filter(p, s[1..]) else Filter(p, s[1..])
  }

  lemma {:induction false} FilterAppend<T(!new)>(p: T -> bool, a: seq<T>, b: seq<T>)
    ensures Filter(p, a + b) == Filter(p, a) + Filter(p, b)
  {
    if a == [] {
      assert a + b == b;
    } else {
      assert (a + b)[0] == a[0];
      assert (a + b)[1..] == a[1..] + b;
      FilterAppend(p, a[1..], b);
    }
  }

  /** The filter keeps every copy of an element that passes, duplicates included, and no copy of one that fails. */
  lemma {:induction false} FilterCount<T(!new)>(p: T -> bool, s: seq<T>)
    ensures forall x :: multiset(Filter(p, s))[x] == if p(x) then multiset(s)[x] else 0
  {
    if s != [] {
      FilterCount(p, s[1..]);
      assert s == [s[0]] + s[1..];
      assert multiset(s) == multiset{s[0]} + multiset(s[1..]);
      if p(s[0]) {
        assert multiset(Filter(p, s)) == multiset{s[0]} + multiset(Filter(p, s[1..]));
      }
    }
  }

  /** Filtering one more element of a prefix. */
  lemma FilterSnoc<T(!new)>(p: T -> bool, s: seq<T>, i: nat)
    requires i < |s|
    ensures Filter(p, s[..i + 1]) == Filter(p, s[..i]) + if p(s[i]) then [s[i]] else []
  {
    assert s[..i + 1] == s[..i] + [s[i]];
    FilterAppend(p, s[..i], [s[i]]);
    assert Filter(p, [s[i]]) == if p(s[i]) then [s[i]] else [];
  }

  /** `r` is obtained from `s` by deleting elements: the relative order is kept. */
  predicate IsSubsequence<T(==)>(r: seq<T>, s: seq<T>)
    decreases |s|
  {
    r == [] || (s != [] && ((r[0] == s[0] && IsSubsequence(r[1..], s[1..])) || IsSubsequence(r, s[1..])))
  }

  lemma {:induction false} FilterIsSubsequence<T(!new)>(p: T -> bool, s: seq<T>)
    ensures IsSubsequence(Filter(p, s), s)
  {
    if s != [] {
      FilterIsSubsequence(p, s[1..]);
      if p(s[0]) {
        assert Filter(p, s)[1..] == Filter(p, s[1..]);
      }
    }
  }

  /** Concatenation of a sequence of sequences, in order. */
  function Concat<T>(ss: seq<seq<T>>): seq<T>
  {
    if ss == [] then [] else ss[0] + Concat(ss[1..])
  }

  /** Filters by predicates that agree on the sequence are equal. */
  lemma {:induction false} FilterSame<T(!new)>(s: seq<T>, p: T -> bool, q: T -> bool)
    requires forall x :: x in s ==> p(x) == q(x)
    ensures Filter(p, s) == Filter(q, s)
  {
    if s != [] {
      FilterSame(s[1..], p, q);
    }
  }

  lemma {:induction false} ConcatAppend<T>(a: seq<seq<T>>, b: seq<seq<T>>)
    ensures Concat(a + b) == Concat(a) + Concat(b)
  {
    if a == [] {
      assert a + b == b;
    } else {
      assert (a + b)[0] == a[0];
      assert (a + b)[1..] == a[1..] + b;
      ConcatAppend(a[1..], b);
    }
  }

  predicate IsNonEmpty<T>(s: seq<T>)
  {
    |s| > 0
  }

  /** Empty pieces contribute nothing to a concatenation. */
  lemma {:induction false} ConcatDropsEmpty<T(!new)>(ss: seq<seq<T>>)
    ensures Concat(Filter(IsNonEmpty, ss)) == Concat(ss)
  {
    if ss != [] {
      ConcatDropsEmpty(ss[1..]);
    }
  }

  /** Sequences with the same multiset hold the same elements. */
  lemma SameElements<T>(a: seq<T>, b: seq<T>)
    requires multiset(a) == multiset(b)
    ensures forall x :: x in a <==> x in b
  {
    forall x
      ensures x in a <==> x in b
    {
      assert x in a <==> x in multiset(a);
      assert x in b <==> x in multiset(b);
    }
  }

  /** Every pair of positions is in `le` order. */
  predicate SortedBy<T>(s: seq<T>, le: (T, T) -> bool)
  {
    forall i, j :: 0 <= i < j < |s| ==> le(s[i], s[j])
  }

  /** `le` relates `a` and `b` in at least one direction. */
  ghost predicate Comparable<T>(le: (T, T) -> bool, a: T, b: T)
  {
    le(a, b) || le(b, a)
  }

  /** `le` is transitive on the chain `a`, `b`, `c`. */
  ghost predicate Chains<T>(le: (T, T) -> bool, a: T, b: T, c: T)
  {
    le(a, b) && le(b, c) ==> le(a, c)
  }

  /** `le` is total and transitive (instantiated only through `Comparable` and `Chains`). */
  ghost predicate TotalPreorder<T(!new)>(le: (T, T) -> bool)
  {
    && (forall a, b :: Comparable(le, a, b))
    && (forall a, b, c :: Chains(le, a, b, c))
  }

  /** A prefix of a sorted sequence is sorted, and each of its elements is `le` every later element. */
  lemma SortedSplit<T>(s: seq<T>, m: nat, le: (T, T) -> bool)
    requires m <= |s| && SortedBy(s, le)
    ensures SortedBy(s[..m], le)
    ensures forall i, j :: 0 <= i < m && 0 <= j < |s| - m ==> le(s[..m][i], s[m..][j])
  {
    forall i, j | 0 <= i < m && 0 <= j < |s| - m
      ensures le(s[..m][i], s[m..][j])
    {
      assert s[..m][i] == s[i] && s[m..][j] == s[m + j];
    }
  }

  lemma SplitMultiset<T>(s: seq<T>, m: nat)
    requires m <= |s|
    ensures multiset(s[..m]) + multiset(s[m..]) == multiset(s)
  {
    assert s == s[..m] + s[m..];
  }

  /** Inserts `x` before the first element it is `le` to. */
  function Insert<T>(x: T, s: seq<T>, le: (T, T) -> bool): (r: seq<T>)
    ensures |r| == |s| + 1
    ensures multiset(r) == multiset(s) + multiset{x}
  {
    if s == [] then [x]
    else if le(x, s[0]) then [x] + s
    else
      assert s == [s[0]] + s[1..];
      [s[0]] + Insert(x, s[1..], le)
  }

  /** Stable insertion sort: elements that are `le` both ways keep their input order. */
  function SortBy<T>(s: seq<T>, le: (T, T) -> bool): (r: seq<T>)
    ensures |r| == |s|
    ensures multiset(r) == multiset(s)
  {
    if s == [] then []
    else
      assert s == [s[0]] + s[1..];
      Insert(s[0], SortBy(s[1..], le), le)
  }

  /** A lower bound of `x` and of every element of `s` bounds every element of the insertion. */
  lemma {:induction false} InsertKeepsLowerBound<T>(b: T, x: T, s: seq<T>, le: (T, T) -> bool)
    requires le(b, x) && forall k :: 0 <= k < |s| ==> le(b, s[k])
    ensures forall k :: 0 <= k < |Insert(x, s, le)| ==> le(b, Insert(x, s, le)[k])
  {
    if s != [] && !le(x, s[0]) {
      InsertKeepsLowerBound(b, x, s[1..], le);
      var r := Insert(x, s, le);
      forall k | 0 <= k < |r|
        ensures le(b, r[k])
      {
        if k > 0 {
          assert r[k] == Insert(x, s[1..], le)[k - 1];
        }
      }
    }
  }

  lemma SortedTail<T>(s: seq<T>, le: (T, T) -> bool)
    requires s != [] && SortedBy(s, le)
    ensures SortedBy(s[1..], le)
  {
    var s' := s[1..];
    forall i, j | 0 <= i < j < |s'| ensures le(s'[i], s'[j]) { assert s'[i] == s[i + 1] && s'[j] == s[j + 1]; }
  }

  lemma {:induction false} InsertSorted<T(!new)>(x: T, s: seq<T>, le: (T, T) -> bool)
    requires TotalPreorder(le)
    requires SortedBy(s, le)
    ensures SortedBy(Insert(x, s, le), le)
  {
    if s == [] {
    } else if le(x, s[0]) {
      var r := Insert(x, s, le);
      forall i, j | 0 <= i < j < |r| ensures le(r[i], r[j]) {
        if i == 0 && j > 1 {
          assert Chains(le, x, s[0], s[j - 1]);
        }
      }
    } else {
      assert Comparable(le, x, s[0]);
      var t := s[1..];
      SortedTail(s, le);
      InsertSorted(x, t, le);
      forall k | 0 <= k < |t| ensures le(s[0], t[k]) {
        assert t[k] == s[k + 1];
      }
      InsertKeepsLowerBound(s[0], x, t, le);
      ConsSorted(s[0], Insert(x, t, le), le);
    }
  }

  /** A lower bound of a sorted sequence can be put in front of it. */
  lemma ConsSorted<T>(h: T, r: seq<T>, le: (T, T) -> bool)
    requires SortedBy(r, le) && forall k :: 0 <= k < |r| ==> le(h, r[k])
    ensures SortedBy([h] + r, le)
  {
    var c := [h] + r;
    forall i, j | 0 <= i < j < |c| ensures le(c[i], c[j]) {
      if i == 0 {
        assert c[j] == r[j - 1];
      } else {
        assert c[i] == r[i - 1] && c[j] == r[j - 1];
      }
    }
  }

  lemma {:induction false} SortBySorted<T(!new)>(s: seq<T>, le: (T, T) -> bool)
    requires TotalPreorder(le)
    ensures SortedBy(SortBy(s, le), le)
  {
    if s != [] {
      SortBySorted(s[1..], le);
      InsertSorted(s[0], SortBy(s[1..], le), le);
    }
  }

  /** `le` orders any two distinct elements of `s` strictly. */
  ghost predicate SeparatesAll<T(!new)>(s: seq<T>, le: (T, T) -> bool)
  {
    forall x, y :: x in s && y in s && le(x, y) && le(y, x) ==> x == y
  }

  /** Sorted arrangements of the same elements start with the same element. */
  lemma SortedHeadsAgree<T(!new)>(s: seq<T>, t: seq<T>, le: (T, T) -> bool)
    requires s != [] && t != []
    requires SortedBy(s, le) && SortedBy(t, le)
    requires multiset(s) == multiset(t)
    requires SeparatesAll(s, le)
    ensures s[0] == t[0]
  {
    assert s[0] in multiset(t);
    var j :| 0 <= j < |t| && t[j] == s[0];
    assert t[0] in multiset(s);
    var k :| 0 <= k < |s| && s[k] == t[0];
    if j > 0 && k > 0 {
      assert le(t[0], t[j]) && le(s[0], s[k]);
    }
  }

  lemma SeparatesTail<T(!new)>(s: seq<T>, le: (T, T) -> bool)
    requires s != [] && SeparatesAll(s, le)
    ensures SeparatesAll(s[1..], le)
  {
    forall x, y | x in s[1..] && y in s[1..] && le(x, y) && le(y, x)
      ensures x == y
    {
      assert x in s && y in s;
    }
  }

  /** A non-empty sequence is its head before its tail, and the tail holds the rest of its elements. */
  lemma TailMultiset<T>(s: seq<T>)
    requires s != []
    ensures s == [s[0]] + s[1..]
    ensures multiset(s[1..]) == multiset(s) - multiset{s[0]}
  {
    assert s == [s[0]] + s[1..];
  }

  /** Two `le`-sorted arrangements of the same elements coincide when `le` orders any two distinct elements strictly. */
  lemma {:induction false} SortedPermutationUnique<T(!new)>(s: seq<T>, t: seq<T>, le: (T, T) -> bool)
    requires SortedBy(s, le) && SortedBy(t, le)
    requires multiset(s) == multiset(t)
    requires SeparatesAll(s, le)
    ensures s == t
  {
    assert |t| == |multiset(t)| == |multiset(s)| == |s|;
    if s != [] {
      SortedHeadsAgree(s, t, le);
      var s', t' := s[1..], t[1..];
      TailMultiset(s);
      TailMultiset(t);
      SortedTail(s, le);
      SortedTail(t, le);
      SeparatesTail(s, le);
      SortedPermutationUnique(s', t', le);
    }
  }
}

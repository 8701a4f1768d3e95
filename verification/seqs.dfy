/** `Array.prototype.filter` and the facts about it that the pages and the search
    handler rely on: it keeps exactly the elements that pass, in their original order,
    and a filter together with its complement is a permutation of the input. */
module Seqs {

  /** `s.filter(p)`. */
  function Filter<T>(s: seq<T>, p: T -> bool): (r: seq<T>)
    ensures |r| <= |s|
    ensures forall x :: x in r ==> x in s && p(x)
  {
    if s == [] then []
    else if p(s[0]) then [s[0]] + Filter(s[1..], p)
    else Filter(s[1..], p)
  }

  /** `t` can be obtained from `s` by deleting elements: the order is kept. */
  predicate IsSubsequence<T(==)>(t: seq<T>, s: seq<T>)
    decreases |s|
  {
    t == [] || (s != [] && if t[0] == s[0] then IsSubsequence(t[1..], s[1..]) else IsSubsequence(t, s[1..]))
  }

  lemma {:induction false} SubsequenceOfTail<T>(t: seq<T>, s: seq<T>)
    requires s != [] && IsSubsequence(t, s[1..])
    ensures IsSubsequence(t, s)
    decreases |s|, 0
  {
    if t != [] && t[0] == s[0] {
      // s[0] is matched first; the rest of t must follow in s[1..].
      SubsequenceDropHead(t, s[1..]);
    }
  }

  lemma {:induction false} SubsequenceDropHead<T>(t: seq<T>, s: seq<T>)
    requires t != [] && IsSubsequence(t, s)
    ensures IsSubsequence(t[1..], s)
    decreases |s|, 1
  {
    if t[0] == s[0] {
      if t[1..] != [] {
        SubsequenceOfTail(t[1..], s);
      }
    } else {
      SubsequenceDropHead(t, s[1..]);
      if t[1..] != [] {
        SubsequenceOfTail(t[1..], s);
      }
    }
  }

  /** A filter keeps an element exactly when it occurs in the input and passes. */
  lemma {:induction false} FilterMembership<T>(s: seq<T>, p: T -> bool, x: T)
    ensures x in Filter(s, p) <==> x in s && p(x)
  {
    if s != [] {
      FilterMembership(s[1..], p, x);
      assert s == [s[0]] + s[1..];
    }
  }

  /** A filter never reorders: its result is a subsequence of its input. */
  lemma {:induction false} FilterIsSubsequence<T>(s: seq<T>, p: T -> bool)
    ensures IsSubsequence(Filter(s, p), s)
  {
    if s != [] {
      FilterIsSubsequence(s[1..], p);
      if !p(s[0]) && Filter(s, p) != [] {
        SubsequenceOfTail(Filter(s, p), s);
      }
    }
  }

  /** A filter whose test passes everywhere keeps the whole input. */
  lemma {:induction false} FilterAll<T>(s: seq<T>, p: T -> bool)
    requires forall x :: x in s ==> p(x)
    ensures Filter(s, p) == s
  {
    if s != [] {
      FilterAll(s[1..], p);
      assert s == [s[0]] + s[1..];
    }
  }

  /** Filtering an already filtered sequence again with the same test changes nothing. */
  lemma FilterFilterSame<T>(s: seq<T>, p: T -> bool)
    ensures Filter(Filter(s, p), p) == Filter(s, p)
  {
    FilterAll(Filter(s, p), p);
  }

  /** A filter whose test fails everywhere keeps nothing. */
  lemma {:induction false} FilterNone<T>(s: seq<T>, p: T -> bool)
    requires forall x :: x in s ==> !p(x)
    ensures Filter(s, p) == []
  {
    if s != [] {
      FilterNone(s[1..], p);
    }
  }

  lemma {:induction false} FilterAppend<T>(s: seq<T>, t: seq<T>, p: T -> bool)
    ensures Filter(s + t, p) == Filter(s, p) + Filter(t, p)
  {
    if s == [] {
      assert s + t == t;
    } else {
      assert (s + t)[1..] == s[1..] + t;
      FilterAppend(s[1..], t, p);
    }
  }

  /** Splitting by a test and its complement `q` loses and duplicates nothing. */
  lemma {:induction false} FilterSplitPermutation<T>(s: seq<T>, p: T -> bool, q: T -> bool)
    requires forall x :: q(x) == !p(x)
    ensures multiset(Filter(s, p)) + multiset(Filter(s, q)) == multiset(s)
  {
    if s != [] {
      FilterSplitPermutation(s[1..], p, q);
      assert s == [s[0]] + s[1..];
    }
  }
}

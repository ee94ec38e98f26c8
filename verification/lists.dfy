/** Order-preserving list operations shared by the list screens and view models. */
module Lists {

  /** Kotlin's `filter`: the elements satisfying `p`, in their original order. */
  function Filter<T>(s: seq<T>, p: T -> bool): (r: seq<T>)
    ensures |r| <= |s|
    ensures forall i :: 0 <= i < |r| ==> r[i] in s && p(r[i])
    ensures forall i :: 0 <= i < |s| && p(s[i]) ==> s[i] in r
  {
    if s == [] then []
    else if p(s[0]) then [s[0]] + Filter(s[1..], p)
    else Filter(s[1..], p)
  }

  /** The complement of a predicate. */
  function Not<T>(p: T -> bool): T -> bool
  {
    x => !p(x)
  }

  /** Kotlin's `filterNot`. */
  function FilterNot<T>(s: seq<T>, p: T -> bool): (r: seq<T>)
    ensures forall i :: 0 <= i < |r| ==> r[i] in s && !p(r[i])
    ensures forall i :: 0 <= i < |s| && !p(s[i]) ==> s[i] in r
  {
    Filter(s, Not(p))
  }

  /** `a` is `b` with some elements dropped and the rest kept in order. */
  ghost predicate SubsequenceOf<T>(a: seq<T>, b: seq<T>)
    decreases |b|
  {
    if a == [] then true
    else if b == [] then false
    else (a[0] == b[0] && SubsequenceOf(a[1..], b[1..])) || SubsequenceOf(a, b[1..])
  }

  lemma {:induction false} SubsequenceOfSelf<T>(s: seq<T>)
    ensures SubsequenceOf(s, s)
    decreases |s|
  {
    if s != [] {
      SubsequenceOfSelf(s[1..]);
    }
  }

  /** Filtering keeps the relative order of the kept elements. */
  lemma {:induction false} FilterPreservesOrder<T>(s: seq<T>, p: T -> bool)
    ensures SubsequenceOf(Filter(s, p), s)
    decreases |s|
  {
    if s != [] {
      FilterPreservesOrder(s[1..], p);
    }
  }

  /** Filtering a prefix one element longer adds at most that element at the end. */
  lemma {:induction false} FilterSnoc<T>(s: seq<T>, x: T, p: T -> bool)
    ensures Filter(s + [x], p) == Filter(s, p) + (if p(x) then [x] else [])
    decreases |s|
  {
    if s == [] {
      assert s + [x] == [x];
      assert [x][1..] == [];
    } else {
      assert (s + [x])[0] == s[0];
      assert (s + [x])[1..] == s[1..] + [x];
      FilterSnoc(s[1..], x, p);
    }
  }

  /** The `filterNot` counterpart of `FilterSnoc`. */
  lemma FilterNotSnoc<T>(s: seq<T>, x: T, p: T -> bool)
    ensures FilterNot(s + [x], p) == FilterNot(s, p) + (if p(x) then [] else [x])
  {
    FilterSnoc(s, x, Not(p));
  }

  /**
   * One pass that appends each element to the first list if it satisfies `p` and to the
   * second otherwise: the same lists as `filter` and `filterNot`.
   */
  method Partition<T>(s: seq<T>, p: T -> bool) returns (kept: seq<T>, rest: seq<T>)
    ensures kept == Filter(s, p) && rest == FilterNot(s, p)
  {
    kept, rest := [], [];
    var i := 0;
    while i < |s|
      invariant 0 <= i <= |s|
      invariant kept == Filter(s[..i], p)
      invariant rest == FilterNot(s[..i], p)
    {
      var x := s[i];
      if p(x) {
        kept := kept + [x];
      } else {
        rest := rest + [x];
      }
      assert s[..i + 1] == s[..i] + [x];
      FilterSnoc(s[..i], x, p);
      FilterNotSnoc(s[..i], x, p);
      i := i + 1;
    }
    assert s[..|s|] == s;
  }

  /** A predicate and its negation split a list: every element lands in exactly one half. */
  lemma {:induction false} FilterPartition<T>(s: seq<T>, p: T -> bool)
    ensures multiset(Filter(s, p)) + multiset(FilterNot(s, p)) == multiset(s)
    ensures forall i :: 0 <= i < |s| ==> (s[i] in Filter(s, p) <==> s[i] !in FilterNot(s, p))
    decreases |s|
  {
    if s != [] {
      FilterPartition(s[1..], p);
      assert s == [s[0]] + s[1..];
      assert FilterNot(s, p) == Filter(s, Not(p));
    }
  }

  /** Kotlin's `MutableList.remove(element)`: drops the first element equal to `x`. */
  function RemoveFirst<T(==)>(s: seq<T>, x: T): (r: seq<T>)
    ensures x !in s ==> r == s
    ensures x in s ==> |r| == |s| - 1
    ensures multiset(r) == multiset(s) - multiset{x}
  {
    if s == [] then []
    else
      assert s == [s[0]] + s[1..];
      if s[0] == x then s[1..]
      else [s[0]] + RemoveFirst(s[1..], x)
  }

  /** Index of the first element equal to `x`. */
  function FirstIndex<T(==)>(s: seq<T>, x: T): (i: nat)
    requires x in s
    ensures i < |s| && s[i] == x
    ensures forall j :: 0 <= j < i ==> s[j] != x
  {
    if s[0] == x then 0 else 1 + FirstIndex(s[1..], x)
  }

  /** `RemoveFirst` cuts out exactly the first occurrence and keeps everything else in order. */
  lemma {:induction false} RemoveFirstSplices<T>(s: seq<T>, x: T)
    requires x in s
    ensures RemoveFirst(s, x) == s[..FirstIndex(s, x)] + s[FirstIndex(s, x) + 1..]
    decreases |s|
  {
    if s[0] != x {
      RemoveFirstSplices(s[1..], x);
      SpliceBehindHead(s, FirstIndex(s[1..], x));
    }
  }

  /** Cutting position `i` out of the tail and putting the head back cuts position `i + 1` out of `s`. */
  lemma SpliceBehindHead<T>(s: seq<T>, i: nat)
    requires i + 1 < |s|
    ensures [s[0]] + (s[1..][..i] + s[1..][i + 1..]) == s[..i + 1] + s[i + 2..]
  {
    assert s[..i + 1] == [s[0]] + s[1..][..i];
    assert s[i + 2..] == s[1..][i + 1..];
  }

  lemma {:induction false} RemoveFirstPreservesOrder<T>(s: seq<T>, x: T)
    ensures SubsequenceOf(RemoveFirst(s, x), s)
    decreases |s|
  {
    if s != [] {
      if s[0] == x {
        SubsequenceOfSelf(s[1..]);
        if s[1..] != [] {
          DropHeadSubsequence(s[1..], s);
        }
      } else {
        RemoveFirstPreservesOrder(s[1..], x);
      }
    }
  }

  /** Removing the head of `b` keeps a subsequence of its tail a subsequence of `b`. */
  lemma DropHeadSubsequence<T>(a: seq<T>, b: seq<T>)
    requires b != [] && SubsequenceOf(a, b[1..])
    ensures SubsequenceOf(a, b)
  {
  }
}

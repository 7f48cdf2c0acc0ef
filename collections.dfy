/**
 * Ruby's Enumerable pipeline steps used by the report: `select`/`reject`
 * (Filter) and `sort_by` (SortBy), with the order relation a sort uses.
 */
module Collections {

  /** `s.select(&p)` (and `s.reject(&q)` with p == !q): keeps, in order, the elements satisfying p. */
  function Filter<T(!new)>(s: seq<T>, p: T -> bool): (r: seq<T>)
    ensures |r| <= |s|
    ensures forall x :: x in r <==> x in s && p(x)
  {
    if s == [] then []
    else
      var init, last := s[..|s| - 1], s[|s| - 1];
      assert s == init + [last];
      var rest := Filter(init, p);
      if p(last) then rest + [last] else rest
  }

  /** Filtering only drops elements: each kept element keeps its multiplicity. */
  lemma {:induction false} FilterMultiset<T(!new)>(s: seq<T>, p: T -> bool)
    ensures forall x :: multiset(Filter(s, p))[x] == if p(x) then multiset(s)[x] else 0
  {
    if s != [] {
      var init, last := s[..|s| - 1], s[|s| - 1];
      assert s == init + [last];
      FilterMultiset(init, p);
    }
  }

  /** Filtering keeps every element exactly when all of them satisfy p. */
  lemma {:induction false} FilterKeepsAll<T(!new)>(s: seq<T>, p: T -> bool)
    ensures |Filter(s, p)| == |s| <==> forall x :: x in s ==> p(x)
  {
    if s != [] {
      var init, last := s[..|s| - 1], s[|s| - 1];
      assert s == init + [last];
      FilterKeepsAll(init, p);
    }
  }

  /** The positions of s whose element satisfies p. */
  ghost function MatchingIndices<T>(s: seq<T>, p: T -> bool): set<nat>
  {
    set i: nat | i < |s| && p(s[i])
  }

  /** Appending an element adds its position to the matches exactly when it matches. */
  lemma MatchingIndicesAppend<T>(init: seq<T>, last: T, p: T -> bool)
    ensures MatchingIndices(init + [last], p) == MatchingIndices(init, p) + (if p(last) then {|init|} else {})
  {
    var s := init + [last];
    var extra: set<nat> := if p(last) then {|init|} else {};
    forall i | i in MatchingIndices(s, p) ensures i in MatchingIndices(init, p) + extra {
      if i < |init| { assert s[i] == init[i]; }
    }
    forall i | i in MatchingIndices(init, p) + extra ensures i in MatchingIndices(s, p) {
      if i < |init| { assert s[i] == init[i]; }
    }
  }

  /** Filtering keeps one element per matching position: `select(&p).count` counts the matches. */
  lemma {:induction false} FilterCountsMatches<T(!new)>(s: seq<T>, p: T -> bool)
    ensures |Filter(s, p)| == |MatchingIndices(s, p)|
  {
    if s != [] {
      var init, last := s[..|s| - 1], s[|s| - 1];
      assert s == init + [last];
      FilterCountsMatches(init, p);
      MatchingIndicesAppend(init, last, p);
      assert |init| !in MatchingIndices(init, p);
    }
  }

  /** Any r with the multiplicities of a filtering of s is as long as the number of matches. */
  lemma CountMatches<T(!new)>(r: seq<T>, s: seq<T>, p: T -> bool)
    requires forall x :: multiset(r)[x] == if p(x) then multiset(s)[x] else 0
    ensures |r| == |MatchingIndices(s, p)|
  {
    FilterMultiset(s, p);
    assert multiset(r) == multiset(Filter(s, p));
    assert |r| == |multiset(r)| == |Filter(s, p)|;
    FilterCountsMatches(s, p);
  }

  /** `le` is total and transitive: what a sort key compared with `<=>` provides. */
  ghost predicate TotalPreorder<T(!new)>(le: (T, T) -> bool)
  {
    && (forall a, b :: le(a, b) || le(b, a))
    && (forall a, b, c :: le(a, b) && le(b, c) ==> le(a, c))
  }

  predicate SortedBy<T>(s: seq<T>, le: (T, T) -> bool)
  {
    forall i, j :: 0 <= i < j < |s| ==> le(s[i], s[j])
  }

  /** Putting y in front of a sorted sequence keeps it sorted when y is `le` to all of it. */
  lemma SortedCons<T>(y: T, s: seq<T>, le: (T, T) -> bool)
    requires SortedBy(s, le)
    requires forall k :: 0 <= k < |s| ==> le(y, s[k])
    ensures SortedBy([y] + s, le)
  {
  }

  /** Every element of a sorted sequence's tail, and anything larger than its head, follows the head. */
  lemma HeadPrecedes<T(!new)>(x: T, s: seq<T>, rest: seq<T>, le: (T, T) -> bool)
    requires TotalPreorder(le)
    requires s != [] && SortedBy(s, le) && !le(x, s[0])
    requires multiset(rest) == multiset(s[1..]) + multiset{x}
    ensures forall k :: 0 <= k < |rest| ==> le(s[0], rest[k])
  {
    forall k | 0 <= k < |rest| ensures le(s[0], rest[k]) {
      assert rest[k] in multiset(rest);
      if rest[k] != x {
        assert rest[k] in multiset(s[1..]);
        var j :| 0 <= j < |s[1..]| && s[1..][j] == rest[k];
        assert le(s[0], s[j + 1]);
      }
    }
  }

  /** Inserts x before the first element it is `le` to. */
  function Insert<T(!new)>(x: T, s: seq<T>, le: (T, T) -> bool): (r: seq<T>)
    requires TotalPreorder(le)
    requires SortedBy(s, le)
    ensures multiset(r) == multiset(s) + multiset{x}
    ensures SortedBy(r, le)
  {
    if s == [] then [x]
    else if le(x, s[0]) then
      assert forall j :: 0 <= j < |s| ==> le(x, s[j]) by {
        forall j | 0 <= j < |s| ensures le(x, s[j]) {
          if j > 0 { assert le(s[0], s[j]); }
        }
      }
      SortedCons(x, s, le);
      [x] + s
    else
      var rest := Insert(x, s[1..], le);
      HeadPrecedes(x, s, rest, le);
      SortedCons(s[0], rest, le);
      assert multiset(s) == multiset{s[0]} + multiset(s[1..]) by {
        assert s == [s[0]] + s[1..];
      }
      [s[0]] + rest
  }

  /**
   * `s.sort_by(key)` where le compares keys. Ruby's sort_by is not stable:
   * this is one admissible result; the lemmas about the report hold for any
   * sorted permutation (they take SortedBy and multiset equality as premises).
   */
  function SortBy<T(!new)>(s: seq<T>, le: (T, T) -> bool): (r: seq<T>)
    requires TotalPreorder(le)
    ensures multiset(r) == multiset(s)
    ensures SortedBy(r, le)
  {
    if s == [] then []
    else
      assert s == [s[0]] + s[1..];
      Insert(s[0], SortBy(s[1..], le), le)
  }

  /** Filtering a sorted sequence keeps it sorted: each selected part keeps the order of the whole. */
  lemma {:induction false} FilterKeepsOrder<T(!new)>(s: seq<T>, p: T -> bool, le: (T, T) -> bool)
    requires SortedBy(s, le)
    ensures SortedBy(Filter(s, p), le)
  {
    if s != [] {
      var init, last := s[..|s| - 1], s[|s| - 1];
      FilterKeepsOrder(init, p, le);
      var rest := Filter(init, p);
      forall y | y in rest ensures le(y, last) {
        var i :| 0 <= i < |init| && init[i] == y;
        assert s[i] == y;
      }
    }
  }
}

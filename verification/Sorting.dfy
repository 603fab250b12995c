/** In-place sorting as `sort.Slice` and `sort.Strings` promise it: the outcome is some ordered
    permutation, and nothing is said about elements that compare equal (the sort is not stable). */
module Sorting {

  /** The orders that may be passed to a sort: total, reflexive and transitive. */
  ghost predicate TotalPreorder<T(!new)>(le: (T, T) -> bool) {
    && (forall x, y :: le(x, y) || le(y, x))
    && (forall x, y, z :: le(x, y) && le(y, z) ==> le(x, z))
  }

  ghost predicate Sorted<T>(le: (T, T) -> bool, s: seq<T>) {
    forall i, j :: 0 <= i < j < |s| ==> le(s[i], s[j])
  }

  /** `t` is one of the results a sort of `s` may leave behind. */
  ghost predicate SortedPermutation<T>(le: (T, T) -> bool, s: seq<T>, t: seq<T>) {
    multiset(t) == multiset(s) && Sorted(le, t)
  }

  ghost predicate AtMost<T>(le: (T, T) -> bool, s: multiset<T>, x: T) {
    forall y :: y in s ==> le(y, x)
  }

  /** Puts `x` behind every element that may stand before it. */
  function Insert<T(!new)>(le: (T, T) -> bool, s: seq<T>, x: T): seq<T> {
    if s == [] || le(s[|s| - 1], x) then s + [x] else Insert(le, s[..|s| - 1], x) + [s[|s| - 1]]
  }

  lemma SortedSnoc<T(!new)>(le: (T, T) -> bool, s: seq<T>, x: T)
    requires Sorted(le, s) && AtMost(le, multiset(s), x)
    ensures Sorted(le, s + [x])
  {
    forall i | 0 <= i < |s|
      ensures le(s[i], x)
    {
      assert s[i] in multiset(s);
    }
  }

  lemma {:induction false} InsertSorts<T(!new)>(le: (T, T) -> bool, s: seq<T>, x: T)
    requires TotalPreorder(le) && Sorted(le, s)
    ensures SortedPermutation(le, s + [x], Insert(le, s, x))
  {
    if s == [] {
    } else {
      var front, last := s[..|s| - 1], s[|s| - 1];
      assert s == front + [last];
      assert AtMost(le, multiset(front), last) by {
        assert forall y :: y in multiset(front) ==> y in front;
      }
      if le(last, x) {
        assert AtMost(le, multiset(s), x);
        SortedSnoc(le, s, x);
      } else {
        InsertSorts(le, front, x);
        SortedSnoc(le, Insert(le, front, x), last);
      }
    }
  }

  /** Sorts the slice in place. */
  method SortSlice<T(!new)>(a: array<T>, le: (T, T) -> bool)
    requires TotalPreorder(le)
    modifies a
    ensures SortedPermutation(le, old(a[..]), a[..])
  {
    var s := [];
    for i := 0 to a.Length
      invariant a[..] == old(a[..])
      invariant SortedPermutation(le, a[..i], s)
    {
      InsertSorts(le, s, a[i]);
      s := Insert(le, s, a[i]);
      assert a[..i + 1] == a[..i] + [a[i]];
    }
    ghost var before := a[..];
    assert a[..a.Length] == before;
    assert |multiset(s)| == |multiset(before)|;
    forall i | 0 <= i < a.Length {
      a[i] := s[i];
    }
    assert a[..] == s;
  }

  ghost predicate Strict<T>(le: (T, T) -> bool, s: seq<T>) {
    forall i, j :: 0 <= i < j < |s| ==> !le(s[j], s[i])
  }

  lemma LastOfStrict<T(!new)>(le: (T, T) -> bool, s: seq<T>, t: seq<T>)
    requires Strict(le, s) && SortedPermutation(le, s, t) && s != []
    ensures |t| == |s| && t[|t| - 1] == s[|s| - 1]
  {
    var n := |s| - 1;
    assert |multiset(t)| == |multiset(s)|;
    assert s[n] in multiset(t) && t[n] in multiset(s);
    var i :| 0 <= i < |s| && s[i] == t[n];
    var j :| 0 <= j < |t| && t[j] == s[n];
  }

  lemma SplitLast<T>(s: seq<T>)
    requires s != []
    ensures s == s[..|s| - 1] + [s[|s| - 1]]
  {
  }

  lemma DropLast<T>(s: seq<T>)
    requires s != []
    ensures multiset(s[..|s| - 1]) == multiset(s) - multiset{s[|s| - 1]}
  {
    assert s == s[..|s| - 1] + [s[|s| - 1]];
  }

  /** A sequence whose order is strict is the only sorted permutation of itself. */
  lemma {:induction false} StrictOrderIsUnique<T(!new)>(le: (T, T) -> bool, s: seq<T>, t: seq<T>)
    requires Strict(le, s) && SortedPermutation(le, s, t)
    ensures s == t
  {
    if s == [] {
      assert |multiset(t)| == 0;
    } else {
      LastOfStrict(le, s, t);
      var n := |s| - 1;
      DropLast(s);
      DropLast(t);
      StrictOrderIsUnique(le, s[..n], t[..n]);
    }
  }
}

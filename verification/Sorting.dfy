/** Stable sorting by a key order, as Python's `sorted(..., key=...)` does it. */
module Sorting {

  ghost predicate TotalPreorder<T(!new)>(le: (T, T) -> bool) {
    && (forall x, y :: le(x, y) || le(y, x))
    && (forall x, y, z :: le(x, y) && le(y, z) ==> le(x, z))
  }

  ghost predicate Sorted<T>(s: seq<T>, le: (T, T) -> bool) {
    forall i, j | 0 <= i < j < |s| :: le(s[i], s[j])
  }

  function Insert<T>(x: T, s: seq<T>, le: (T, T) -> bool): (r: seq<T>)
    ensures multiset(r) == multiset{x} + multiset(s)
  {
    if s == [] || le(x, if s == [] then x else s[0]) then
      assert [x] + s == [x] + s;
      [x] + s
    else
      assert s == [s[0]] + s[1..];
      [s[0]] + Insert(x, s[1..], le)
  }

  /** Insertion from the right, before equal keys: the result is stable. */
  function Sort<T>(s: seq<T>, le: (T, T) -> bool): (r: seq<T>)
    ensures multiset(r) == multiset(s)
    ensures |r| == |s|
  {
    if s == [] then []
    else
      assert s == [s[0]] + s[1..];
      var r := Insert(s[0], Sort(s[1..], le), le);
      assert |multiset(r)| == |multiset(s)|;
      r
  }

  lemma SortMembers<T>(s: seq<T>, le: (T, T) -> bool, x: T)
    ensures x in Sort(s, le) <==> x in s
  {
    assert x in Sort(s, le) <==> x in multiset(Sort(s, le));
    assert x in s <==> x in multiset(s);
  }

  lemma {:induction false} InsertSorts<T(!new)>(x: T, s: seq<T>, le: (T, T) -> bool)
    requires TotalPreorder(le) && Sorted(s, le)
    ensures Sorted(Insert(x, s, le), le)
  {
    if s != [] && !le(x, s[0]) {
      InsertSorts(x, s[1..], le);
      var tail := Insert(x, s[1..], le);
      forall y | y in tail
        ensures le(s[0], y)
      {
        assert y in multiset(tail);
        assert y == x || y in multiset(s[1..]);
      }
    }
  }

  lemma {:induction false} SortSorts<T(!new)>(s: seq<T>, le: (T, T) -> bool)
    requires TotalPreorder(le)
    ensures Sorted(Sort(s, le), le)
  {
    if s != [] {
      SortSorts(s[1..], le);
      InsertSorts(s[0], Sort(s[1..], le), le);
    }
  }

  /** The items that tie with `x`, in order. */
  function Ties<T>(s: seq<T>, le: (T, T) -> bool, x: T): (r: seq<T>)
    ensures forall y | y in r :: y in s && le(x, y) && le(y, x)
  {
    if s == [] then []
    else (if le(x, s[0]) && le(s[0], x) then [s[0]] else []) + Ties(s[1..], le, x)
  }

  function Tie<T>(y: T, le: (T, T) -> bool, x: T): seq<T> {
    if le(x, y) && le(y, x) then [y] else []
  }

  lemma TiesCons<T>(y: T, s: seq<T>, le: (T, T) -> bool, x: T)
    ensures Ties([y] + s, le, x) == Tie(y, le, x) + Ties(s, le, x)
  {
    assert ([y] + s)[1..] == s;
  }

  lemma TiesDoNotSwap<T(!new)>(y: T, z: T, le: (T, T) -> bool, x: T)
    requires TotalPreorder(le) && !le(y, z)
    ensures Tie(y, le, x) == [] || Tie(z, le, x) == []
  {
  }

  lemma SwapEmpty<T>(a: seq<T>, b: seq<T>, c: seq<T>)
    requires a == [] || b == []
    ensures b + (a + c) == a + (b + c)
  {
  }

  lemma {:induction false} InsertIsStable<T(!new)>(y: T, s: seq<T>, le: (T, T) -> bool, x: T)
    requires TotalPreorder(le)
    ensures Ties(Insert(y, s, le), le, x) == Tie(y, le, x) + Ties(s, le, x)
  {
    if s == [] || le(y, s[0]) {
      TiesCons(y, s, le, x);
    } else {
      var rest := s[1..];
      InsertIsStable(y, rest, le, x);
      TiesCons(s[0], Insert(y, rest, le), le, x);
      SwapEmpty(Tie(y, le, x), Tie(s[0], le, x), Ties(rest, le, x)) by {
        TiesDoNotSwap(y, s[0], le, x);
      }
    }
  }

  /** Items that tie keep their order. */
  lemma {:induction false} SortIsStable<T(!new)>(s: seq<T>, le: (T, T) -> bool, x: T)
    requires TotalPreorder(le)
    ensures Ties(Sort(s, le), le, x) == Ties(s, le, x)
  {
    if s != [] {
      var rest := Sort(s[1..], le);
      SortIsStable(s[1..], le, x);
      InsertIsStable(s[0], rest, le, x);
      TiesCons(s[0], rest, le, x);
    }
  }

  /** The first of the items that tie with the one at `i` when nothing before it ties with it. */
  lemma {:induction false} FirstTie<T>(s: seq<T>, le: (T, T) -> bool, x: T, i: nat)
    requires i < |s| && le(x, s[i]) && le(s[i], x) && forall j | 0 <= j < i :: !(le(x, s[j]) && le(s[j], x))
    ensures Ties(s, le, x) != [] && Ties(s, le, x)[0] == s[i]
  {
    if i > 0 {
      FirstTie(s[1..], le, x, i - 1);
    }
  }

  /** Where the first of the ties stands. */
  lemma {:induction false} PlaceOfFirstTie<T>(s: seq<T>, le: (T, T) -> bool, x: T) returns (i: nat)
    requires Ties(s, le, x) != []
    ensures i < |s| && s[i] == Ties(s, le, x)[0] && forall j | 0 <= j < i :: !(le(x, s[j]) && le(s[j], x))
  {
    i := 0;
    if !(le(x, s[0]) && le(s[0], x)) {
      i := PlaceOfFirstTie(s[1..], le, x);
      i := i + 1;
    }
  }
}

/** Small helpers shared by the models. */
module Common {

  datatype Option<+T> = None | Some(value: T)
  {
    function GetOr(default: T): T { if Some? then value else default }
  }

  lemma FrontAndLast<T>(s: seq<T>)
    requires s != []
    ensures forall x :: x in s <==> x in s[..|s| - 1] || x == s[|s| - 1]
  {
    assert s == s[..|s| - 1] + [s[|s| - 1]];
  }

  /** The elements of `s` that satisfy `p`, in order. */
  function Filter<T(!new)>(s: seq<T>, p: T -> bool): (r: seq<T>)
    ensures forall x :: x in r <==> x in s && p(x)
    ensures |r| <= |s|
  {
    if s == [] then []
    else
      var rest := Filter(s[..|s| - 1], p);
      assert s == s[..|s| - 1] + [s[|s| - 1]];
      if p(s[|s| - 1]) then rest + [s[|s| - 1]] else rest
  }

  function Range(lo: nat, hi: nat): (r: seq<nat>)
    ensures forall p :: p in r <==> lo <= p < hi
    decreases hi
  {
    if hi <= lo then [] else Range(lo, hi - 1) + [hi - 1]
  }

  ghost function Naturals(n: nat): (r: set<nat>)
    ensures forall x: nat :: x in r <==> x < n
  {
    if n == 0 then {} else Naturals(n - 1) + {n - 1}
  }

  function Min(a: int, b: int): (r: int)
    ensures r <= a && r <= b && r in {a, b}
  {
    if a <= b then a else b
  }

  function Max(a: int, b: int): (r: int)
    ensures r >= a && r >= b && r in {a, b}
  {
    if a >= b then a else b
  }

  function Abs(a: int): nat { if a >= 0 then a else -a }

  // ----- sorting ---------------------------------------------------------------

  /** What a sort key gives: any two elements compare, and comparing chains. */
  ghost predicate IsOrder<T(!new)>(le: (T, T) -> bool) {
    && (forall a, b :: le(a, b) || le(b, a))
    && (forall a, b, c :: le(a, b) && le(b, c) ==> le(a, c))
  }

  /** The relation holds between any two elements, the earlier one first. */
  ghost predicate Pairwise<T>(s: seq<T>, rel: (T, T) -> bool) {
    forall i, j :: 0 <= i < j < |s| ==> rel(s[i], s[j])
  }

  /** Insertion into a sorted sequence; ties go after. */
  function Insert<T>(s: seq<T>, x: T, le: (T, T) -> bool): (r: seq<T>)
    ensures |r| == |s| + 1 && multiset(r) == multiset(s) + multiset{x}
  {
    if s == [] || le(s[|s| - 1], x) then s + [x]
    else
      assert s == s[..|s| - 1] + [s[|s| - 1]];
      Insert(s[..|s| - 1], x, le) + [s[|s| - 1]]
  }

  /** The stable sort. */
  function Sort<T>(s: seq<T>, le: (T, T) -> bool): (r: seq<T>)
    ensures |r| == |s| && multiset(r) == multiset(s)
  {
    if s == [] then []
    else
      assert s == s[..|s| - 1] + [s[|s| - 1]];
      Insert(Sort(s[..|s| - 1], le), s[|s| - 1], le)
  }

  lemma InsertedMembers<T>(s: seq<T>, x: T, le: (T, T) -> bool)
    ensures forall y :: y in Insert(s, x, le) <==> y == x || y in s
  {
    forall y
      ensures y in Insert(s, x, le) <==> y == x || y in s
    {
      assert y in Insert(s, x, le) <==> y in multiset(Insert(s, x, le));
    }
  }

  lemma SortedMembers<T>(s: seq<T>, le: (T, T) -> bool)
    ensures forall y :: y in Sort(s, le) <==> y in s
  {
    forall y
      ensures y in Sort(s, le) <==> y in s
    {
      assert y in Sort(s, le) <==> y in multiset(Sort(s, le));
    }
  }

  lemma {:induction false} InsertSorts<T(!new)>(s: seq<T>, x: T, le: (T, T) -> bool)
    requires IsOrder(le) && Pairwise(s, le)
    ensures Pairwise(Insert(s, x, le), le)
  {
    if s == [] {
    } else if le(s[|s| - 1], x) {
      assert forall i :: 0 <= i < |s| - 1 ==> le(s[i], s[|s| - 1]);
    } else {
      var front, back := s[..|s| - 1], s[|s| - 1];
      InsertSorts(front, x, le);
      InsertedMembers(front, x, le);
      var r := Insert(front, x, le);
      forall i | 0 <= i < |r|
        ensures le(r[i], back)
      {
        assert r[i] in r;
      }
    }
  }

  lemma {:induction false} SortSorts<T(!new)>(s: seq<T>, le: (T, T) -> bool)
    requires IsOrder(le)
    ensures Pairwise(Sort(s, le), le)
  {
    if s != [] {
      SortSorts(s[..|s| - 1], le);
      InsertSorts(Sort(s[..|s| - 1], le), s[|s| - 1], le);
    }
  }

  /** What `rel` asks of two elements once the sort has put them in order. */
  predicate Arranged<T>(le: (T, T) -> bool, rel: (T, T) -> bool, a: T, b: T) {
    if le(a, b) then rel(a, b) else rel(b, a)
  }

  ghost predicate AllTo<T(!new)>(s: seq<T>, x: T, rel: (T, T) -> bool) { forall y :: y in s ==> rel(y, x) }

  ghost predicate ArrangedTo<T(!new)>(s: seq<T>, x: T, le: (T, T) -> bool, rel: (T, T) -> bool) {
    forall y :: y in s ==> Arranged(le, rel, y, x)
  }

  lemma {:induction false} InsertPairs<T(!new)>(s: seq<T>, x: T, le: (T, T) -> bool, rel: (T, T) -> bool)
    requires IsOrder(le) && Pairwise(s, le)
    ensures Pairwise(Insert(s, x, le), rel) <==> Pairwise(s, rel) && ArrangedTo(s, x, le, rel)
  {
    if s != [] && !le(s[|s| - 1], x) {
      var front, back := s[..|s| - 1], s[|s| - 1];
      assert s == front + [back] && Insert(s, x, le) == Insert(front, x, le) + [back];
      PairwiseFront(front, back, le);
      hide Pairwise, IsOrder, Insert, Arranged, ArrangedTo, AllTo;
      InsertPairs(front, x, le, rel);
      PairwiseOneMore(Insert(front, x, le), back, rel);
      PairwiseOneMore(front, back, rel);
      InsertedTo(front, x, back, le, rel);
      BackArranged(front, back, x, le, rel);
    } else {
      PairwiseOneMore(s, x, rel);
      AllBefore(s, x, le);
    }
  }

  lemma InsertedTo<T(!new)>(front: seq<T>, x: T, back: T, le: (T, T) -> bool, rel: (T, T) -> bool)
    ensures AllTo(Insert(front, x, le), back, rel) <==> AllTo(front, back, rel) && rel(x, back)
  {
    InsertedMembers(front, x, le);
  }

  lemma BackArranged<T(!new)>(front: seq<T>, back: T, x: T, le: (T, T) -> bool, rel: (T, T) -> bool)
    requires !le(back, x)
    ensures ArrangedTo(front + [back], x, le, rel) <==> ArrangedTo(front, x, le, rel) && rel(x, back)
  {
    hide Arranged;
    assert Arranged(le, rel, back, x) == rel(x, back) by { NotBefore(le, rel, back, x); }
    assert forall y :: y in front + [back] <==> y in front || y == back;
  }

  lemma NotBefore<T(!new)>(le: (T, T) -> bool, rel: (T, T) -> bool, a: T, b: T)
    requires !le(a, b)
    ensures Arranged(le, rel, a, b) == rel(b, a)
  {
  }

  lemma AllBefore<T(!new)>(s: seq<T>, x: T, le: (T, T) -> bool)
    requires IsOrder(le) && Pairwise(s, le) && (s == [] || le(s[|s| - 1], x))
    ensures forall y :: y in s ==> le(y, x)
  {
    forall y | y in s
      ensures le(y, x)
    {
      var i :| 0 <= i < |s| && s[i] == y;
      assert i < |s| - 1 ==> le(y, s[|s| - 1]);
    }
  }

  lemma PairwiseOneMore<T(!new)>(s: seq<T>, x: T, rel: (T, T) -> bool)
    ensures Pairwise(s + [x], rel) <==> Pairwise(s, rel) && AllTo(s, x, rel)
  {
    var r := s + [x];
    if Pairwise(r, rel) {
      assert forall i :: 0 <= i < |s| ==> r[i] == s[i] && r[|s|] == x;
      assert forall i :: 0 <= i < |s| ==> rel(r[i], r[|s|]);
    }
  }

  ghost predicate AllArranged<T>(s: seq<T>, le: (T, T) -> bool, rel: (T, T) -> bool) {
    forall i, j :: 0 <= i < j < |s| ==> Arranged(le, rel, s[i], s[j])
  }

  lemma ArrangedOneMore<T(!new)>(s: seq<T>, x: T, le: (T, T) -> bool, rel: (T, T) -> bool)
    ensures AllArranged(s + [x], le, rel) <==> AllArranged(s, le, rel) && ArrangedTo(s, x, le, rel)
  {
    PairwiseOneMore(s, x, (a, b) => Arranged(le, rel, a, b));
  }

  /** A relation holds all along a sorted list exactly when it holds between any two
      elements taken the way the key puts them, ties as they stood. */
  lemma {:induction false} SortPairs<T(!new)>(s: seq<T>, le: (T, T) -> bool, rel: (T, T) -> bool)
    requires IsOrder(le)
    ensures Pairwise(Sort(s, le), rel) <==> AllArranged(s, le, rel)
  {
    hide Pairwise, AllArranged, Arranged, Insert, IsOrder;
    if s == [] {
      NothingArranged(le, rel);
    } else {
      var front, x := s[..|s| - 1], s[|s| - 1];
      assert s == front + [x];
      SortPairs(front, le, rel);
      SortedMembers(front, le);
      SortSorts(front, le);
      InsertPairs(Sort(front, le), x, le, rel);
      ArrangedOneMore(front, x, le, rel);
    }
  }

  lemma NothingArranged<T>(le: (T, T) -> bool, rel: (T, T) -> bool)
    ensures Pairwise([], rel) && AllArranged([], le, rel)
  {
  }

  /** Elements that differ pairwise, however that is meant, still do when sorted. */
  lemma SortKeepsPairs<T(!new)>(s: seq<T>, le: (T, T) -> bool, rel: (T, T) -> bool)
    requires IsOrder(le) && Pairwise(s, rel) && forall a, b :: rel(a, b) ==> rel(b, a)
    ensures Pairwise(Sort(s, le), rel)
  {
    SortPairs(s, le, rel);
  }

  lemma PairwiseFront<T>(s: seq<T>, x: T, rel: (T, T) -> bool)
    requires Pairwise(s + [x], rel)
    ensures Pairwise(s, rel) && (s != [] ==> rel(s[|s| - 1], x))
  {
    var r := s + [x];
    assert forall i :: 0 <= i < |s| ==> r[i] == s[i];
    assert s != [] ==> rel(r[|s| - 1], r[|s|]);
  }

  lemma InsertsLast<T>(s: seq<T>, x: T, le: (T, T) -> bool)
    requires s == [] || le(s[|s| - 1], x)
    ensures Insert(s, x, le) == s + [x]
  {
  }

  /** A sorted sequence stays as it is. */
  lemma {:induction false} SortedStays<T>(s: seq<T>, le: (T, T) -> bool)
    requires Pairwise(s, le)
    ensures Sort(s, le) == s
  {
    hide Pairwise, Insert;
    if s != [] {
      var front, x := s[..|s| - 1], s[|s| - 1];
      assert s == front + [x];
      PairwiseFront(front, x, le);
      SortedStays(front, le);
      InsertsLast(front, x, le);
    }
  }

  lemma {:induction false} SortTwo<T>(a: T, b: T, le: (T, T) -> bool)
    requires !le(a, b)
    ensures Sort([a, b], le) == [b, a]
  {
    assert [a, b][..1] == [a] && [a][..0] == [];
    assert Insert([], b, le) == [b] && Insert([], a, le) == [a];
    assert Sort([a], le) == Insert(Sort([a][..0], le), a, le);
    assert Sort([a, b], le) == Insert(Sort([a, b][..1], le), b, le);
  }

  lemma FilterOneMore<T(!new)>(s: seq<T>, x: T, p: T -> bool)
    ensures Filter(s + [x], p) == if p(x) then Filter(s, p) + [x] else Filter(s, p)
  {
    assert (s + [x])[..|s|] == s;
  }

  ghost predicate Climbs(s: seq<nat>) { forall i, j :: 0 <= i < j < |s| ==> s[i] < s[j] }

  lemma OneMoreClimbs(s: seq<nat>, x: nat)
    requires Climbs(s) && forall k :: k in s ==> k < x
    ensures Climbs(s + [x])
  {
    forall i, j | 0 <= i < j < |s + [x]|
      ensures (s + [x])[i] < (s + [x])[j]
    {
      assert s[i] in s;
      assert j < |s| ==> (s + [x])[j] == s[j];
    }
  }

  lemma NothingClimbs(lo: nat, hi: nat, p: nat -> bool)
    requires hi <= lo
    ensures Climbs(Filter<nat>(Range(lo, hi), p))
  {
    assert Range(lo, hi) == [];
  }

  /** The numbers of a range that satisfy `p`, ascending. */
  lemma {:induction false} FilteredRangeAscends(lo: nat, hi: nat, p: nat -> bool)
    ensures Climbs(Filter<nat>(Range(lo, hi), p))
    decreases hi
  {
    hide Climbs, Filter;
    if hi > lo {
      FilteredRangeAscends(lo, hi - 1, p);
      var last: nat := hi - 1;
      FilterOneMore<nat>(Range(lo, last), last, p);
      OneMoreClimbs(Filter<nat>(Range(lo, last), p), last);
    } else {
      NothingClimbs(lo, hi, p);
    }
  }

  predicate AtMost(a: int, b: int) { a <= b }

  function SortInts(s: seq<int>): (r: seq<int>)
    ensures |r| == |s|
  {
    Sort(s, AtMost)
  }

  ghost predicate Ascending(s: seq<int>) {
    forall i, j :: 0 <= i < j < |s| ==> s[i] <= s[j]
  }

  lemma SortIntsSorts(s: seq<int>)
    ensures Ascending(SortInts(s))
    ensures multiset(SortInts(s)) == multiset(s)
  {
    SortSorts(s, AtMost);
    var r := Sort(s, AtMost);
    forall i, j | 0 <= i < j < |r|
      ensures r[i] <= r[j]
    {
      assert AtMost(r[i], r[j]);
    }
  }

  // ----- ranks -----------------------------------------------------------------

  ghost function CountLess(s: seq<int>, x: int): (n: nat)
    ensures n <= |s|
  {
    if s == [] then 0 else CountLess(s[..|s| - 1], x) + if s[|s| - 1] < x then 1 else 0
  }

  ghost function CountMore(s: seq<int>, x: int): (n: nat)
    ensures n <= |s|
  {
    if s == [] then 0 else CountMore(s[..|s| - 1], x) + if s[|s| - 1] > x then 1 else 0
  }

  /** `x` is the element of `s` that `r` elements come before, in order of size. */
  ghost predicate Ranked(s: seq<int>, r: int, x: int) {
    x in s && CountLess(s, x) <= r < |s| - CountMore(s, x)
  }

  /** The two middle elements of a sequence of even length, by size. */
  ghost predicate MiddlePair(s: seq<int>, a: int, b: int) {
    Ranked(s, |s| / 2 - 1, a) && Ranked(s, |s| / 2, b)
  }

  lemma {:induction false} InsertCounts(s: seq<int>, y: int, x: int)
    ensures CountLess(Insert(s, y, AtMost), x) == CountLess(s, x) + (if y < x then 1 else 0)
    ensures CountMore(Insert(s, y, AtMost), x) == CountMore(s, x) + (if y > x then 1 else 0)
  {
    if s == [] || AtMost(s[|s| - 1], y) {
      assert (s + [y])[..|s|] == s;
    } else {
      var front, back := s[..|s| - 1], s[|s| - 1];
      InsertCounts(front, y, x);
      var r := Insert(front, y, AtMost);
      assert (r + [back])[..|r|] == r;
    }
  }

  lemma {:induction false} SortCounts(s: seq<int>, x: int)
    ensures CountLess(SortInts(s), x) == CountLess(s, x) && CountMore(SortInts(s), x) == CountMore(s, x)
  {
    if s != [] {
      SortCounts(s[..|s| - 1], x);
      InsertCounts(SortInts(s[..|s| - 1]), s[|s| - 1], x);
    }
  }

  lemma {:induction false} AscendingCounts(s: seq<int>, n: nat, x: int)
    requires n <= |s| && Ascending(s)
    ensures forall r :: 0 <= r < n && s[r] == x ==> CountLess(s[..n], x) <= r && CountMore(s[..n], x) < n - r
    ensures (forall r :: 0 <= r < n ==> s[r] < x) ==> CountMore(s[..n], x) == 0
    ensures (forall r :: 0 <= r < n ==> s[r] <= x) ==> CountMore(s[..n], x) == 0
  {
    if n > 0 {
      assert s[..n][..n - 1] == s[..n - 1];
      AscendingCounts(s, n - 1, x);
    }
  }

  /** What the sorted sequence holds at `r` is the element of that rank. */
  lemma SortRanks(s: seq<int>, r: nat)
    requires r < |s|
    ensures Ranked(s, r, SortInts(s)[r])
  {
    var t := SortInts(s);
    SortIntsSorts(s);
    SortCounts(s, t[r]);
    AscendingCounts(t, |t|, t[r]);
    assert t[..|t|] == t;
    assert t[r] in multiset(t);
  }

  lemma {:induction false} CountsCross(s: seq<int>, x: int, y: int)
    requires x < y
    ensures CountLess(s, y) + CountMore(s, x) >= |s|
  {
    if s != [] {
      CountsCross(s[..|s| - 1], x, y);
    }
  }

  /** One element has a rank. */
  lemma RankIsUnique(s: seq<int>, r: int, x: int, y: int)
    requires Ranked(s, r, x) && Ranked(s, r, y)
    ensures x == y
  {
    if x < y {
      CountsCross(s, x, y);
    } else if y < x {
      CountsCross(s, y, x);
    }
  }
}

/** Severe low section counts among sibling editions (`find_outliers`). Medians are
    kept doubled, so that every comparison is one of integers. */
module Outliers {
  import opened Common

  const MIN_PEERS := 5

  /** The counts of all editions of a group but one. */
  function Peers(xs: seq<nat>, i: nat): (r: seq<int>)
    requires i < |xs|
    ensures |r| == |xs| - 1
  {
    xs[..i] + xs[i + 1..]
  }

  /** Twice the median. */
  function Median2(xs: seq<int>): int
    requires xs != []
  {
    var s, k := SortInts(xs), |xs| / 2;
    if |xs| % 2 == 1 then 2 * s[k] else s[k - 1] + s[k]
  }

  /** Within a quarter of the median to either side: PEER_BAND is 1/4. */
  predicate InBand(median2: int, x: int) { 3 * median2 <= 8 * x <= 5 * median2 }

  function Clustered(median2: int, xs: seq<int>): (n: nat)
    ensures n <= |xs|
  {
    if xs == [] then 0 else Clustered(median2, xs[..|xs| - 1]) + if InBand(median2, xs[|xs| - 1]) then 1 else 0
  }

  /** Less than half the peer median (COLLAPSE_RATIO is 1/2), while three quarters of
      the peers (MIN_CLUSTER_SHARE) are in the band. */
  predicate Flagged(xs: seq<nat>, i: nat)
    requires i < |xs|
  {
    && |xs| >= MIN_PEERS + 1
    && var median2 := Median2(Peers(xs, i));
       median2 > 0 && 4 * xs[i] < median2 && 4 * Clustered(median2, Peers(xs, i)) >= 3 * (|xs| - 1)
  }

  datatype Outlier = Outlier(group: nat, edition: nat, median2: int, clustered: nat, peers: nat)

  function FlaggedIn(group: nat, xs: seq<nat>, n: nat): seq<Outlier>
    requires n <= |xs|
  {
    if n == 0 then []
    else
      FlaggedIn(group, xs, n - 1)
      + if Flagged(xs, n - 1) then
          var peers := Peers(xs, n - 1);
          [Outlier(group, n - 1, Median2(peers), Clustered(Median2(peers), peers), |peers|)]
        else []
  }

  function AllFlagged(groups: seq<seq<nat>>, n: nat): seq<Outlier>
    requires n <= |groups|
  {
    if n == 0 then [] else AllFlagged(groups, n - 1) + FlaggedIn(n - 1, groups[n - 1], |groups[n - 1]|)
  }

  /** `find_outliers`, on the section counts of each group. */
  method FindOutliers(groups: seq<seq<nat>>) returns (found: seq<Outlier>)
    ensures found == AllFlagged(groups, |groups|)
  {
    hide Median2, Clustered, Peers;
    found := [];
    for g := 0 to |groups|
      invariant found == AllFlagged(groups, g)
    {
      var xs := groups[g];
      if |xs| < MIN_PEERS + 1 {
        SmallGroupsPass(g, xs, |xs|);
        continue;
      }
      ghost var before := found;
      for i := 0 to |xs|
        invariant found == before + FlaggedIn(g, xs, i)
      {
        var peers := Peers(xs, i);
        var baseline := Median2(peers);
        if baseline <= 0 || 4 * xs[i] >= baseline {
          continue;
        }
        var clustered := Clustered(baseline, peers);
        if 4 * clustered >= 3 * |peers| {
          found := found + [Outlier(g, i, baseline, clustered, |peers|)];
        }
      }
    }
  }

  lemma {:induction false} SmallGroupsPass(group: nat, xs: seq<nat>, n: nat)
    requires n <= |xs| < MIN_PEERS + 1
    ensures FlaggedIn(group, xs, n) == []
  {
    hide Median2, Clustered, Peers;
    if n > 0 {
      SmallGroupsPass(group, xs, n - 1);
    }
  }

  // ----- sorting and counting --------------------------------------------------

  lemma LastIsLargest(a: seq<int>, x: int)
    requires Ascending(a) && x in multiset(a)
    ensures a != [] && x <= a[|a| - 1]
  {
    var i :| 0 <= i < |a| && a[i] == x;
  }

  lemma FrontLacksLast(a: seq<int>)
    requires a != [] && Ascending(a)
    ensures multiset(a[..|a| - 1]) == multiset(a) - multiset{a[|a| - 1]} && Ascending(a[..|a| - 1])
    ensures a[|a| - 1] in multiset(a)
  {
    assert a == a[..|a| - 1] + [a[|a| - 1]];
  }

  lemma {:induction false} SortedIsUnique(a: seq<int>, b: seq<int>)
    requires Ascending(a) && Ascending(b) && multiset(a) == multiset(b)
    ensures a == b
  {
    hide Ascending;
    if a == [] || b == [] {
      assert |multiset(a)| == |a| && |multiset(b)| == |b|;
    } else {
      SameLast(a, b);
      SortedIsUnique(a[..|a| - 1], b[..|b| - 1]);
      Rejoin(a, b);
    }
  }

  lemma SameLast(a: seq<int>, b: seq<int>)
    requires Ascending(a) && Ascending(b) && multiset(a) == multiset(b) && a != [] && b != []
    ensures a[|a| - 1] == b[|b| - 1] && multiset(a[..|a| - 1]) == multiset(b[..|b| - 1])
    ensures Ascending(a[..|a| - 1]) && Ascending(b[..|b| - 1])
  {
    hide Ascending;
    FrontLacksLast(a);
    FrontLacksLast(b);
    LastIsLargest(a, b[|b| - 1]);
    LastIsLargest(b, a[|a| - 1]);
  }

  lemma Rejoin(a: seq<int>, b: seq<int>)
    requires a != [] && b != [] && a[|a| - 1] == b[|b| - 1] && a[..|a| - 1] == b[..|b| - 1]
    ensures a == b
  {
    assert a == a[..|a| - 1] + [a[|a| - 1]] && b == b[..|b| - 1] + [b[|b| - 1]];
  }

  function Without(s: seq<int>, r: nat): (t: seq<int>)
    requires r < |s|
    ensures |t| == |s| - 1 && multiset(t) == multiset(s) - multiset{s[r]}
    ensures forall k :: 0 <= k < |t| ==> t[k] == if k < r then s[k] else s[k + 1]
  {
    assert s == s[..r] + [s[r]] + s[r + 1..];
    s[..r] + s[r + 1..]
  }

  lemma WithoutAscends(s: seq<int>, r: nat)
    requires r < |s| && Ascending(s)
    ensures Ascending(Without(s, r))
  {
    var t := Without(s, r);
    forall i, j | 0 <= i < j < |t|
      ensures t[i] <= t[j]
    {
      assert s[if i < r then i else i + 1] <= s[if j < r then j else j + 1];
    }
  }

  /** The peers of an edition are, sorted, the sorted group less one place holding the
      edition's own count. */
  lemma SortedPeers(xs: seq<nat>, i: nat) returns (r: nat)
    requires i < |xs|
    ensures r < |xs| && SortInts(xs)[r] == xs[i]
    ensures SortInts(Peers(xs, i)) == Without(SortInts(xs), r)
  {
    hide SortInts, Ascending, Without;
    var s := SortInts(xs);
    SortIntsSorts(xs);
    SortIntsSorts(Peers(xs, i));
    r := PlaceOf(s, xs, xs[i]);
    PeersLackOne(xs, i);
    WithoutAscends(s, r);
    SortedIsUnique(SortInts(Peers(xs, i)), Without(s, r));
  }

  lemma PlaceOf(s: seq<int>, xs: seq<int>, x: int) returns (r: nat)
    requires multiset(s) == multiset(xs) && x in xs
    ensures r < |s| && s[r] == x
  {
    assert x in multiset(s);
    r :| 0 <= r < |s| && s[r] == x;
  }

  lemma PeersLackOne(xs: seq<int>, i: nat)
    requires i < |xs|
    ensures multiset(xs[..i] + xs[i + 1..]) == multiset(xs) - multiset{xs[i]}
  {
    assert xs == xs[..i] + [xs[i]] + xs[i + 1..];
  }

  lemma {:induction false} ClusteredPlus(median2: int, a: seq<int>, x: int, b: seq<int>)
    ensures Clustered(median2, a + [x] + b) == Clustered(median2, a + b) + if InBand(median2, x) then 1 else 0
  {
    if b == [] {
      assert a + [x] + b == a + [x] && (a + [x])[..|a|] == a && a + b == a;
    } else {
      var front, y := b[..|b| - 1], b[|b| - 1];
      ClusteredPlus(median2, a, x, front);
      assert (a + [x] + b)[..|a| + |b|] == a + [x] + front;
      assert (a + b)[..|a| + |b| - 1] == a + front;
    }
  }

  lemma {:induction false} ClusteredInsert(median2: int, s: seq<int>, x: int)
    ensures Clustered(median2, Insert(s, x, AtMost)) == Clustered(median2, s) + if InBand(median2, x) then 1 else 0
  {
    hide InBand;
    if s == [] || s[|s| - 1] <= x {
      assert (s + [x])[..|s|] == s;
    } else {
      var front, back := s[..|s| - 1], s[|s| - 1];
      ClusteredInsert(median2, front, x);
      var r := Insert(front, x, AtMost);
      assert (r + [back])[..|r|] == r;
    }
  }

  lemma {:induction false} ClusteredSorted(median2: int, s: seq<int>)
    ensures Clustered(median2, SortInts(s)) == Clustered(median2, s)
  {
    hide InBand;
    if s != [] {
      ClusteredSorted(median2, s[..|s| - 1]);
      ClusteredInsert(median2, SortInts(s[..|s| - 1]), s[|s| - 1]);
    }
  }

  lemma {:induction false} ClusteredAfterLow(median2: int, s: seq<int>, n: nat)
    requires n <= |s| && forall k :: 0 <= k < n ==> !InBand(median2, s[k])
    ensures Clustered(median2, s) <= |s| - n
  {
    hide InBand;
    if |s| > n {
      ClusteredAfterLow(median2, s[..|s| - 1], n);
    } else if n > 0 {
      ClusteredAfterLow(median2, s[..|s| - 1], n - 1);
    }
  }

  // ----- one median for every flagged edition ----------------------------------

  /** Twice the median of a group from which one of its lower half is taken away. */
  function GroupMedian2(xs: seq<nat>): int
    requires |xs| >= 2
  {
    var s, k := SortInts(xs), |xs| / 2;
    if |xs| % 2 == 0 then 2 * s[k] else s[k] + SortInts(xs)[Min(k + 1, |xs| - 1)]
  }

  lemma MedianWithout(s: seq<int>, r: nat)
    requires |s| >= 2 && r < |s| && Ascending(s)
    ensures var k, t := |s| / 2, Without(s, r);
            && (|s| % 2 == 0 && r >= k ==> t[(|s| - 1) / 2] <= s[r])
            && (|s| % 2 == 0 && r < k ==> t[(|s| - 1) / 2] == s[k])
            && (|s| % 2 == 1 && r > k ==> t[k - 1] + t[k] <= 2 * s[r])
            && (|s| % 2 == 1 && r < k ==> t[k - 1] + t[k] == s[k] + s[k + 1])
            && (|s| % 2 == 1 && r == k ==> forall x :: 0 <= x < k ==> t[x] <= s[r])
  {
  }

  /** With the middle edition of an odd group away, half its peers are no larger
      than it is: too many for a cluster above. */
  lemma MiddleIsNotFlagged(xs: seq<nat>, i: nat, r: nat)
    requires i < |xs| && |xs| % 2 == 1 && r == |xs| / 2 && SortInts(xs)[r] == xs[i]
    requires SortInts(Peers(xs, i)) == Without(SortInts(xs), r)
    ensures !Flagged(xs, i)
  {
    if |xs| >= 2 {
      MiddleStandsHigh(xs, i, r, Median2(Peers(xs, i)));
    }
  }

  lemma MiddleStandsHigh(xs: seq<nat>, i: nat, r: nat, m: int)
    requires i < |xs| && 2 <= |xs| && |xs| % 2 == 1 && r == |xs| / 2 && SortInts(xs)[r] == xs[i]
    requires SortInts(Peers(xs, i)) == Without(SortInts(xs), r)
    ensures m > 0 && 4 * xs[i] < m ==> 4 * Clustered(m, Peers(xs, i)) < 3 * (|xs| - 1)
  {
    var s := SortInts(xs);
    var t := Without(s, r);
    SortIntsSorts(xs);
    ClusteredSorted(m, Peers(xs, i));
    hide Peers, Clustered, SortInts, Without;
    if m > 0 && 4 * xs[i] < m {
      forall k | 0 <= k < r
        ensures !InBand(m, t[k])
      {
        assert s[k] <= s[r];
      }
      ClusteredAfterLow(m, t, r);
    }
  }

  lemma MedianOf(p: seq<int>, t: seq<int>, n: nat)
    requires p != [] && SortInts(p) == t && n == |p| + 1 && |t| == |p|
    ensures n % 2 == 0 ==> Median2(p) == 2 * t[(n - 1) / 2]
    ensures n % 2 == 1 ==> Median2(p) == t[n / 2 - 1] + t[n / 2]
  {
    hide SortInts;
  }

  /** Every flagged edition was judged against one and the same median, a figure of
      the group alone. */
  lemma FlaggedAgainstGroup(xs: seq<nat>, i: nat)
    requires i < |xs| && Flagged(xs, i)
    ensures Median2(Peers(xs, i)) == GroupMedian2(xs)
  {
    hide SortInts, Clustered, InBand, Flagged, Median2, GroupMedian2, Without;
    var r := SortedPeers(xs, i);
    if |xs| % 2 == 1 && r == |xs| / 2 {
      MiddleIsNotFlagged(xs, i, r);
    } else {
      OffMiddleMedian(xs, i, r);
    }
  }

  lemma OffMiddleMedian(xs: seq<nat>, i: nat, r: nat)
    requires i < |xs| && Flagged(xs, i) && !(|xs| % 2 == 1 && r == |xs| / 2)
    requires r < |xs| && SortInts(xs)[r] == xs[i] && SortInts(Peers(xs, i)) == Without(SortInts(xs), r)
    ensures Median2(Peers(xs, i)) == GroupMedian2(xs)
  {
    SortIntsSorts(xs);
    hide SortInts;
    MedianWithout(SortInts(xs), r);
    MedianOf(Peers(xs, i), Without(SortInts(xs), r), |xs|);
    hide Clustered, Ascending, Without, InBand, Median2, Peers;
    assert 4 * xs[i] < Median2(Peers(xs, i));
  }

  /** All flagged editions of a group lie outside the band the others cluster in. */
  lemma FlaggedOutsideBand(xs: seq<nat>, i: nat, j: nat)
    requires i < |xs| && j < |xs| && Flagged(xs, i) && Flagged(xs, j)
    ensures Median2(Peers(xs, i)) == Median2(Peers(xs, j))
    ensures !InBand(Median2(Peers(xs, i)), xs[j])
  {
    FlaggedAgainstGroup(xs, i);
    FlaggedAgainstGroup(xs, j);
  }

  // ----- how many can be flagged -----------------------------------------------

  lemma {:induction false} FlaggedOrClustered(group: nat, xs: seq<nat>, n: nat, median2: int)
    requires n <= |xs| && forall j: nat :: j < n && Flagged(xs, j) ==> !InBand(median2, xs[j])
    ensures |FlaggedIn(group, xs, n)| + Clustered(median2, xs[..n]) <= n
  {
    hide Flagged, InBand, Median2;
    if n > 0 {
      FlaggedOrClustered(group, xs, n - 1, median2);
      assert xs[..n][..n - 1] == xs[..n - 1];
    }
  }

  lemma {:induction false} SomeFlagged(group: nat, xs: seq<nat>, n: nat) returns (i: nat)
    requires n <= |xs| && FlaggedIn(group, xs, n) != []
    ensures i < n && Flagged(xs, i)
  {
    hide Flagged;
    if Flagged(xs, n - 1) {
      i := n - 1;
    } else {
      i := SomeFlagged(group, xs, n - 1);
    }
  }

  /** At most one edition and a quarter of the others can be flagged. */
  lemma FewAreFlagged(group: nat, xs: seq<nat>)
    ensures 4 * (|FlaggedIn(group, xs, |xs|)| - 1) <= |xs| - 1 || xs == []
  {
    if xs != [] && FlaggedIn(group, xs, |xs|) != [] {
      hide Median2, InBand, FlaggedIn, Clustered;
      var i := SomeFlagged(group, xs, |xs|);
      var median2 := Median2(Peers(xs, i));
      forall j: nat | j < |xs| && Flagged(xs, j)
        ensures !InBand(median2, xs[j])
      {
        FlaggedOutsideBand(xs, i, j);
      }
      FlaggedOrClustered(group, xs, |xs|, median2);
      ClusteredPeers(median2, xs, i);
    }
  }

  lemma ClusteredPeers(median2: int, xs: seq<nat>, i: nat)
    requires i < |xs| && !InBand(median2, xs[i])
    ensures Clustered(median2, Peers(xs, i)) == Clustered(median2, xs[..|xs|])
  {
    hide InBand, Clustered;
    ClusteredPlus(median2, xs[..i], xs[i], xs[i + 1..]);
    assert xs[..|xs|] == xs[..i] + [xs[i]] + xs[i + 1..];
  }

  // ----- when an edition is flagged --------------------------------------------

  /** `m` is twice the median of `xs`: of the middle one by size, or of the two. */
  ghost predicate TwiceMedian(xs: seq<int>, m: int) {
    if |xs| % 2 == 1 then exists a :: Ranked(xs, |xs| / 2, a) && m == 2 * a
    else exists a, b :: MiddlePair(xs, a, b) && m == a + b
  }

  lemma Median2Exactly(xs: seq<int>, m: int)
    requires xs != []
    ensures TwiceMedian(xs, m) <==> m == Median2(xs)
  {
    hide Ranked, SortInts;
    var k, s := |xs| / 2, SortInts(xs);
    SortRanks(xs, k);
    if |xs| % 2 == 1 {
      if TwiceMedian(xs, m) {
        var a :| Ranked(xs, k, a) && m == 2 * a;
        RankIsUnique(xs, k, a, s[k]);
      }
    } else {
      SortRanks(xs, k - 1);
      assert MiddlePair(xs, s[k - 1], s[k]);
      if TwiceMedian(xs, m) {
        var a, b :| MiddlePair(xs, a, b) && m == a + b;
        RankIsUnique(xs, k - 1, a, s[k - 1]);
        RankIsUnique(xs, k, b, s[k]);
      }
    }
  }

  /** The other editions whose count is within a quarter of the median. */
  ghost function NearMedian(xs: seq<nat>, i: nat, m: int): set<nat> {
    set j: nat | j < |xs| && j != i && 3 * m <= 8 * xs[j] <= 5 * m
  }

  ghost function InBandBelow(s: seq<int>, m: int, n: nat): set<nat>
    requires n <= |s|
  {
    set j: nat | j < n && 3 * m <= 8 * s[j] <= 5 * m
  }

  lemma {:induction false} ClusteredIs(s: seq<int>, m: int, n: nat)
    requires n <= |s|
    ensures Clustered(m, s[..n]) == |InBandBelow(s, m, n)|
  {
    if n > 0 {
      ClusteredIs(s, m, n - 1);
      assert s[..n][..n - 1] == s[..n - 1];
      assert InBandBelow(s, m, n) == InBandBelow(s, m, n - 1) + if InBand(m, s[n - 1]) then {n - 1} else {};
    } else {
      assert InBandBelow(s, m, n) == {};
    }
  }

  lemma PeersInBand(xs: seq<nat>, i: nat, m: int)
    requires i < |xs|
    ensures Clustered(m, Peers(xs, i)) == |NearMedian(xs, i, m)|
  {
    ClusteredPlus(m, xs[..i], xs[i], xs[i + 1..]);
    assert xs == xs[..i] + [xs[i]] + xs[i + 1..] && xs[..|xs|] == xs;
    ClusteredIs(xs, m, |xs|);
    var all := InBandBelow(xs, m, |xs|);
    assert NearMedian(xs, i, m) == all - {i};
  }

  /** An edition is flagged exactly when it has five peers or more, holds less than
      half of their median, and at least three quarters of them lie within a quarter
      of it. */
  lemma FlaggedExactly(xs: seq<nat>, i: nat, m: int)
    requires i < |xs| && (|xs| > 1 ==> TwiceMedian(Peers(xs, i), m))
    ensures Flagged(xs, i) <==>
            && |xs| - 1 >= 5 && m > 0 && 4 * xs[i] < m
            && 4 * |NearMedian(xs, i, m)| >= 3 * (|xs| - 1)
  {
    hide Median2, TwiceMedian, NearMedian, Clustered, Peers;
    if |xs| > 1 {
      Median2Exactly(Peers(xs, i), m);
      PeersInBand(xs, i, m);
    }
  }

  /** One edition less than half of what five or more others all hold is flagged. */
  lemma LoneCollapseIsFlagged(xs: seq<nat>, i: nat, c: nat)
    requires i < |xs| && |xs| >= 6 && 2 * xs[i] < c && forall j :: 0 <= j < |xs| && j != i ==> xs[j] == c
    ensures Flagged(xs, i)
  {
    var peers := Peers(xs, i);
    assert forall k :: 0 <= k < |peers| ==> peers[k] == c;
    hide Median2, Clustered, Peers, Flagged;
    AllAlike(peers, c);
    Median2Exactly(peers, 2 * c);
    var near := NearMedian(xs, i, 2 * c);
    NaturalsCount(|xs|);
    assert near == Naturals(|xs|) - {i};
    FlaggedExactly(xs, i, 2 * c);
  }

  lemma AllAlike(s: seq<int>, c: int)
    requires |s| >= 2 && forall k :: 0 <= k < |s| ==> s[k] == c
    ensures TwiceMedian(s, 2 * c)
  {
    NoneBeyond(s, c);
    assert s[0] == c && Ranked(s, |s| / 2, c) && MiddlePair(s, c, c);
  }

  lemma {:induction false} NoneBeyond(s: seq<int>, c: int)
    requires forall k :: 0 <= k < |s| ==> s[k] == c
    ensures CountLess(s, c) == 0 && CountMore(s, c) == 0
  {
    if s != [] {
      NoneBeyond(s[..|s| - 1], c);
    }
  }

  lemma {:induction false} NaturalsCount(n: nat)
    ensures |Naturals(n)| == n
  {
    if n > 0 {
      NaturalsCount(n - 1);
    }
  }

  /** The report lists the flagged editions, each with its own peers' figures. */
  lemma {:induction false} FlaggedAreListed(group: nat, xs: seq<nat>, n: nat, o: Outlier)
    requires n <= |xs|
    ensures o in FlaggedIn(group, xs, n) <==>
            && o.group == group && o.edition < n && Flagged(xs, o.edition)
            && TwiceMedian(Peers(xs, o.edition), o.median2)
            && o.clustered == |NearMedian(xs, o.edition, o.median2)| && o.peers == |xs| - 1
  {
    hide Median2, TwiceMedian, NearMedian, Clustered, Peers;
    if n > 0 {
      FlaggedAreListed(group, xs, n - 1, o);
      if Flagged(xs, n - 1) {
        Median2Exactly(Peers(xs, n - 1), o.median2);
        PeersInBand(xs, n - 1, o.median2);
      }
    }
  }

  lemma {:induction false} AllAreListed(groups: seq<seq<nat>>, n: nat, o: Outlier)
    requires n <= |groups|
    ensures o in AllFlagged(groups, n) <==>
            o.group < n && o in FlaggedIn(o.group, groups[o.group], |groups[o.group]|)
  {
    hide FlaggedIn;
    if n > 0 {
      AllAreListed(groups, n - 1, o);
      var xs := groups[n - 1];
      if o in FlaggedIn(n - 1, xs, |xs|) {
        FlaggedAreListed(n - 1, xs, |xs|, o);
      }
    }
  }
}

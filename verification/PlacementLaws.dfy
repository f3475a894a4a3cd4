/** Which line each pass gives each entry, said of the body and the contents alone. */
module PlacementLaws {
  import opened Common
  import opened Placement

  // ----- what a line opens -----------------------------------------------------

  ghost predicate OwnCode(line: Line, code: string) {
    line.dotCode == Some(code) || (line.dotCode.None? && line.dotlessCode == Some(code))
  }

  /** Line `p` opens the code, or the line under it does for the bracket it closes. */
  ghost predicate OpensCode(body: seq<Line>, p: nat, code: string) {
    p < |body|
    && (OwnCode(body[p], code)
        || (p + 1 < |body| && body[p + 1].dotCode.None? && body[p + 1].dotlessCode.None?
            && body[p + 1].page == body[p].page && body[p + 1].splitCode == Some(code)))
  }

  ghost predicate OpenedBy(body: seq<Line>, i: nat, p: nat, code: string) {
    i < |body|
    && (if p == i then OwnCode(body[i], code)
        else p + 1 == i && body[i].dotCode.None? && body[i].dotlessCode.None?
             && body[i].page == body[p].page && body[i].splitCode == Some(code))
  }

  lemma OpeningIs(body: seq<Line>, i: nat, p: nat, code: string)
    requires i < |body|
    ensures Opening(body, i) == Some((code, p)) <==> OpenedBy(body, i, p, code)
  {
  }

  lemma {:induction false} PositionsUpToAre(body: seq<Line>, code: string, n: nat, p: nat)
    requires n <= |body|
    ensures p in PositionsUpTo(body, code, n) <==> exists i :: 0 <= i < n && OpenedBy(body, i, p, code)
  {
    hide Opening, OpenedBy;
    if n > 0 {
      PositionsUpToAre(body, code, n - 1, p);
      OpeningIs(body, n - 1, p, code);
      if Opening(body, n - 1).Some? {
        OpeningIs(body, n - 1, Opening(body, n - 1).value.1, Opening(body, n - 1).value.0);
      }
    }
  }

  /** The index lists exactly the lines that open the code. */
  lemma OpensExactly(body: seq<Line>, code: string, p: nat)
    ensures p in Positions(body, code) <==> OpensCode(body, p, code)
  {
    PositionsUpToAre(body, code, |body|, p);
    if OpensCode(body, p, code) {
      assert OpenedBy(body, p, p, code) || OpenedBy(body, p + 1, p, code);
    }
  }

  // ----- the drift -------------------------------------------------------------

  /** Half of `twice`, cut towards zero. */
  ghost predicate IsHalf(twice: int, m: int) {
    Abs(2 * m) <= Abs(twice) <= Abs(2 * m) + 1 && (m > 0 ==> twice > 0) && (m < 0 ==> twice < 0)
  }

  /** The middle of the list by size; of two middles the half sum, cut towards zero. */
  ghost predicate IsMedian(s: seq<int>, m: int) {
    if |s| % 2 == 1 then Ranked(s, |s| / 2, m)
    else exists a, b :: MiddlePair(s, a, b) && IsHalf(a + b, m)
  }

  ghost predicate IsDrift(window: seq<int>, m: int) {
    if |window| < 3 then m == 0 else IsMedian(window, m)
  }

  lemma MedianIsUnique(s: seq<int>, m: int, n: int)
    requires IsMedian(s, m) && IsMedian(s, n)
    ensures m == n
  {
    hide Ranked;
    if |s| % 2 == 1 {
      RankIsUnique(s, |s| / 2, m, n);
    } else {
      var a, b :| MiddlePair(s, a, b) && IsHalf(a + b, m);
      var x, y :| MiddlePair(s, x, y) && IsHalf(x + y, n);
      RankIsUnique(s, |s| / 2 - 1, a, x);
      RankIsUnique(s, |s| / 2, b, y);
    }
  }

  /** From three placements on the drift is the median of the window. */
  lemma DriftIsMedian(window: seq<int>, m: int)
    ensures IsDrift(window, m) <==> m == Drift(window)
  {
    hide Ranked, SortInts;
    if |window| >= 3 {
      var s, h := SortInts(window), |window| / 2;
      SortRanks(window, h);
      SortRanks(window, h - 1);
      if |window| % 2 == 0 {
        HalfIsHalf(s[h - 1] + s[h]);
        assert MiddlePair(window, s[h - 1], s[h]);
      }
      assert IsMedian(window, Drift(window));
      if IsMedian(window, m) {
        MedianIsUnique(window, m, Drift(window));
      }
    }
  }

  lemma HalfIsHalf(twice: int)
    ensures IsHalf(twice, if twice >= 0 then twice / 2 else -((-twice) / 2))
  {
  }

  // ----- where an entry is due -------------------------------------------------

  /** The page that prints the entry's page number, else the number plus the offset. */
  function Due(d: Doc, e: Entry): int {
    if e.printedPage in d.pageOfPrinted then d.pageOfPrinted[e.printedPage] else e.printedPage + d.pageOffset
  }

  // ----- pass 1, one entry -----------------------------------------------------

  /** The next entry that has a page. */
  ghost predicate NextWithPage(d: Doc, k: nat, j: nat) {
    k < j < |d.entries| && d.entries[j].printedPage != 0 && forall i :: k < i < j ==> d.entries[i].printedPage == 0
  }

  ghost predicate Candidate(d: Doc, k: nat, last: int, p: nat)
    requires k < |d.entries|
  {
    OpensCode(d.body, p, d.entries[k].code) && p > last
  }

  /** Some line behind `p` opens the code. */
  ghost predicate OpensBehind(d: Doc, p: nat, code: string) {
    exists q: nat :: q > p && OpensCode(d.body, q, code)
  }

  /** A candidate that leaves the next entry a line, where any candidate does. */
  ghost predicate Eligible(d: Doc, k: nat, last: int, p: nat)
    requires k < |d.entries|
  {
    && Candidate(d, k, last, p)
    && forall j: nat :: NextWithPage(d, k, j) ==>
         || OpensBehind(d, p, d.entries[j].code)
         || forall q :: Candidate(d, k, last, q) ==> !OpensBehind(d, q, d.entries[j].code)
  }

  /** No nearer to the page, and not as near and earlier. */
  ghost predicate NoCloser(d: Doc, expected: int, q: nat, p: nat)
    requires p < |d.body| && q < |d.body|
  {
    var there, here := Abs(d.body[q].page - expected), Abs(d.body[p].page - expected);
    there > here || (there == here && q >= p)
  }

  /** The line pass 1 is to give entry `k` behind the cursor `last` under a drift. */
  ghost predicate TakenByPage(d: Doc, k: nat, last: int, drift: int, p: nat)
    requires k < |d.entries|
  {
    var e := Due(d, d.entries[k]) + drift;
    && Eligible(d, k, last, p) && Abs(d.body[p].page - e) <= 8
    && (forall q: nat :: Eligible(d, k, last, q) ==> NoCloser(d, e, q, p))
    && (forall j: nat :: NextWithPage(d, k, j) ==> d.body[p].page <= Due(d, d.entries[j]) + drift + 8)
    && (forall j :: k < j < |d.entries| && d.entries[j].code == d.entries[k].code ==>
          Abs(d.body[p].page - (Due(d, d.entries[j]) + drift)) >= Abs(d.body[p].page - e))
  }

  lemma {:induction false} NextPagedIs(d: Doc, k: nat, n: nat)
    requires k < n && forall i :: k < i < n && i < |d.entries| ==> d.entries[i].printedPage == 0
    ensures NextPaged(d, n).None? ==> forall j :: !NextWithPage(d, k, j)
    ensures NextPaged(d, n).Some? ==>
              exists j: nat :: NextWithPage(d, k, j) && j < |d.entries| && NextPaged(d, n).value == d.entries[j]
    decreases |d.entries| - n
  {
    if n < |d.entries| {
      if d.entries[n].printedPage != 0 {
        assert NextWithPage(d, k, n);
      } else {
        NextPagedIs(d, k, n + 1);
      }
    }
  }

  lemma OneNext(d: Doc, k: nat, i: nat, j: nat)
    requires NextWithPage(d, k, i) && NextWithPage(d, k, j)
    ensures i == j
  {
  }

  lemma ViableIs(d: Doc, positions: seq<nat>, next: Entry, p: nat)
    requires forall q :: q in positions ==> q < |d.body|
    ensures p in Viable(d, positions, Some(next)) <==>
              p in positions
              && (OpensBehind(d, p, next.code) || forall q :: q in positions ==> !OpensBehind(d, q, next.code))
  {
    hide OpensCode, Positions;
    forall q: nat
      ensures q in Positions(d.body, next.code) <==> OpensCode(d.body, q, next.code)
    {
      OpensExactly(d.body, next.code, q);
    }
    var after := Positions(d.body, next.code);
    assert forall q: nat :: (exists x | x in after :: x > q) <==> OpensBehind(d, q, next.code);
    var viable := Filter(positions, (q: nat) => exists x | x in after :: x > q);
    if viable != [] {
      assert viable[0] in viable;
    } else {
      assert forall q :: q in positions ==> q !in viable;
    }
    if |positions| == 1 {
      assert forall q :: q in positions ==> q == positions[0];
    }
  }

  lemma OpeningsAre(d: Doc, k: nat, last: int, p: nat)
    requires k < |d.entries|
    ensures p in Openings(d, k, last) <==> Eligible(d, k, last, p)
  {
    hide OpensCode, Positions, OpensBehind, NextWithPage, Viable;
    var code := d.entries[k].code;
    var positions := Filter(Positions(d.body, code), (q: nat) => q > last);
    forall q: nat
      ensures q in positions <==> Candidate(d, k, last, q)
    {
      OpensExactly(d.body, code, q);
    }
    var next := NextPaged(d, k + 1);
    NextPagedIs(d, k, k + 1);
    if next.Some? {
      var j: nat :| NextWithPage(d, k, j) && j < |d.entries| && next.value == d.entries[j];
      forall i: nat | NextWithPage(d, k, i)
        ensures i == j
      {
        OneNext(d, k, i, j);
      }
      ViableIs(d, positions, next.value, p);
    } else {
      NoNext(d, positions);
    }
  }

  lemma NoNext(d: Doc, positions: seq<nat>)
    ensures Viable(d, positions, None) == positions
  {
  }

  lemma OvershootsIs(d: Doc, k: nat, drift: int, page: int)
    ensures Overshoots(d, k, drift, page)
        <==> exists j: nat :: NextWithPage(d, k, j) && page > Due(d, d.entries[j]) + drift + 8
  {
    hide NextWithPage;
    NextPagedIs(d, k, k + 1);
    if NextPaged(d, k + 1).Some? {
      var j: nat :| NextWithPage(d, k, j) && j < |d.entries| && NextPaged(d, k + 1).value == d.entries[j];
      forall i: nat | NextWithPage(d, k, i)
        ensures i == j
      {
        OneNext(d, k, i, j);
      }
    }
  }

  lemma ClosestIs(d: Doc, expected: int, candidates: seq<nat>, p: nat)
    requires forall q :: q in candidates ==> q < |d.body|
    ensures IsClosest(d, expected, candidates, p)
        <==> p in candidates && forall q :: q in candidates ==> NoCloser(d, expected, q, p)
  {
  }

  /** Exactly which line pass 1 gives an entry, whatever number is the drift of the
      window: its anchor behind the cursor, no line for a lost one, and else the line
      its page and code pick out. */
  lemma AnchoredExactly(d: Doc, k: nat, last: int, window: seq<int>, drift: int, p: nat)
    requires d.Valid() && k < |d.entries| && IsDrift(window, drift)
    ensures Anchored(d, k, last, window) == Some(p) <==>
            match d.entries[k].anchor
            case At(line) => p == line && line > last
            case Lost => false
            case NoAnchor => TakenByPage(d, k, last, drift, p)
  {
    DriftIsMedian(window, drift);
    if d.entries[k].anchor.NoAnchor? {
      hide Drift, Anchored, Overshoots, Openings, Eligible, NextWithPage, IsDrift, IsClosest, Distance, Suits;
      Placement.SuitsExactly(d, k, last, window, p);
      forall q: nat
        ensures q in Openings(d, k, last) <==> Eligible(d, k, last, q)
      {
        OpeningsAre(d, k, last, q);
      }
      SuitsIs(d, k, last, drift, p);
    }
  }

  lemma SuitsIs(d: Doc, k: nat, last: int, drift: int, p: nat)
    requires k < |d.entries| && forall q: nat :: q in Openings(d, k, last) <==> Eligible(d, k, last, q)
    ensures (p < |d.body| && Suits(d, k, last, drift, p)) <==> TakenByPage(d, k, last, drift, p)
  {
    hide Overshoots, Openings, Eligible, NextWithPage, IsClosest;
    assert p in Openings(d, k, last) ==> p < |d.body|;
    if p < |d.body| {
      ClosestIs(d, Due(d, d.entries[k]) + drift, Openings(d, k, last), p);
      OvershootsIs(d, k, drift, d.body[p].page);
    }
  }

  // ----- pass 1, the run -------------------------------------------------------

  /** The last start given to an entry before `k`, -1 where none has one. */
  ghost predicate IsCursor(m: Matched, k: nat, last: int) {
    && -1 <= last && (forall j :: j in m && j < k ==> m[j] <= last)
    && (last >= 0 ==> exists j :: j in m && j < k && m[j] == last)
  }

  /** Page less expected page of the entries before `k` placed without an anchor. */
  ghost function Differences(d: Doc, m: Matched, k: nat): seq<int>
    requires k <= |d.entries|
  {
    if k == 0 then []
    else
      var before := Differences(d, m, k - 1);
      if k - 1 in m && m[k - 1] < |d.body| && d.entries[k - 1].anchor.NoAnchor? then
        before + [d.body[m[k - 1]].page - Due(d, d.entries[k - 1])]
      else before
  }

  /** `tail` is the last five of `all`, or all of it. */
  ghost predicate IsTail(tail: seq<int>, all: seq<int>) {
    && |tail| == Min(5, |all|) && forall i :: 0 <= i < |tail| ==> tail[i] == all[|all| - |tail| + i]
  }

  /** The entries before `k` alone. */
  ghost function Before(m: Matched, k: nat): Matched { map j | j in m && j < k :: m[j] }

  lemma {:induction false} SameDifferences(d: Doc, m: Matched, n: Matched, k: nat)
    requires k <= |d.entries| && Before(m, k) == Before(n, k)
    ensures Differences(d, m, k) == Differences(d, n, k)
  {
    if k > 0 {
      forall j
        ensures j < k ==> (j in m <==> j in n) && (j in m ==> m[j] == n[j])
      {
        assert j in Before(m, k) <==> j in Before(n, k);
        assert j in Before(m, k) ==> Before(m, k)[j] == Before(n, k)[j];
      }
      assert Before(m, k - 1) == Before(n, k - 1);
      SameDifferences(d, m, n, k - 1);
    }
  }

  /** What the cursor and the window hold after the first `n` entries. */
  lemma {:induction false} CursorIs(d: Doc, n: nat)
    requires d.Valid() && n <= |d.entries|
    ensures var c := PrimaryPass(d, n);
            IsCursor(c.matched, n, c.last) && IsTail(c.window, Differences(d, c.matched, n))
  {
    hide Anchored, IsCursor, IsTail, Differences, LastFive;
    if n == 0 {
      NothingYet(d);
    } else {
      CursorIs(d, n - 1);
      PrimaryInOrder(d, n - 1);
      var c := PrimaryPass(d, n - 1);
      var r := Anchored(d, n - 1, c.last, c.window);
      if r.Some? {
        OneMorePlaced(d, c, n, r.value);
      } else {
        NoneMorePlaced(d, c, n);
      }
    }
  }

  lemma NothingYet(d: Doc)
    ensures IsCursor(map[], 0, -1) && IsTail([], Differences(d, map[], 0))
  {
  }

  lemma StillBefore(m: Matched, n: nat, v: nat)
    requires n > 0 && forall j :: j in m ==> j < n - 1
    ensures Before(m[n - 1 := v], n - 1) == Before(m, n - 1)
  {
  }

  lemma CursorMoves(m: Matched, n: nat, last: int, p: nat)
    requires n > 0 && IsCursor(m, n - 1, last) && last < p && forall j :: j in m ==> j < n - 1
    ensures IsCursor(m[n - 1 := p], n, p)
  {
    assert n - 1 in m[n - 1 := p];
  }

  lemma OneMorePlaced(d: Doc, c: Cursor, n: nat, p: nat)
    requires 0 < n <= |d.entries| && c.last < p < |d.body| && (forall j :: j in c.matched ==> j < n - 1)
    requires IsCursor(c.matched, n - 1, c.last) && IsTail(c.window, Differences(d, c.matched, n - 1))
    ensures var m := c.matched[n - 1 := p];
            var diff := d.body[p].page - Due(d, d.entries[n - 1]);
            && IsCursor(m, n, p)
            && IsTail(if d.entries[n - 1].anchor.NoAnchor? then LastFive(c.window + [diff]) else c.window,
                      Differences(d, m, n))
  {
    hide Differences, IsTail, IsCursor, Before, LastFive;
    var m := c.matched[n - 1 := p];
    CursorMoves(c.matched, n, c.last, p);
    StillBefore(c.matched, n, p);
    SameDifferences(d, m, c.matched, n - 1);
    TailGrows(c.window, Differences(d, c.matched, n - 1), d.body[p].page - Due(d, d.entries[n - 1]));
    LastDifference(d, m, n);
  }

  lemma LastDifference(d: Doc, m: Matched, n: nat)
    requires 0 < n <= |d.entries|
    ensures Differences(d, m, n) ==
            if n - 1 in m && m[n - 1] < |d.body| && d.entries[n - 1].anchor.NoAnchor? then
              Differences(d, m, n - 1) + [d.body[m[n - 1]].page - Due(d, d.entries[n - 1])]
            else Differences(d, m, n - 1)
  {
  }

  lemma TailGrows(tail: seq<int>, all: seq<int>, x: int)
    requires IsTail(tail, all)
    ensures IsTail(LastFive(tail + [x]), all + [x])
  {
  }

  lemma NoneMorePlaced(d: Doc, c: Cursor, n: nat)
    requires 0 < n <= |d.entries| && (forall j :: j in c.matched ==> j < n - 1)
    requires IsCursor(c.matched, n - 1, c.last) && IsTail(c.window, Differences(d, c.matched, n - 1))
    ensures IsCursor(c.matched, n, c.last) && IsTail(c.window, Differences(d, c.matched, n))
  {
    LastDifference(d, c.matched, n);
    hide Differences, IsTail;
  }

  lemma {:induction false} PrimaryBefore(d: Doc, k: nat, n: nat)
    requires d.Valid() && k <= n <= |d.entries|
    ensures Before(PrimaryPass(d, n).matched, k) == PrimaryPass(d, k).matched
  {
    hide Anchored;
    PrimaryInOrder(d, n);
    if k < n {
      PrimaryBefore(d, k, n - 1);
      PrimaryInOrder(d, n - 1);
    }
  }

  lemma OneCursor(m: Matched, k: nat, x: int, y: int)
    requires IsCursor(m, k, x) && IsCursor(m, k, y)
    ensures x == y
  {
  }

  lemma OneTail(x: seq<int>, y: seq<int>, all: seq<int>)
    requires IsTail(x, all) && IsTail(y, all)
    ensures x == y
  {
  }

  /** What pass 1 does with entry `k`, said of its outcome `m`: `last` is the start of
      the nearest entry placed before, `window` the last five differences before, and
      `drift` the median of three or more of them. */
  lemma PrimaryExactly(d: Doc, k: nat, last: int, window: seq<int>, drift: int, p: nat)
    requires d.Valid() && k < |d.entries|
    requires var m := PrimaryPass(d, |d.entries|).matched;
             IsCursor(m, k, last) && IsTail(window, Differences(d, m, k)) && IsDrift(window, drift)
    ensures var m := PrimaryPass(d, |d.entries|).matched;
            (k in m && m[k] == p) <==>
              match d.entries[k].anchor
              case At(line) => p == line && line > last
              case Lost => false
              case NoAnchor => TakenByPage(d, k, last, drift, p)
  {
    var n := |d.entries|;
    var m, c := PrimaryPass(d, n).matched, PrimaryPass(d, k);
    AnchoredExactly(d, k, last, window, drift, p);
    CursorIs(d, k);
    PrimaryBefore(d, k, n);
    BeforeAgain(m, k);
    hide Anchored, IsDrift, TakenByPage, IsTail, Differences, IsCursor, Before;
    SameDifferences(d, m, c.matched, k);
    SameCursor(m, c.matched, k, last);
    OneCursor(c.matched, k, last, c.last);
    OneTail(window, c.window, Differences(d, m, k));
    PlacedAtTurn(d, k);
  }

  lemma BeforeAgain(m: Matched, k: nat)
    ensures Before(Before(m, k), k) == Before(m, k)
  {
  }

  /** An entry is placed when its turn comes, or not at all. */
  lemma PlacedAtTurn(d: Doc, k: nat)
    requires d.Valid() && k < |d.entries|
    ensures var m, c := PrimaryPass(d, |d.entries|).matched, PrimaryPass(d, k);
            var r := Anchored(d, k, c.last, c.window);
            (k in m <==> r.Some?) && (k in m ==> m[k] == r.value)
  {
    hide Anchored;
    var m := PrimaryPass(d, |d.entries|).matched;
    PrimaryBefore(d, k + 1, |d.entries|);
    PrimaryInOrder(d, k);
    assert k in m <==> k in Before(m, k + 1);
    assert k in m ==> m[k] == Before(m, k + 1)[k];
  }

  lemma SameCursor(m: Matched, n: Matched, k: nat, last: int)
    requires Before(m, k) == Before(n, k) && IsCursor(m, k, last)
    ensures IsCursor(n, k, last)
  {
    forall j
      ensures j < k ==> (j in m <==> j in n) && (j in m ==> m[j] == n[j])
    {
      assert j in Before(m, k) <==> j in Before(n, k);
      assert j in Before(m, k) ==> Before(m, k)[j] == Before(n, k)[j];
    }
  }

  // ----- passes 2 and 3 --------------------------------------------------------

  /** Behind every entry placed before `k` and ahead of every one placed after it. */
  ghost predicate Between(m: Matched, k: nat, p: int) {
    forall j :: j in m ==> (j < k ==> m[j] < p) && (k < j ==> p < m[j])
  }

  lemma {:induction false} BelowIs(d: Doc, m: Matched, k: nat, p: int)
    requires InOrder(d, m) && p >= 0
    ensures Below(m, k) < p <==> forall j :: j in m && j < k ==> m[j] < p
  {
    BelowBounds(d, m, k);
  }

  lemma AboveIs(d: Doc, m: Matched, k: nat, p: int)
    requires InOrder(d, m) && p < |d.body|
    ensures p < Above(d, m, k) <==> forall j :: j in m && k < j ==> p < m[j]
  {
    AboveBounds(d, m, k);
  }

  lemma BetweenIs(d: Doc, m: Matched, k: nat, p: nat)
    requires InOrder(d, m) && p < |d.body|
    ensures Below(m, k) < p < Above(d, m, k) <==> Between(m, k, p)
  {
    hide Below, Above;
    BelowIs(d, m, k, p);
    AboveIs(d, m, k, p);
  }

  /** The line a gap fill is to give entry `k`, the others standing as in `m`. */
  ghost predicate TakenInGap(d: Doc, m: Matched, k: nat, p: nat)
    requires k < |d.entries|
  {
    var code, e := d.entries[k].code, Due(d, d.entries[k]);
    && OpensCode(d.body, p, code) && Between(m, k, p)
    && forall q: nat :: OpensCode(d.body, q, code) && Between(m, k, q) ==> NoCloser(d, e, q, p)
  }

  lemma ClosestExactly(d: Doc, expected: int, candidates: seq<nat>, p: nat)
    requires forall q :: q in candidates ==> q < |d.body|
    ensures Closest(d, expected, candidates) == Some(p)
        <==> p in candidates && forall q :: q in candidates ==> NoCloser(d, expected, q, p)
  {
    hide Closest, IsClosest;
    ClosestIs(d, expected, candidates, p);
    var r := Closest(d, expected, candidates);
    if r.Some? && IsClosest(d, expected, candidates, p) {
      OneClosest(d, expected, candidates, p, r.value);
    }
    if r.None? {
      assert p !in candidates;
    }
  }

  lemma GapChoiceExactly(d: Doc, m: Matched, k: nat, p: nat)
    requires k < |d.entries| && InOrder(d, m) && k !in m
    ensures GapChoice(d, m, k) == Some(p) <==> TakenInGap(d, m, k, p)
  {
    hide Below, Above, Closest, OpensCode, Positions, NoCloser;
    var code := d.entries[k].code;
    var cands := GapCandidates(d, m, k);
    forall q: nat
      ensures q in cands <==> OpensCode(d.body, q, code) && Between(m, k, q)
    {
      OpensExactly(d.body, code, q);
      CodeIsInside(d.body, q, code);
      if q < |d.body| {
        BetweenIs(d, m, k, q);
        if Between(m, k, q) {
          GapKeepsOrder(d, m, k, q);
        }
      }
    }
    hide Between, GapCandidates;
    ClosestExactly(d, Due(d, d.entries[k]), cands, p);
  }

  lemma CodeIsInside(body: seq<Line>, p: nat, code: string)
    ensures OpensCode(body, p, code) ==> p < |body|
  {
  }

  /** What stood when a pass came to entry `k`: the entries it was given and those it
      placed before. */
  ghost function Standing(given: Matched, m: Matched, k: nat): Matched {
    map j | j in m && (j < k || j in given) :: m[j]
  }

  lemma StandingSame(given: Matched, m: Matched, k: nat, j: nat, v: nat)
    requires j !in given && j >= k && j !in m
    ensures Standing(given, m[j := v], k) == Standing(given, m, k)
  {
  }

  lemma StandingAll(given: Matched, m: Matched, k: nat)
    requires forall j :: j in m ==> j in given || j < k
    ensures Standing(given, m, k) == m
  {
  }

  lemma {:induction false} GapFillBelow(d: Doc, m: Matched, n: nat)
    requires InOrder(d, m) && n <= |d.entries|
    ensures forall j :: j in GapFill(d, m, n) ==> j in m || j < n
    ensures forall j :: j in m ==> j in GapFill(d, m, n)
  {
    hide GapChoice, InOrder;
    if n > 0 {
      GapFillBelow(d, m, n - 1);
    }
  }

  lemma {:induction false} GapFillStanding(d: Doc, m: Matched, k: nat, n: nat)
    requires InOrder(d, m) && k <= n <= |d.entries|
    ensures Standing(m, GapFill(d, m, n), k) == GapFill(d, m, k)
    decreases n
  {
    hide GapChoice, Standing, InOrder, Below, Above, Positions, GapCandidates;
    if k < n {
      GapFillStanding(d, m, k, n - 1);
      GapFillBelow(d, m, n - 1);
      var f := GapFill(d, m, n - 1);
      if n - 1 !in f && GapChoice(d, f, n - 1).Some? {
        StandingSame(m, f, k, n - 1, GapChoice(d, f, n - 1).value);
      }
    } else {
      GapFillBelow(d, m, n);
      StandingAll(m, GapFill(d, m, n), k);
    }
  }

  lemma StandingAt(given: Matched, m: Matched, k: nat)
    ensures k in Standing(given, m, k + 1) <==> k in m
    ensures k in m ==> Standing(given, m, k + 1)[k] == m[k]
  {
  }

  /** What pass 2 does with an entry it is given unplaced, said of its outcome. */
  lemma GapFillExactly(d: Doc, m: Matched, k: nat, p: nat)
    requires InOrder(d, m) && k < |d.entries| && k !in m
    ensures var f := GapFill(d, m, |d.entries|);
            (k in f && f[k] == p) <==> TakenInGap(d, Standing(m, f, k), k, p)
  {
    hide GapChoice, TakenInGap, Standing, InOrder, Below, Above, Positions, GapCandidates;
    var n := |d.entries|;
    GapFillStanding(d, m, k, n);
    GapFillStanding(d, m, k + 1, n);
    GapFillInOrder(d, m, k);
    GapFillBelow(d, m, k);
    GapChoiceExactly(d, GapFill(d, m, k), k, p);
    StandingAt(m, GapFill(d, m, n), k);
  }

  /** The title and the line agree in their first six words, or in all of the shorter
      one's, at least four, but for at most one. */
  ghost predicate SameTitle(want: seq<string>, got: seq<string>) {
    var n := Min(Min(|want|, |got|), 6);
    n >= 4 && exists x: nat :: AgreeBut(want, got, n, x)
  }

  ghost predicate AgreeBut(want: seq<string>, got: seq<string>, n: nat, x: nat)
    requires n <= |want| && n <= |got|
  {
    forall i :: 0 <= i < n && i != x ==> want[i] == got[i]
  }

  lemma {:induction false} MismatchesAre(want: seq<string>, got: seq<string>, n: nat)
    requires n <= |want| && n <= |got|
    ensures Mismatches(want, got, n) == 0 <==> AgreeBut(want, got, n, n)
    ensures Mismatches(want, got, n) <= 1 <==> exists x: nat :: AgreeBut(want, got, n, x)
  {
    if n == 0 {
      assert AgreeBut(want, got, 0, 0);
    } else {
      MismatchesAre(want, got, n - 1);
      AgreementGrows(want, got, n, n);
      AgreementGrows(want, got, n, n - 1);
      if x: nat :| AgreeBut(want, got, n, x) {
        AgreementGrows(want, got, n, x);
      }
      var less := n - 1;
      if x: nat :| AgreeBut(want, got, less, x) {
        AgreementGrows(want, got, n, x);
      }
      assert AgreeBut(want, got, n - 1, n) <==> AgreeBut(want, got, n - 1, n - 1);
    }
  }

  lemma AgreementGrows(want: seq<string>, got: seq<string>, n: nat, x: nat)
    requires 0 < n <= |want| && n <= |got|
    ensures AgreeBut(want, got, n, x) <==> AgreeBut(want, got, n - 1, x) && (want[n - 1] == got[n - 1] || x == n - 1)
    ensures AgreeBut(want, got, n, n - 1) <==> AgreeBut(want, got, n - 1, n - 1)
  {
  }

  /** The line pass 3 is to give entry `k`, the others standing as in `m`. */
  ghost predicate PrintsTitle(d: Doc, m: Matched, k: nat, p: nat)
    requires k < |d.entries|
  {
    && p < |d.body| && Between(m, k, p)
    && !d.body[p].isTable && d.body[p].headingDash && d.body[p].bold
    && (forall code :: !OwnCode(d.body[p], code))
    && Abs(d.body[p].page - Due(d, d.entries[k])) <= 2
    && SameTitle(d.entries[k].stems, d.body[p].stems)
  }

  ghost predicate TakenByTitle(d: Doc, m: Matched, k: nat, p: nat)
    requires k < |d.entries|
  {
    && (forall q: nat :: !OpensCode(d.body, q, d.entries[k].code)) && |d.entries[k].stems| >= 3
    && PrintsTitle(d, m, k, p)
    && forall q: nat :: PrintsTitle(d, m, k, q) ==> NoCloser(d, Due(d, d.entries[k]), q, p)
  }

  lemma TitleLineIs(d: Doc, k: nat, p: nat)
    requires k < |d.entries| && p < |d.body|
    ensures TitleLine(d, k, p) <==>
              && !d.body[p].isTable && d.body[p].headingDash && d.body[p].bold
              && (forall code :: !OwnCode(d.body[p], code)) && SameTitle(d.entries[k].stems, d.body[p].stems)
  {
    var line, want := d.body[p], d.entries[k].stems;
    var n := Min(Min(|want|, |line.stems|), 6);
    MismatchesAre(want, line.stems, n);
    hide Mismatches, AgreeBut;
    if line.dotCode.Some? {
      assert OwnCode(line, line.dotCode.value);
    } else if line.dotlessCode.Some? {
      assert OwnCode(line, line.dotlessCode.value);
    }
  }

  lemma TitleCandidatesAre(d: Doc, m: Matched, k: nat, p: nat)
    requires k < |d.entries| && InOrder(d, m) && k !in m && Ascending(Pages(d.body))
    ensures p in TitleCandidates(d, m, k) <==> PrintsTitle(d, m, k, p)
  {
    hide TitleLine, Below, Above, PageWindow, SameTitle, Ascending, OwnCode;
    if p < |d.body| {
      TitleLineIs(d, k, p);
      BetweenIs(d, m, k, p);
      PageWindowIsPageFilter(d.body, Due(d, d.entries[k]), p);
      if Below(m, k) < p < Above(d, m, k) {
        GapKeepsOrder(d, m, k, p);
      }
    }
  }

  lemma TitleChoiceExactly(d: Doc, m: Matched, k: nat, p: nat)
    requires k < |d.entries| && InOrder(d, m) && k !in m && Ascending(Pages(d.body))
    ensures TitleChoice(d, m, k) == Some(p) <==> TakenByTitle(d, m, k, p)
  {
    hide Closest, OpensCode, Positions, NoCloser, TitleCandidates, PrintsTitle, Ascending, Below, Above;
    var code := d.entries[k].code;
    forall q: nat
      ensures q in Positions(d.body, code) <==> OpensCode(d.body, q, code)
    {
      OpensExactly(d.body, code, q);
    }
    assert Positions(d.body, code) != [] ==> Positions(d.body, code)[0] in Positions(d.body, code);
    forall q: nat
      ensures q in TitleCandidates(d, m, k) <==> PrintsTitle(d, m, k, q)
    {
      TitleCandidatesAre(d, m, k, q);
    }
    TitleInside(d, m, k);
    ClosestExactly(d, Due(d, d.entries[k]), TitleCandidates(d, m, k), p);
  }

  lemma TitleInside(d: Doc, m: Matched, k: nat)
    requires k < |d.entries|
    ensures forall q :: q in TitleCandidates(d, m, k) ==> q < |d.body|
  {
  }

  lemma {:induction false} TitleFillBelow(d: Doc, m: Matched, n: nat)
    requires InOrder(d, m) && n <= |d.entries|
    ensures forall j :: j in TitleFill(d, m, n) ==> j in m || j < n
    ensures forall j :: j in m ==> j in TitleFill(d, m, n)
  {
    hide TitleChoice, InOrder;
    if n > 0 {
      TitleFillBelow(d, m, n - 1);
    }
  }

  lemma {:induction false} TitleFillStanding(d: Doc, m: Matched, k: nat, n: nat)
    requires InOrder(d, m) && k <= n <= |d.entries|
    ensures Standing(m, TitleFill(d, m, n), k) == TitleFill(d, m, k)
    decreases n
  {
    hide TitleChoice, Standing, InOrder, Below, Above, Positions, TitleLine;
    if k < n {
      TitleFillStanding(d, m, k, n - 1);
      TitleFillBelow(d, m, n - 1);
      var f := TitleFill(d, m, n - 1);
      if n - 1 !in f && TitleChoice(d, f, n - 1).Some? {
        StandingSame(m, f, k, n - 1, TitleChoice(d, f, n - 1).value);
      }
    } else {
      TitleFillBelow(d, m, n);
      StandingAll(m, TitleFill(d, m, n), k);
    }
  }

  /** What pass 3 does with an entry it is given unplaced, said of its outcome, on a
      body in page order. */
  lemma TitleFillExactly(d: Doc, m: Matched, k: nat, p: nat)
    requires InOrder(d, m) && k < |d.entries| && k !in m && Ascending(Pages(d.body))
    ensures var f := TitleFill(d, m, |d.entries|);
            (k in f && f[k] == p) <==> TakenByTitle(d, Standing(m, f, k), k, p)
  {
    hide TitleChoice, TakenByTitle, Standing, InOrder, Ascending;
    var n := |d.entries|;
    TitleFillStanding(d, m, k, n);
    TitleFillStanding(d, m, k + 1, n);
    TitleFillInOrder(d, m, k);
    TitleFillBelow(d, m, k);
    TitleChoiceExactly(d, TitleFill(d, m, k), k, p);
    StandingAt(m, TitleFill(d, m, n), k);
  }
}

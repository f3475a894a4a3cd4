/** From cell boxes to a spanning grid; coordinates are reals. */
module Geometry {
  import opened Common
  import opened Tables

  const EDGE_TOL: real := 3.0

  datatype Box = Box(x0: real, top: real, x1: real, bottom: real)

  // ----- clustering edges ------------------------------------------------------

  ghost predicate AscendingReals(s: seq<real>) {
    forall i, j :: 0 <= i < j < |s| ==> s[i] <= s[j]
  }

  predicate NotRightOf(a: real, b: real) { a <= b }

  function SortReals(s: seq<real>): (r: seq<real>)
    ensures |r| == |s| && multiset(r) == multiset(s)
  {
    Sort(s, NotRightOf)
  }

  lemma SortRealsSorts(s: seq<real>)
    ensures AscendingReals(SortReals(s))
    ensures forall y :: y in SortReals(s) <==> y in s
  {
    SortSorts(s, NotRightOf);
    SortedMembers(s, NotRightOf);
    var r := Sort(s, NotRightOf);
    forall i, j | 0 <= i < j < |r|
      ensures r[i] <= r[j]
    {
      assert NotRightOf(r[i], r[j]);
    }
  }

  function Sum(s: seq<real>): real {
    if s == [] then 0.0 else Sum(s[..|s| - 1]) + s[|s| - 1]
  }

  function Mean(s: seq<real>): real
    requires s != []
  {
    Sum(s) / |s| as real
  }

  lemma {:induction false} SumBounds(s: seq<real>, lo: real, hi: real)
    requires forall i :: 0 <= i < |s| ==> lo <= s[i] <= hi
    ensures lo * |s| as real <= Sum(s) <= hi * |s| as real
  {
    if s != [] {
      SumBounds(s[..|s| - 1], lo, hi);
    }
  }

  lemma ProductPositive(a: real, b: real)
    ensures a > 0.0 && b > 0.0 ==> a * b > 0.0
  {}

  lemma QuotientBounds(sum: real, n: real, lo: real, hi: real)
    requires n > 0.0 && lo * n <= sum <= hi * n
    ensures lo <= sum / n <= hi
  {
    var q := sum / n;
    assert q * n == sum;
    ProductPositive(lo - q, n);
    ProductPositive(q - hi, n);
    assert (lo - q) * n == lo * n - sum && (q - hi) * n == sum - hi * n;
  }

  lemma MeanBounds(s: seq<real>, lo: real, hi: real)
    requires s != [] && forall i :: 0 <= i < |s| ==> lo <= s[i] <= hi
    ensures lo <= Mean(s) <= hi
  {
    SumBounds(s, lo, hi);
    QuotientBounds(Sum(s), |s| as real, lo, hi);
  }

  /** Clusters of an ascending sequence: none empty, every value of one more than
      the tolerance below every value of the next. */
  ghost predicate Separated(groups: seq<seq<real>>) {
    && (forall j :: 0 <= j < |groups| ==> groups[j] != [])
    && (forall j, k, x, y :: 0 <= j < k < |groups| && x in groups[j] && y in groups[k] ==> x + EDGE_TOL < y)
  }

  ghost predicate Grouped(groups: seq<seq<real>>, vals: seq<real>) {
    && (forall x :: x in vals ==> exists j :: 0 <= j < |groups| && x in groups[j])
    && (forall j, x :: 0 <= j < |groups| && x in groups[j] ==> x in vals)
  }

  /** The first `n` sorted values, cut wherever the next lies further than the
      tolerance from the last. */
  function Clusters(sorted: seq<real>, n: nat): (groups: seq<seq<real>>)
    requires n <= |sorted|
    ensures forall j :: 0 <= j < |groups| ==> groups[j] != []
    ensures n > 0 ==> groups != []
  {
    if n == 0 then []
    else
      var before := Clusters(sorted, n - 1);
      if n > 1 && sorted[n - 1] - sorted[n - 2] <= EDGE_TOL then
        before[|before| - 1 := before[|before| - 1] + [sorted[n - 1]]]
      else before + [[sorted[n - 1]]]
  }

  /** `_cluster_edges`, up to the averaging. */
  method Cluster(vals: seq<real>) returns (groups: seq<seq<real>>)
    ensures groups == Clusters(SortReals(vals), |vals|)
    ensures Separated(groups) && Grouped(groups, vals)
  {
    SortRealsSorts(vals);
    var sorted := SortReals(vals);
    groups := [];
    NoGroups();
    hide SortReals, Separated, Grouped;
    for i := 0 to |sorted|
      invariant groups == Clusters(sorted, i)
      invariant Separated(groups) && Grouped(groups, sorted[..i])
      invariant groups == [] <==> i == 0
      invariant groups != [] ==> groups[|groups| - 1][|groups[|groups| - 1]| - 1] == sorted[i - 1]
    {
      var v := sorted[i];
      assert sorted[..i + 1] == sorted[..i] + [v];
      assert forall x :: x in sorted[..i] ==> x <= v;
      if groups != [] && v - sorted[i - 1] <= EDGE_TOL {
        JoinLast(groups, sorted[..i], v);
        groups := groups[|groups| - 1 := groups[|groups| - 1] + [v]];
      } else {
        OpenNew(groups, sorted[..i], v);
        groups := groups + [[v]];
      }
    }
    assert sorted[..|sorted|] == sorted;
    SameMembersGrouped(groups, sorted, vals);
  }

  lemma NoGroups()
    ensures Separated([]) && Grouped([], [])
  {
  }

  lemma SameMembersGrouped(groups: seq<seq<real>>, sorted: seq<real>, vals: seq<real>)
    requires Grouped(groups, sorted) && forall x :: x in sorted <==> x in vals
    ensures Grouped(groups, vals)
  {
  }

  lemma JoinLast(groups: seq<seq<real>>, vals: seq<real>, v: real)
    requires Separated(groups) && Grouped(groups, vals) && groups != []
    requires forall x :: x in vals ==> x <= v
    ensures var n := |groups| - 1;
            var next := groups[n := groups[n] + [v]];
            Separated(next) && Grouped(next, vals + [v])
  {
    var n := |groups| - 1;
    var next := groups[n := groups[n] + [v]];
    forall j, k, x, y | 0 <= j < k < |next| && x in next[j] && y in next[k]
      ensures x + EDGE_TOL < y
    {
      if k == n && y == v {
        assert x in groups[j];
        var z := groups[n][0];
        assert z in groups[n] && z in vals;
      }
    }
    forall x | x in vals + [v]
      ensures exists j :: 0 <= j < |next| && x in next[j]
    {
      if x == v {
        assert v in next[n];
      } else {
        var j :| 0 <= j < |groups| && x in groups[j];
        assert x in next[j];
      }
    }
  }

  lemma OpenNew(groups: seq<seq<real>>, vals: seq<real>, v: real)
    requires Separated(groups) && Grouped(groups, vals)
    requires forall x :: x in vals ==> x + EDGE_TOL < v
    ensures Separated(groups + [[v]]) && Grouped(groups + [[v]], vals + [v])
  {
    var next := groups + [[v]];
    forall j, k, x, y | 0 <= j < k < |next| && x in next[j] && y in next[k]
      ensures x + EDGE_TOL < y
    {
      assert x in groups[j] && x in vals;
      if k < |groups| {
        assert y in groups[k];
      } else {
        assert next[k] == [v];
      }
    }
    forall x | x in vals + [v]
      ensures exists j :: 0 <= j < |next| && x in next[j]
    {
      if x == v {
        assert v in next[|groups|];
      } else {
        var j :| 0 <= j < |groups| && x in groups[j];
        assert x in next[j];
      }
    }
  }

  function Means(groups: seq<seq<real>>): (r: seq<real>)
    requires forall j :: 0 <= j < |groups| ==> groups[j] != []
    ensures |r| == |groups| && forall j :: 0 <= j < |r| ==> r[j] == Mean(groups[j])
  {
    seq(|groups|, j requires 0 <= j < |groups| => Mean(groups[j]))
  }

  /** The first edge within the tolerance of `x`. */
  function EdgeIndex(edges: seq<real>, x: real, from: nat): (r: Option<nat>)
    ensures r.Some? ==> from <= r.value < |edges| && -EDGE_TOL <= x - edges[r.value] <= EDGE_TOL
    ensures r.None? ==> forall i :: from <= i < |edges| ==> !(-EDGE_TOL <= x - edges[i] <= EDGE_TOL)
    decreases |edges| - from
  {
    if from >= |edges| then None
    else if -EDGE_TOL <= x - edges[from] <= EDGE_TOL then Some(from)
    else EdgeIndex(edges, x, from + 1)
  }

  /** Averaging cannot confuse two edges: a coordinate resolves to the edge of its
      own cluster or, when jitter has stretched that cluster, to none. */
  lemma EdgesAreNotConfused(groups: seq<seq<real>>, j: nat, x: real)
    requires Separated(groups) && j < |groups| && x in groups[j]
    ensures EdgeIndex(Means(groups), x, 0) in {None, Some(j)}
    ensures -EDGE_TOL <= x - Mean(groups[j]) <= EDGE_TOL ==> EdgeIndex(Means(groups), x, 0) == Some(j)
  {
    forall i | 0 <= i < |groups| && i != j
      ensures !(-EDGE_TOL <= x - Mean(groups[i]) <= EDGE_TOL)
    {
      MeanOnItsSide(groups, i, j, x);
    }
  }

  lemma MeanOnItsSide(groups: seq<seq<real>>, i: nat, j: nat, x: real)
    requires Separated(groups) && i < |groups| && j < |groups| && i != j && x in groups[j]
    ensures i < j ==> Mean(groups[i]) + EDGE_TOL < x
    ensures j < i ==> x + EDGE_TOL < Mean(groups[i])
  {
    var g := groups[i];
    var lo, hi := Extremes(g);
    assert lo in g && hi in g;
    MeanBounds(g, lo, hi);
  }

  lemma {:induction false} Extremes(s: seq<real>) returns (lo: real, hi: real)
    requires s != []
    ensures lo in s && hi in s && forall i :: 0 <= i < |s| ==> lo <= s[i] <= hi
  {
    var last := s[|s| - 1];
    if |s| == 1 {
      lo, hi := last, last;
    } else {
      var front := s[..|s| - 1];
      lo, hi := Extremes(front);
      assert s == front + [last];
      if last < lo { lo := last; }
      if last > hi { hi := last; }
    }
  }

  // ----- one box's place in the grid -------------------------------------------

  /** Positions in `wit` of the witnessed columns a span [i0, i1) crosses. */
  function Cover(wit: seq<nat>, i0: nat, i1: nat): (r: seq<nat>)
    ensures |r| <= |wit| && forall k :: k in r ==> k < |wit|
  {
    if wit == [] then []
    else
      var last := wit[|wit| - 1];
      var front := Cover(wit[..|wit| - 1], i0, i1);
      if i0 <= last < i1 then front + [|wit| - 1] else front
  }

  /** On ascending columns they are consecutive, so start and colspan say it all. */
  lemma BetweenTwo(wit: seq<nat>, i0: nat, i1: nat, k: nat)
    requires forall i, j :: 0 <= i < j < |wit| ==> wit[i] < wit[j]
    requires k < |wit| - 1 && i0 <= wit[k] && wit[|wit| - 1] < i1
    ensures k + 1 < |wit| - 1 ==> i0 <= wit[..|wit| - 1][k + 1] < i1
  {
  }

  lemma {:induction false} CoverIsConsecutive(wit: seq<nat>, i0: nat, i1: nat)
    requires forall i, j :: 0 <= i < j < |wit| ==> wit[i] < wit[j]
    ensures var r := Cover(wit, i0, i1);
            && (forall k :: 0 <= k < |r| ==> r[k] == r[0] + k)
            && (forall k: nat :: k in r <==> k < |wit| && i0 <= wit[k] < i1)
  {
    if wit != [] {
      CoverIsConsecutive(wit[..|wit| - 1], i0, i1);
      var n, front := |wit| - 1, Cover(wit[..|wit| - 1], i0, i1);
      if i0 <= wit[n] < i1 && front != [] {
        var k := front[|front| - 1];
        assert k in front;
        BetweenTwo(wit, i0, i1, k);
        assert k + 1 < n ==> k + 1 in front;
      }
    }
  }

  lemma CoverRange(wit: seq<nat>, i0: nat, i1: nat)
    requires forall i, j :: 0 <= i < j < |wit| ==> wit[i] < wit[j]
    ensures var r := Cover(wit, i0, i1);
            r != [] ==> r[0] + |r| <= |wit|
                        && forall c: nat :: r[0] <= c < r[0] + |r| <==> c < |wit| && i0 <= wit[c] < i1
  {
    CoverIsConsecutive(wit, i0, i1);
    var r := Cover(wit, i0, i1);
    if r != [] {
      assert r[|r| - 1] in r;
      forall c: nat | r[0] <= c < r[0] + |r|
        ensures c in r
      {
        assert r[c - r[0]] == c;
      }
    }
  }

  function RealDistance(a: real, b: real): (d: real)
    ensures d >= 0.0 && (d == a - b || d == b - a)
  {
    if a >= b then a - b else b - a
  }

  /** Index of the first witnessed column whose left edge is nearest `x`. */
  function Nearest(edges: seq<real>, wit: seq<nat>, x: real): (r: nat)
    requires wit != [] && forall k :: 0 <= k < |wit| ==> wit[k] < |edges|
    ensures r < |wit|
    ensures forall k :: 0 <= k < |wit| ==> RealDistance(edges[wit[r]], x) <= RealDistance(edges[wit[k]], x)
    ensures forall k :: 0 <= k < r ==> RealDistance(edges[wit[r]], x) < RealDistance(edges[wit[k]], x)
  {
    if |wit| == 1 then 0
    else
      var front, last := wit[..|wit| - 1], wit[|wit| - 1];
      assert wit == front + [last];
      var best := Nearest(edges, front, x);
      if RealDistance(edges[last], x) < RealDistance(edges[front[best]], x) then |wit| - 1 else best
  }

  predicate Inside(box: Box, y: real) { box.top < y < box.bottom }

  /** How many kept rows from `k` on have their middle inside the box. */
  function RowsInside(mids: seq<real>, box: Box, k: nat): (n: nat)
    ensures k <= |mids| ==> k + n <= |mids|
    ensures forall i :: k <= i < k + n ==> i < |mids| && box.top < mids[i] < box.bottom
    ensures k + n < |mids| ==> !(box.top < mids[k + n] < box.bottom)
    decreases |mids| - k
  {
    if k < |mids| && Inside(box, mids[k]) then 1 + RowsInside(mids, box, k + 1) else 0
  }

  /** A cell's rectangle and text. */
  datatype Piece = Piece(row: nat, col: nat, colspan: nat, rowspan: nat, text: string)

  predicate Fits(p: Piece, height: nat, width: nat) {
    p.rowspan >= 1 && p.colspan >= 1 && p.row + p.rowspan <= height && p.col + p.colspan <= width
  }

  predicate Spans(p: Piece, r: nat, c: nat) {
    p.row <= r < p.row + p.rowspan && p.col <= c < p.col + p.colspan
  }

  ghost predicate Disjoint(ps: seq<Piece>) {
    forall i, j, r: nat, c: nat :: 0 <= i < j < |ps| && Spans(ps[i], r, c) ==> !Spans(ps[j], r, c)
  }

  // ----- filling the grid ------------------------------------------------------

  ghost predicate Spanned(ps: seq<Piece>, n: nat, r: nat, c: nat)
    requires n <= |ps|
  {
    exists i :: 0 <= i < n && Spans(ps[i], r, c)
  }

  ghost predicate IsCorner(p: Piece, r: nat, c: nat) { p.row == r && p.col == c }

  ghost predicate Cornered(ps: seq<Piece>, n: nat, r: nat, c: nat)
    requires n <= |ps|
  {
    exists i :: 0 <= i < n && IsCorner(ps[i], r, c)
  }

  function CellOf(p: Piece): Cell { Cell(p.text, p.colspan, p.rowspan) }

  /** Position (r, c) after the first `n` pieces. */
  ghost predicate FilledAt(ps: seq<Piece>, n: nat, r: nat, c: nat, out: Option<Cell>, covered: bool)
    requires n <= |ps|
  {
    && (out.Some? <==> Cornered(ps, n, r, c))
    && (forall i :: 0 <= i < n && IsCorner(ps[i], r, c) ==> out == Some(CellOf(ps[i])))
    && (covered <==> Spanned(ps, n, r, c) && !Cornered(ps, n, r, c))
  }

  lemma PlaceOne(ps: seq<Piece>, n: nat, r: nat, c: nat, out: Option<Cell>, covered: bool)
    requires Disjoint(ps) && n < |ps| && ps[n].rowspan >= 1 && ps[n].colspan >= 1
    requires forall i :: 0 <= i < n ==> ps[i].rowspan >= 1 && ps[i].colspan >= 1
    requires FilledAt(ps, n, r, c, out, covered)
    ensures FilledAt(ps, n + 1, r, c, if IsCorner(ps[n], r, c) then Some(CellOf(ps[n])) else out,
                     covered || (Spans(ps[n], r, c) && !IsCorner(ps[n], r, c)))
    ensures IsCorner(ps[n], r, c) ==> !covered
  {
    forall i | 0 <= i < n && IsCorner(ps[i], r, c)
      ensures Spans(ps[i], r, c)
    {}
    assert Cornered(ps, n + 1, r, c) <==> Cornered(ps, n, r, c) || IsCorner(ps[n], r, c);
    assert Spanned(ps, n + 1, r, c) <==> Spanned(ps, n, r, c) || Spans(ps[n], r, c);
  }

  method MarkCovered(covered: array2<bool>, p: Piece)
    requires Fits(p, covered.Length0, covered.Length1)
    modifies covered
    ensures forall r, c :: 0 <= r < covered.Length0 && 0 <= c < covered.Length1 ==>
              covered[r, c] == (old(covered[r, c]) || (Spans(p, r, c) && !IsCorner(p, r, c)))
  {
    for k := p.row to p.row + p.rowspan
      invariant forall r, c :: 0 <= r < covered.Length0 && 0 <= c < covered.Length1 ==>
                  covered[r, c] == (old(covered[r, c]) || (r < k && Spans(p, r, c) && !IsCorner(p, r, c)))
    {
      for w := p.col to p.col + p.colspan
        invariant forall r, c :: 0 <= r < covered.Length0 && 0 <= c < covered.Length1 ==>
                    covered[r, c] == (old(covered[r, c])
                                      || ((r < k || (r == k && c < w)) && Spans(p, r, c) && !IsCorner(p, r, c)))
      {
        if !(k == p.row && w == p.col) {
          covered[k, w] := true;
        }
      }
    }
  }

  /** Whether one of the first `n` pieces that were placed spans (r, c) past its
      corner. */
  ghost predicate CoveredBy(ps: seq<Piece>, n: nat, r: nat, c: nat)
    requires n <= |ps|
    decreases n, 0
  {
    n > 0 && (CoveredBy(ps, n - 1, r, c) || (Accepted(ps, n - 1) && Spans(ps[n - 1], r, c)
        && !IsCorner(ps[n - 1], r, c)))
  }

  /** A piece is placed unless an earlier one covers its corner. */
  ghost predicate Accepted(ps: seq<Piece>, n: nat)
    requires n < |ps|
    decreases n, 1
  {
    !CoveredBy(ps, n, ps[n].row, ps[n].col)
  }

  ghost function SlotBy(ps: seq<Piece>, n: nat, r: nat, c: nat): Option<Cell>
    requires n <= |ps|
  {
    if n == 0 then None
    else if Accepted(ps, n - 1) && IsCorner(ps[n - 1], r, c) then Some(CellOf(ps[n - 1]))
    else SlotBy(ps, n - 1, r, c)
  }

  /** On disjoint pieces none is skipped or overwritten. */
  lemma {:induction false} DisjointAllPlaced(ps: seq<Piece>, n: nat, r: nat, c: nat)
    requires Disjoint(ps) && n <= |ps| && forall i :: 0 <= i < |ps| ==> ps[i].rowspan >= 1 && ps[i].colspan >= 1
    ensures FilledAt(ps, n, r, c, SlotBy(ps, n, r, c), CoveredBy(ps, n, r, c))
  {
    hide Disjoint, FilledAt;
    if n == 0 {
      NothingPlaced(ps, r, c);
    } else {
      var p := ps[n - 1];
      DisjointAllPlaced(ps, n - 1, r, c);
      DisjointAllPlaced(ps, n - 1, p.row, p.col);
      PlaceOne(ps, n - 1, p.row, p.col, SlotBy(ps, n - 1, p.row, p.col), CoveredBy(ps, n - 1, p.row, p.col));
      PlaceOne(ps, n - 1, r, c, SlotBy(ps, n - 1, r, c), CoveredBy(ps, n - 1, r, c));
    }
  }

  lemma NothingPlaced(ps: seq<Piece>, r: nat, c: nat)
    ensures FilledAt(ps, 0, r, c, None, false)
  {
  }

  /** The placing loop, on any pieces. */
  method PlacePieces(ps: seq<Piece>, height: nat, width: nat) returns (out: array2<Option<Cell>>, covered: array2<bool>)
    requires forall i :: 0 <= i < |ps| ==> Fits(ps[i], height, width)
    ensures fresh(out) && fresh(covered)
    ensures out.Length0 == covered.Length0 == height && out.Length1 == covered.Length1 == width
    ensures forall r, c :: 0 <= r < height && 0 <= c < width ==>
              out[r, c] == SlotBy(ps, |ps|, r, c) && covered[r, c] == CoveredBy(ps, |ps|, r, c)
  {
    out := new Option<Cell>[height, width]((_, _) => None);
    covered := new bool[height, width]((_, _) => false);
    for n := 0 to |ps|
      invariant forall r, c :: 0 <= r < height && 0 <= c < width ==>
                  out[r, c] == SlotBy(ps, n, r, c) && covered[r, c] == CoveredBy(ps, n, r, c)
    {
      var p := ps[n];
      assert Fits(p, height, width);
      if !covered[p.row, p.col] {
        out[p.row, p.col] := Some(CellOf(p));
        MarkCovered(covered, p);
      }
    }
  }

  /** What the finished grid holds at (r, c): the piece cornered there, nothing
      where a piece spans past its corner, an empty cell in a hole. */
  ghost predicate FinishedAt(ps: seq<Piece>, r: nat, c: nat, slot: Option<Cell>) {
    && (forall i :: 0 <= i < |ps| && IsCorner(ps[i], r, c) ==> slot == Some(CellOf(ps[i])))
    && (!Cornered(ps, |ps|, r, c) && Spanned(ps, |ps|, r, c) ==> slot == None)
    && (!Cornered(ps, |ps|, r, c) && !Spanned(ps, |ps|, r, c) ==> slot == Some(Cell("", 1, 1)))
  }

  /** A hole, that is a position no placed piece spans, becomes an empty cell. */
  ghost function FilledSlot(ps: seq<Piece>, r: nat, c: nat): Option<Cell> {
    if SlotBy(ps, |ps|, r, c).None? && !CoveredBy(ps, |ps|, r, c) then Some(Cell("", 1, 1)) else SlotBy(ps, |ps|, r, c)
  }

  ghost predicate Finished(ps: seq<Piece>, height: nat, width: nat, g: Grid) {
    && |g| == height
    && (forall r :: 0 <= r < height ==> |g[r]| == width)
    && (forall r, c :: 0 <= r < height && 0 <= c < width ==> g[r][c] == FilledSlot(ps, r, c))
    && (Disjoint(ps) ==> forall r, c :: 0 <= r < height && 0 <= c < width ==> FinishedAt(ps, r, c, g[r][c]))
  }

  /** Placing, then filling the holes. */
  method FillGrid(ps: seq<Piece>, height: nat, width: nat) returns (g: Grid)
    requires forall i :: 0 <= i < |ps| ==> Fits(ps[i], height, width)
    ensures Finished(ps, height, width, g)
  {
    var out, covered := PlacePieces(ps, height, width);
    g := [];
    for r := 0 to height
      invariant |g| == r && forall i :: 0 <= i < r ==> |g[i]| == width
      invariant forall i, c :: 0 <= i < r && 0 <= c < width ==> g[i][c] == FilledSlot(ps, i, c)
    {
      var row: Slots := [];
      for c := 0 to width
        invariant |row| == c
        invariant forall k :: 0 <= k < c ==> row[k] == FilledSlot(ps, r, k)
      {
        row := row + [if out[r, c].None? && !covered[r, c] then Some(Cell("", 1, 1)) else out[r, c]];
      }
      g := g + [row];
    }
    forall r, c | Disjoint(ps) && 0 <= r < height && 0 <= c < width
      ensures FinishedAt(ps, r, c, g[r][c])
    {
      assert forall i :: 0 <= i < |ps| ==> Fits(ps[i], height, width);
      DisjointAllPlaced(ps, |ps|, r, c);
    }
  }

  /** The anchor that owns (r, c): its piece's corner, or itself in a hole. */
  ghost function OwnerIn(ps: seq<Piece>, r: nat, c: nat): (nat, nat) {
    if Spanned(ps, |ps|, r, c) then
      var i :| 0 <= i < |ps| && Spans(ps[i], r, c);
      (ps[i].row, ps[i].col)
    else (r, c)
  }

  lemma OwnerInIs(ps: seq<Piece>, i: nat, r: nat, c: nat)
    requires Disjoint(ps) && i < |ps| && Spans(ps[i], r, c)
    ensures OwnerIn(ps, r, c) == (ps[i].row, ps[i].col)
  {}

  /** Disjoint pieces tile the grid: every position has exactly one owner, and
      each piece's text stands once, at its corner. */
  lemma FinishedTiles(ps: seq<Piece>, height: nat, width: nat, g: Grid)
    requires forall i :: 0 <= i < |ps| ==> Fits(ps[i], height, width)
    requires Disjoint(ps) && Finished(ps, height, width, g)
    ensures TiledBy(g, width, (r, c) => OwnerIn(ps, r, c))
    ensures forall i :: 0 <= i < |ps| ==> Fits(ps[i], height, width) && g[ps[i].row][ps[i].col] == Some(CellOf(ps[i]))
    ensures forall r, c :: 0 <= r < height && 0 <= c < width && g[r][c].Some? && g[r][c].value.text != "" ==>
              exists i :: 0 <= i < |ps| && IsCorner(ps[i], r, c)
  {
    var own := (r: nat, c: nat) => OwnerIn(ps, r, c);
    forall r: nat, c: nat | r < height && c < width
      ensures Covers(g, own(r, c).0, own(r, c).1, r, c)
    {
      OwnerCovers(ps, height, width, g, r, c);
    }
    forall r0: nat, c0: nat, r: nat, c: nat | r < |g| && Covers(g, r0, c0, r, c)
      ensures c < width && own(r, c) == (r0, c0)
    {
      CoverIsOwner(ps, height, width, g, r0, c0, r, c);
    }
    forall r: nat, c: nat | Anchor(g, r, c)
      ensures g[r][c].value.colspan >= 1 && g[r][c].value.rowspan >= 1
    {
      assert FinishedAt(ps, r, c, g[r][c]);
    }
    forall i | 0 <= i < |ps|
      ensures Fits(ps[i], height, width) && g[ps[i].row][ps[i].col] == Some(CellOf(ps[i]))
    {
      assert FinishedAt(ps, ps[i].row, ps[i].col, g[ps[i].row][ps[i].col]);
      assert IsCorner(ps[i], ps[i].row, ps[i].col);
    }
    forall r, c | 0 <= r < height && 0 <= c < width && g[r][c].Some? && g[r][c].value.text != ""
      ensures exists i :: 0 <= i < |ps| && IsCorner(ps[i], r, c)
    {
      assert FinishedAt(ps, r, c, g[r][c]);
    }
  }

  lemma OwnerCovers(ps: seq<Piece>, height: nat, width: nat, g: Grid, r: nat, c: nat)
    requires forall i :: 0 <= i < |ps| ==> Fits(ps[i], height, width)
    requires Disjoint(ps) && Finished(ps, height, width, g) && r < height && c < width
    ensures Covers(g, OwnerIn(ps, r, c).0, OwnerIn(ps, r, c).1, r, c)
  {
    if Spanned(ps, |ps|, r, c) {
      var i :| 0 <= i < |ps| && Spans(ps[i], r, c);
      OwnerInIs(ps, i, r, c);
      assert FinishedAt(ps, ps[i].row, ps[i].col, g[ps[i].row][ps[i].col]);
      assert IsCorner(ps[i], ps[i].row, ps[i].col);
    } else {
      NotSpannedNotCornered(ps, height, width, r, c);
      assert FinishedAt(ps, r, c, g[r][c]);
    }
  }

  lemma NotSpannedNotCornered(ps: seq<Piece>, height: nat, width: nat, r: nat, c: nat)
    requires forall i :: 0 <= i < |ps| ==> Fits(ps[i], height, width)
    ensures Cornered(ps, |ps|, r, c) ==> Spanned(ps, |ps|, r, c)
  {
    if Cornered(ps, |ps|, r, c) {
      var i :| 0 <= i < |ps| && IsCorner(ps[i], r, c);
      assert Fits(ps[i], height, width) && Spans(ps[i], r, c);
    }
  }

  lemma CoverIsOwner(ps: seq<Piece>, height: nat, width: nat, g: Grid, r0: nat, c0: nat, r: nat, c: nat)
    requires forall i :: 0 <= i < |ps| ==> Fits(ps[i], height, width)
    requires Disjoint(ps) && Finished(ps, height, width, g) && r < height && Covers(g, r0, c0, r, c)
    ensures c < width && OwnerIn(ps, r, c) == (r0, c0)
  {
    assert FinishedAt(ps, r0, c0, g[r0][c0]);
    if Cornered(ps, |ps|, r0, c0) {
      var i :| 0 <= i < |ps| && IsCorner(ps[i], r0, c0);
      assert Fits(ps[i], height, width);
      assert Spans(ps[i], r, c);
      OwnerInIs(ps, i, r, c);
    } else {
      assert g[r0][c0] == Some(Cell("", 1, 1)) && r == r0 && c == c0;
    }
  }

  // ----- the whole normalisation -----------------------------------------------

  /** A box kept for the grid: its kept row, its text, its rectangle. */
  datatype Kept = Kept(row: nat, text: string, box: Box)

  /** A row of both lists with some text and some box. */
  predicate IsKept(cells: seq<seq<string>>, rows: seq<seq<Option<Box>>>, k: nat) {
    && k < |cells| && k < |rows|
    && (exists t | t in cells[k] :: t != "") && exists b | b in rows[k] :: b.Some?
  }

  /** The rows kept for the grid: all those, in order. */
  function KeptRows(cells: seq<seq<string>>, rows: seq<seq<Option<Box>>>): (r: seq<nat>)
    ensures forall k :: k in r ==> k < |cells| && k < |rows|
    ensures forall k: nat :: k < |cells| && k < |rows| ==>
              (k in r <==> (exists t :: t in cells[k] && t != "") && exists b :: b in rows[k] && b.Some?)
    ensures forall i, j :: 0 <= i < j < |r| ==> r[i] < r[j]
  {
    var p := (k: nat) => IsKept(cells, rows, k);
    FilteredRangeAscends(0, Min(|cells|, |rows|), p);
    Filter<nat>(Range(0, Min(|cells|, |rows|)), p)
  }

  function RowBoxes(texts: seq<string>, boxes: seq<Option<Box>>, row: nat): (r: seq<Kept>)
    ensures forall k :: k in r ==> k.row == row
  {
    if boxes == [] || texts == [] then []
    else
      (if boxes[0].Some? then [Kept(row, texts[0], boxes[0].value)] else [])
      + RowBoxes(texts[1..], boxes[1..], row)
  }

  function Boxes(cells: seq<seq<string>>, rows: seq<seq<Option<Box>>>, keep: seq<nat>): (r: seq<Kept>)
    requires forall k :: k in keep ==> k < |cells| && k < |rows|
    ensures forall b :: b in r ==> b.row < |keep|
  {
    if keep == [] then []
    else
      var n := |keep| - 1;
      assert keep[n] in keep && forall k :: k in keep[..n] ==> k in keep;
      Boxes(cells, rows, keep[..n]) + RowBoxes(cells[keep[n]], rows[keep[n]], n)
  }

  function Tops(boxes: seq<Option<Box>>): seq<real> {
    if boxes == [] then [] else (if boxes[0].Some? then [boxes[0].value.top] else []) + Tops(boxes[1..])
  }

  function Bottoms(boxes: seq<Option<Box>>): seq<real> {
    if boxes == [] then [] else (if boxes[0].Some? then [boxes[0].value.bottom] else []) + Bottoms(boxes[1..])
  }

  function Least(s: seq<real>): real {
    if s == [] then 0.0 else if |s| == 1 || s[0] <= Least(s[1..]) then s[0] else Least(s[1..])
  }

  function Greatest(s: seq<real>): real {
    if s == [] then 0.0 else if |s| == 1 || s[0] >= Greatest(s[1..]) then s[0] else Greatest(s[1..])
  }

  function Middle(boxes: seq<Option<Box>>): real {
    (Least(Tops(boxes)) + Greatest(Bottoms(boxes))) / 2.0
  }

  /** The rectangle of a box spanning raw columns [i0, i1): the witnessed columns
      it crosses or, if none, the one its left edge is nearest. */
  function PieceOf(b: Kept, edges: seq<real>, wit: seq<nat>, mids: seq<real>, i0: nat, i1: nat): (p: Piece)
    requires wit != [] && b.row < |mids| && forall k :: 0 <= k < |wit| ==> wit[k] < |edges|
    requires forall i, j :: 0 <= i < j < |wit| ==> wit[i] < wit[j]
    ensures Fits(p, |mids|, |wit|) && p.row == b.row && p.text == b.text
    ensures forall i :: p.row < i < p.row + p.rowspan ==> b.box.top < mids[i] < b.box.bottom
    ensures p.row + p.rowspan < |mids| ==> !(b.box.top < mids[p.row + p.rowspan] < b.box.bottom)
    ensures Cover(wit, i0, i1) == [] ==> p.colspan == 1 && p.col == Nearest(edges, wit, b.box.x0)
    ensures Cover(wit, i0, i1) != [] ==>
              forall c: nat :: p.col <= c < p.col + p.colspan <==> c < |wit| && i0 <= wit[c] < i1
  {
    CoverRange(wit, i0, i1);
    var cover := Cover(wit, i0, i1);
    if cover != [] then Piece(b.row, cover[0], |cover|, 1 + RowsInside(mids, b.box, b.row + 1), b.text)
    else Piece(b.row, Nearest(edges, wit, b.box.x0), 1, 1 + RowsInside(mids, b.box, b.row + 1), b.text)
  }

  function XEdges(boxes: seq<Kept>): (r: seq<real>)
    ensures |r| == 2 * |boxes|
    ensures forall k :: 0 <= k < |boxes| ==> r[2 * k] == boxes[k].box.x0 && r[2 * k + 1] == boxes[k].box.x1
    ensures forall b :: b in boxes ==> b.box.x0 in r && b.box.x1 in r
  {
    if boxes == [] then []
    else
      assert forall b :: b in boxes ==> b in boxes[..|boxes| - 1] || b == boxes[|boxes| - 1];
      XEdges(boxes[..|boxes| - 1]) + [boxes[|boxes| - 1].box.x0, boxes[|boxes| - 1].box.x1]
  }

  function Middles(rows: seq<seq<Option<Box>>>, keep: seq<nat>): (r: seq<real>)
    requires forall k :: k in keep ==> k < |rows|
    ensures |r| == |keep| && forall k :: 0 <= k < |keep| ==> keep[k] < |rows| && r[k] == Middle(rows[keep[k]])
  {
    assert forall k :: 0 <= k < |keep| ==> keep[k] in keep;
    seq(|keep|, k requires 0 <= k < |keep| => Middle(rows[keep[k]]))
  }

  /** The raw columns a box spans, when both its edges resolve in order. */
  function SpanOf(edges: seq<real>, b: Box): (r: Option<(nat, nat)>)
    ensures r.Some? ==> r.value.0 < r.value.1 < |edges|
  {
    var i0, i1 := EdgeIndex(edges, b.x0, 0), EdgeIndex(edges, b.x1, 0);
    if i0.Some? && i1.Some? && i0.value < i1.value then Some((i0.value, i1.value)) else None
  }

  /** Raw columns some box occupies alone, ascending. */
  function Witnessed(edges: seq<real>, spans: seq<(nat, nat)>, n: nat): (r: seq<nat>)
    ensures forall k :: k in r <==> k < n && (k, k + 1) in spans
    ensures forall i, j :: 0 <= i < j < |r| ==> r[i] < r[j]
  {
    if n == 0 then []
    else
      var front := Witnessed(edges, spans, n - 1);
      if (n - 1, n) in spans then
        assert forall i :: 0 <= i < |front| ==> front[i] in front;
        front + [n - 1]
      else front
  }

  ghost function SpansOf(edges: seq<real>, boxes: seq<Kept>): (r: seq<(nat, nat)>)
    ensures |r| == |boxes| && forall k :: 0 <= k < |r| ==> r[k] == SpanOf(edges, boxes[k].box).GetOr((0, 0))
  {
    seq(|boxes|, k requires 0 <= k < |boxes| => SpanOf(edges, boxes[k].box).GetOr((0, 0)))
  }

  ghost predicate Columns(edges: seq<real>, wit: seq<nat>) {
    && (forall k :: 0 <= k < |wit| ==> wit[k] < |edges|)
    && (forall i, j :: 0 <= i < j < |wit| ==> wit[i] < wit[j])
  }

  /** `p` is the rectangle of box `b` on the columns `wit`. */
  ghost predicate Resolves(b: Kept, edges: seq<real>, wit: seq<nat>, mids: seq<real>, p: Piece) {
    && wit != [] && Columns(edges, wit) && b.row < |mids|
    && SpanOf(edges, b.box).Some?
    && p == PieceOf(b, edges, wit, mids, SpanOf(edges, b.box).value.0, SpanOf(edges, b.box).value.1)
  }

  method ResolveSpans(boxes: seq<Kept>, edges: seq<real>) returns (spans: Option<seq<(nat, nat)>>)
    ensures spans.Some? <==> forall k :: 0 <= k < |boxes| ==> SpanOf(edges, boxes[k].box).Some?
    ensures spans.Some? ==>
              && |spans.value| == |boxes|
              && forall k :: 0 <= k < |boxes| ==> SpanOf(edges, boxes[k].box) == Some(spans.value[k])
  {
    var found: seq<(nat, nat)> := [];
    for k := 0 to |boxes|
      invariant |found| == k
      invariant forall i :: 0 <= i < k ==> SpanOf(edges, boxes[i].box) == Some(found[i])
    {
      var span := SpanOf(edges, boxes[k].box);
      if span.None? { return None; }
      found := found + [span.value];
    }
    return Some(found);
  }

  method ResolvePieces(boxes: seq<Kept>, edges: seq<real>, wit: seq<nat>, mids: seq<real>, spans: seq<(nat, nat)>)
    returns (pieces: seq<Piece>)
    requires wit != [] && Columns(edges, wit) && forall b :: b in boxes ==> b.row < |mids|
    requires |spans| == |boxes| && forall k :: 0 <= k < |boxes| ==> SpanOf(edges, boxes[k].box) == Some(spans[k])
    ensures |pieces| == |boxes| && forall k :: 0 <= k < |boxes| ==> Resolves(boxes[k], edges, wit, mids, pieces[k])
  {
    hide PieceOf, SpanOf;
    pieces := [];
    for k := 0 to |boxes|
      invariant |pieces| == k
      invariant forall i :: 0 <= i < k ==> Resolves(boxes[i], edges, wit, mids, pieces[i])
    {
      assert boxes[k] in boxes;
      pieces := pieces + [PieceOf(boxes[k], edges, wit, mids, spans[k].0, spans[k].1)];
    }
  }

  /** `_normalise_geometric`: None when the geometry is unusable. */
  method NormaliseGeometric(cells: seq<seq<string>>, rows: seq<seq<Option<Box>>>)
    returns (g: Option<Grid>, edges: seq<real>, wit: seq<nat>, pieces: seq<Piece>)
    ensures var xs := XEdges(Boxes(cells, rows, KeptRows(cells, rows)));
            edges == Means(Clusters(SortReals(xs), |xs|))
    ensures g.None? <==>
              var boxes := Boxes(cells, rows, KeptRows(cells, rows));
              || KeptRows(cells, rows) == [] || |edges| < 3
              || (exists k :: 0 <= k < |boxes| && SpanOf(edges, boxes[k].box).None?)
              || |Witnessed(edges, SpansOf(edges, boxes), |edges|)| < 2
    ensures g.Some? ==>
              var keep := KeptRows(cells, rows);
              var boxes := Boxes(cells, rows, keep);
              && wit == Witnessed(edges, SpansOf(edges, boxes), |edges|)
              && |pieces| == |boxes|
              && (forall k :: 0 <= k < |boxes| ==> Resolves(boxes[k], edges, wit, Middles(rows, keep), pieces[k]))
              && Finished(pieces, |keep|, |wit|, g.value)
  {
    hide KeptRows, Boxes, Middles, SpanOf, PieceOf, Finished;
    hide Separated, Grouped, Means, XEdges, Clusters, SortReals, Witnessed;
    var keep := KeptRows(cells, rows);
    var boxes, mids := Boxes(cells, rows, keep), Middles(rows, keep);
    var groups := Cluster(XEdges(boxes));
    assert forall j :: 0 <= j < |groups| ==> groups[j] != [] by { SeparatedNonEmpty(groups); }
    edges, wit, pieces := Means(groups), [], [];
    if keep == [] || |edges| < 3 { return None, edges, wit, pieces; }
    var spans := ResolveSpans(boxes, edges);
    if spans.None? { return None, edges, wit, pieces; }
    assert spans.value == SpansOf(edges, boxes);
    wit := Witnessed(edges, spans.value, |edges|);
    if |wit| < 2 { return None, edges, wit, pieces; }
    assert forall k :: 0 <= k < |wit| ==> wit[k] in wit;
    pieces := ResolvePieces(boxes, edges, wit, mids, spans.value);
    PiecesFit(boxes, edges, wit, mids, pieces);
    var grid := FillGrid(pieces, |keep|, |wit|);
    g := Some(grid);
  }

  lemma SeparatedNonEmpty(groups: seq<seq<real>>)
    requires Separated(groups)
    ensures forall j :: 0 <= j < |groups| ==> groups[j] != []
  {}

  lemma PiecesFit(boxes: seq<Kept>, edges: seq<real>, wit: seq<nat>, mids: seq<real>, pieces: seq<Piece>)
    requires |pieces| == |boxes| && forall k :: 0 <= k < |boxes| ==> Resolves(boxes[k], edges, wit, mids, pieces[k])
    ensures forall k :: 0 <= k < |pieces| ==> Fits(pieces[k], |mids|, |wit|)
  {
    forall k | 0 <= k < |pieces|
      ensures Fits(pieces[k], |mids|, |wit|)
    {
      assert Resolves(boxes[k], edges, wit, mids, pieces[k]);
    }
  }

  /** A box resolves exactly when both its edges lie within the tolerance of their
      clusters' means, and then to just those two clusters. */
  lemma SteadyBoxResolves(groups: seq<seq<real>>, b: Box, j: nat, k: nat)
    requires Separated(groups) && j < k < |groups| && b.x0 in groups[j] && b.x1 in groups[k]
    ensures SpanOf(Means(groups), b) in {None, Some((j, k))}
    ensures -EDGE_TOL <= b.x0 - Mean(groups[j]) <= EDGE_TOL && -EDGE_TOL <= b.x1 - Mean(groups[k]) <= EDGE_TOL
            <==> SpanOf(Means(groups), b).Some?
  {
    EdgesAreNotConfused(groups, j, b.x0);
    EdgesAreNotConfused(groups, k, b.x1);
  }
}

/** Which cells the geometry turns into pieces, and where the numbers it goes by come from. */
module GeometryLaws {
  import opened Common
  import opened Tables
  import opened Geometry

  // ----- means and middles -----------------------------------------------------

  lemma {:induction false} SumSplits(a: seq<real>, b: seq<real>)
    ensures Sum(a + b) == Sum(a) + Sum(b) && forall x :: Sum([x]) == x
  {
    forall x
      ensures Sum([x]) == x
    {
      assert [x][..0] == [];
    }
    if b == [] {
      assert a + b == a;
    } else {
      SumSplits(a, b[..|b| - 1]);
      assert (a + b)[..|a + b| - 1] == a + b[..|b| - 1];
    }
  }

  /** The mean, taken as often as there are values, is their sum. */
  lemma MeanIs(s: seq<real>)
    requires s != []
    ensures Mean(s) * |s| as real == Sum(s)
  {
    hide Sum;
  }

  ghost predicate IsLeastTop(boxes: seq<Option<Box>>, x: real) {
    (exists b :: b in boxes && b.Some? && b.value.top == x) && forall b :: b in boxes && b.Some? ==> x <= b.value.top
  }

  ghost predicate IsGreatestBottom(boxes: seq<Option<Box>>, x: real) {
    (exists b :: b in boxes && b.Some? && b.value.bottom == x)
    && forall b :: b in boxes && b.Some? ==> b.value.bottom <= x
  }

  lemma {:induction false} LeastIs(s: seq<real>)
    requires s != []
    ensures Least(s) in s && forall x :: x in s ==> Least(s) <= x
  {
    if |s| > 1 {
      LeastIs(s[1..]);
      assert s == [s[0]] + s[1..];
    }
  }

  lemma {:induction false} GreatestIs(s: seq<real>)
    requires s != []
    ensures Greatest(s) in s && forall x :: x in s ==> x <= Greatest(s)
  {
    if |s| > 1 {
      GreatestIs(s[1..]);
      assert s == [s[0]] + s[1..];
    }
  }

  lemma {:induction false} TopsAre(boxes: seq<Option<Box>>)
    ensures forall x :: x in Tops(boxes) <==> exists b :: b in boxes && b.Some? && b.value.top == x
    ensures forall x :: x in Bottoms(boxes) <==> exists b :: b in boxes && b.Some? && b.value.bottom == x
  {
    if boxes != [] {
      TopsAre(boxes[1..]);
      assert boxes == [boxes[0]] + boxes[1..];
    }
  }

  /** A row's middle lies halfway between its least top and its greatest bottom. */
  lemma MiddleIs(boxes: seq<Option<Box>>, top: real, bottom: real)
    requires exists b :: b in boxes && b.Some?
    requires IsLeastTop(boxes, top) && IsGreatestBottom(boxes, bottom)
    ensures Middle(boxes) == (top + bottom) / 2.0
  {
    TopsAre(boxes);
    assert top in Tops(boxes) && bottom in Bottoms(boxes);
    LeastIs(Tops(boxes));
    GreatestIs(Bottoms(boxes));
    hide Tops, Bottoms, Least, Greatest;
    var least, greatest := Least(Tops(boxes)), Greatest(Bottoms(boxes));
    assert least in Tops(boxes) && greatest in Bottoms(boxes);
  }

  // ----- one piece for every cell with a box -----------------------------------

  /** How many of the first `n` cells of a row have a box. */
  function BoxesIn(texts: seq<string>, boxes: seq<Option<Box>>, n: nat): nat
    requires n <= |texts| && n <= |boxes|
  {
    if n == 0 then 0 else BoxesIn(texts, boxes, n - 1) + if boxes[n - 1].Some? then 1 else 0
  }

  /** The boxes of the first `n` kept rows. */
  function BoxesUpTo(cells: seq<seq<string>>, rows: seq<seq<Option<Box>>>, keep: seq<nat>, n: nat): seq<Kept>
    requires (forall k :: k in keep ==> k < |cells| && k < |rows|) && n <= |keep|
  {
    assert forall k :: k in keep[..n] ==> k in keep;
    Boxes(cells, rows, keep[..n])
  }

  /** The place of cell (i, c) of the kept rows among all boxes. */
  function PlaceOf(cells: seq<seq<string>>, rows: seq<seq<Option<Box>>>, keep: seq<nat>, i: nat, c: nat): nat
    requires forall k :: k in keep ==> k < |cells| && k < |rows|
    requires i < |keep| && keep[i] < |cells| && keep[i] < |rows| && c <= |cells[keep[i]]| && c <= |rows[keep[i]]|
  {
    |BoxesUpTo(cells, rows, keep, i)| + BoxesIn(cells[keep[i]], rows[keep[i]], c)
  }

  lemma {:induction false} RowBoxesAre(texts: seq<string>, boxes: seq<Option<Box>>, row: nat, c: nat)
    requires c < |texts| && c < |boxes|
    ensures BoxesIn(texts, boxes, c) + (if boxes[c].Some? then 1 else 0) <= |RowBoxes(texts, boxes, row)|
    ensures boxes[c].Some? ==>
              RowBoxes(texts, boxes, row)[BoxesIn(texts, boxes, c)] == Kept(row, texts[c], boxes[c].value)
    decreases c
  {
    BoxesInFromFront(texts, boxes, c);
    if c > 0 {
      RowBoxesAre(texts[1..], boxes[1..], row, c - 1);
    }
  }

  lemma {:induction false} BoxesInFromFront(texts: seq<string>, boxes: seq<Option<Box>>, n: nat)
    requires n <= |texts| && n <= |boxes|
    ensures n > 0 ==>
              BoxesIn(texts, boxes, n) == (if boxes[0].Some? then 1 else 0) + BoxesIn(texts[1..], boxes[1..], n - 1)
  {
    if n > 1 {
      BoxesInFromFront(texts, boxes, n - 1);
    }
  }

  lemma {:induction false} RowBoxesFrom(texts: seq<string>, boxes: seq<Option<Box>>, row: nat, k: nat) returns (c: nat)
    requires k < |RowBoxes(texts, boxes, row)|
    ensures c < |texts| && c < |boxes| && boxes[c].Some? && BoxesIn(texts, boxes, c) == k
    decreases |boxes|
  {
    var first := if boxes[0].Some? then 1 else 0;
    if k < first {
      c := 0;
    } else {
      var d := RowBoxesFrom(texts[1..], boxes[1..], row, k - first);
      c := d + 1;
      BoxesInFromFront(texts, boxes, c);
    }
  }

  lemma BoxesSplit(cells: seq<seq<string>>, rows: seq<seq<Option<Box>>>, keep: seq<nat>, i: nat)
    requires (forall k :: k in keep ==> k < |cells| && k < |rows|) && i < |keep|
    ensures keep[i] in keep
    ensures BoxesUpTo(cells, rows, keep, i + 1)
         == BoxesUpTo(cells, rows, keep, i) + RowBoxes(cells[keep[i]], rows[keep[i]], i)
  {
    assert keep[..i + 1][..i] == keep[..i];
  }

  lemma AllBoxes(cells: seq<seq<string>>, rows: seq<seq<Option<Box>>>, keep: seq<nat>)
    requires forall k :: k in keep ==> k < |cells| && k < |rows|
    ensures BoxesUpTo(cells, rows, keep, |keep|) == Boxes(cells, rows, keep)
  {
    assert keep[..|keep|] == keep;
  }

  lemma {:induction false} BoxesGrow(cells: seq<seq<string>>, rows: seq<seq<Option<Box>>>, keep: seq<nat>, i: nat,
                                     n: nat)
    requires (forall k :: k in keep ==> k < |cells| && k < |rows|) && i <= n <= |keep|
    ensures BoxesUpTo(cells, rows, keep, i) <= BoxesUpTo(cells, rows, keep, n)
    decreases n
  {
    hide BoxesUpTo, RowBoxes;
    if i < n {
      BoxesGrow(cells, rows, keep, i, n - 1);
      BoxesSplit(cells, rows, keep, n - 1);
    }
  }

  /** Every cell of a kept row that has a box is listed once, with its text and box, at
      the place that counts the boxes before it. */
  lemma CellIsListed(cells: seq<seq<string>>, rows: seq<seq<Option<Box>>>, keep: seq<nat>, i: nat, c: nat)
    requires forall k :: k in keep ==> k < |cells| && k < |rows|
    requires i < |keep| && keep[i] in keep && c < |cells[keep[i]]| && c < |rows[keep[i]]| && rows[keep[i]][c].Some?
    ensures var k := PlaceOf(cells, rows, keep, i, c);
            && k < |Boxes(cells, rows, keep)|
            && Boxes(cells, rows, keep)[k] == Kept(i, cells[keep[i]][c], rows[keep[i]][c].value)
  {
    hide Boxes, BoxesUpTo, RowBoxes, BoxesIn;
    RowBoxesAre(cells[keep[i]], rows[keep[i]], i, c);
    BoxesSplit(cells, rows, keep, i);
    BoxesGrow(cells, rows, keep, i + 1, |keep|);
    AllBoxes(cells, rows, keep);
  }

  /** ... and the list holds nothing else. */
  lemma {:induction false} ListedIsCell(cells: seq<seq<string>>, rows: seq<seq<Option<Box>>>, keep: seq<nat>, n: nat,
                                        k: nat)
    returns (i: nat, c: nat)
    requires (forall x :: x in keep ==> x < |cells| && x < |rows|) && n <= |keep|
    requires k < |BoxesUpTo(cells, rows, keep, n)|
    ensures i < n && keep[i] in keep && c < |cells[keep[i]]| && c < |rows[keep[i]]| && rows[keep[i]][c].Some?
    ensures PlaceOf(cells, rows, keep, i, c) == k
    decreases n
  {
    assert keep[..0] == [];
    assert n > 0;
    BoxesSplit(cells, rows, keep, n - 1);
    hide BoxesUpTo, RowBoxes;
    var before := |BoxesUpTo(cells, rows, keep, n - 1)|;
    if k < before {
      i, c := ListedIsCell(cells, rows, keep, n - 1, k);
    } else {
      i := n - 1;
      c := RowBoxesFrom(cells[keep[i]], rows[keep[i]], i, k - before);
    }
  }

  lemma {:induction false} BoxesInGrow(texts: seq<string>, boxes: seq<Option<Box>>, c: nat, d: nat)
    requires c < d <= |texts| && d <= |boxes| && boxes[c].Some?
    ensures BoxesIn(texts, boxes, c) < BoxesIn(texts, boxes, d)
    decreases d
  {
    if c < d - 1 {
      BoxesInGrow(texts, boxes, c, d - 1);
    }
  }

  /** Places follow the rows, and in a row the cells: no two cells share one. */
  lemma PlacesRise(cells: seq<seq<string>>, rows: seq<seq<Option<Box>>>, keep: seq<nat>, i: nat, c: nat, j: nat, d: nat)
    requires forall k :: k in keep ==> k < |cells| && k < |rows|
    requires i < |keep| && keep[i] in keep && c < |cells[keep[i]]| && c < |rows[keep[i]]| && rows[keep[i]][c].Some?
    requires j < |keep| && keep[j] in keep && d < |cells[keep[j]]| && d < |rows[keep[j]]|
    requires i < j || (i == j && c < d)
    ensures PlaceOf(cells, rows, keep, i, c) < PlaceOf(cells, rows, keep, j, d)
  {
    hide BoxesUpTo, RowBoxes, BoxesIn;
    if i < j {
      RowBoxesAre(cells[keep[i]], rows[keep[i]], i, c);
      BoxesSplit(cells, rows, keep, i);
      BoxesGrow(cells, rows, keep, i + 1, j);
    } else {
      BoxesInGrow(cells[keep[i]], rows[keep[i]], c, d);
    }
  }

  /** In the pieces of a normalised table the piece at a cell's place stands for that
      cell: it carries the cell's text, starts on the cell's kept row, and is the
      rectangle of the cell's box. */
  lemma PieceStandsForCell(cells: seq<seq<string>>, rows: seq<seq<Option<Box>>>, edges: seq<real>, wit: seq<nat>,
                           pieces: seq<Piece>, i: nat, c: nat)
    requires var keep := KeptRows(cells, rows);
             var boxes := Boxes(cells, rows, keep);
             && |pieces| == |boxes|
             && (forall k :: 0 <= k < |boxes| ==> Resolves(boxes[k], edges, wit, Middles(rows, keep), pieces[k]))
             && i < |keep| && keep[i] in keep && c < |cells[keep[i]]| && c < |rows[keep[i]]| && rows[keep[i]][c].Some?
    ensures var keep := KeptRows(cells, rows);
            var k := PlaceOf(cells, rows, keep, i, c);
            && k < |pieces| && pieces[k].row == i && pieces[k].text == cells[keep[i]][c]
            && Resolves(Kept(i, cells[keep[i]][c], rows[keep[i]][c].value), edges, wit, Middles(rows, keep), pieces[k])
  {
    hide KeptRows, Boxes, Middles, PieceOf, SpanOf, BoxesIn;
    CellIsListed(cells, rows, KeptRows(cells, rows), i, c);
  }

  // ----- overlapping rectangles ------------------------------------------------

  /** A position is covered when a piece that was placed spans it past its corner. */
  lemma {:induction false} CoveredExactly(ps: seq<Piece>, n: nat, r: nat, c: nat)
    requires n <= |ps|
    ensures CoveredBy(ps, n, r, c) <==>
            exists j: nat :: j < n && Accepted(ps, j) && Spans(ps[j], r, c) && !(ps[j].row == r && ps[j].col == c)
  {
    hide Accepted, Spans;
    if n > 0 {
      CoveredExactly(ps, n - 1, r, c);
    }
  }

  /** A piece is placed unless one placed before it covers its corner. */
  lemma AcceptedExactly(ps: seq<Piece>, k: nat)
    requires k < |ps|
    ensures Accepted(ps, k) <==>
            !exists j: nat :: j < k && Accepted(ps, j) && Spans(ps[j], ps[k].row, ps[k].col)
                              && !(ps[j].row == ps[k].row && ps[j].col == ps[k].col)
  {
    CoveredExactly(ps, k, ps[k].row, ps[k].col);
  }

  /** Piece `k` is the last of the first `n` placed with its corner at (r, c). */
  ghost predicate LastAt(ps: seq<Piece>, n: nat, r: nat, c: nat, k: nat)
    requires n <= |ps|
  {
    && k < n && Accepted(ps, k) && ps[k].row == r && ps[k].col == c
    && forall j: nat :: k < j < n && Accepted(ps, j) ==> !(ps[j].row == r && ps[j].col == c)
  }

  /** A position holds the cell of the last piece placed with its corner there. */
  lemma {:induction false} SlotExactly(ps: seq<Piece>, n: nat, r: nat, c: nat)
    requires n <= |ps|
    ensures match SlotBy(ps, n, r, c)
      case None => forall j: nat :: j < n && Accepted(ps, j) ==> !(ps[j].row == r && ps[j].col == c)
      case Some(cell) => exists k: nat :: LastAt(ps, n, r, c, k)
                           && cell == Cell(ps[k].text, ps[k].colspan, ps[k].rowspan)
  {
    hide Accepted;
    if n > 0 {
      SlotExactly(ps, n - 1, r, c);
      if Accepted(ps, n - 1) && IsCorner(ps[n - 1], r, c) {
        assert LastAt(ps, n, r, c, n - 1);
      } else if SlotBy(ps, n - 1, r, c).Some? {
        var k: nat :| LastAt(ps, n - 1, r, c, k)
                      && SlotBy(ps, n - 1, r, c).value == Cell(ps[k].text, ps[k].colspan, ps[k].rowspan);
        assert LastAt(ps, n, r, c, k);
      }
    }
  }
}

/** Boxes to markup to owners, and back. */
module TableRoundTrip {
  import opened Common
  import opened Tables
  import opened TableMarkup
  import Geometry

  ghost predicate PositiveSpans(g: Grid) {
    forall r, i :: 0 <= r < |g| && 0 <= i < |g[r]| && g[r][i].Some? ==>
      g[r][i].value.colspan >= 1 && g[r][i].value.rowspan >= 1
  }

  // ----- the printer's loops ---------------------------------------------------

  /** `_tr`. */
  method Tr(row: Slots, tag: string) returns (s: string)
    requires forall i :: 0 <= i < |row| && row[i].Some? ==> row[i].value.colspan >= 1
    ensures s == PrintRow(Emitted(row, 0), tag)
  {
    hide PrintCell, PrintCells, Joined;
    EmptyJoin();
    var parts: seq<string> := [];
    var ci := 0;
    while ci < |row|
      invariant Joined(parts) + PrintCells(Emitted(row, ci), tag) == PrintCells(Emitted(row, 0), tag)
      invariant parts == [] ==> Emitted(row, ci) == Emitted(row, 0)
      invariant parts != [] ==> Emitted(row, 0) != []
      decreases |row| - ci
    {
      if row[ci].None? {
        ci := ci + 1;
      } else {
        var c := row[ci].value;
        var rest := Emitted(row, ci + c.colspan);
        PrintOneMore(parts, c, rest, tag);
        parts := parts + [PrintCell(c, tag)];
        ci := ci + c.colspan;
      }
    }
    s := if parts == [] then "<tr>\n\n</tr>" else "<tr>\n" + Joined(parts) + "</tr>";
    NothingLeft(tag);
    assert Joined(parts) + "" == Joined(parts);
  }

  lemma EmptyJoin()
    ensures Joined([]) == ""
  {}

  lemma NothingLeft(tag: string)
    ensures PrintCells([], tag) == ""
  {}

  lemma PrintOneMore(parts: seq<string>, c: Cell, rest: seq<Cell>, tag: string)
    ensures Joined(parts) + PrintCells([c] + rest, tag) == Joined(parts + [PrintCell(c, tag)]) + PrintCells(rest, tag)
  {
    hide PrintCell;
    assert ([c] + rest)[1..] == rest;
    JoinedOneMore(parts, PrintCell(c, tag), PrintCells(rest, tag));
  }

  /** Each part followed by a line break. */
  function Joined(parts: seq<string>): string {
    if parts == [] then "" else Joined(parts[..|parts| - 1]) + parts[|parts| - 1] + "\n"
  }

  lemma JoinedOneMore(parts: seq<string>, p: string, rest: string)
    ensures Joined(parts + [p]) + rest == Joined(parts) + (p + "\n" + rest)
  {
    assert (parts + [p])[..|parts|] == parts;
    assert Joined(parts + [p]) == Joined(parts) + p + "\n";
  }

  // ----- what the printer emits of a tiling ------------------------------------

  /** On a tiling the printer steps from cell to cell and misses none. */
  lemma {:induction false} EmittedIsDense(g: Grid, width: nat, own: (nat, nat) -> (nat, nat), r: nat, ci: nat)
    requires TiledBy(g, width, own) && r < |g| && ci <= width && PositiveSpans(g)
    ensures Dense(g[r]) == Dense(g[r][..ci]) + Emitted(g[r], ci)
    decreases width - ci
  {
    var row := g[r];
    assert |row| == width;
    hide TiledBy, PositiveSpans, Dense;
    if ci == width {
      assert row[..ci] == row && Dense(row) + [] == Dense(row);
    } else if row[ci].None? {
      EmittedIsDense(g, width, own, r, ci + 1);
      EmptySlot(row, ci);
    } else {
      var hi := NextCell(g, width, own, r, ci);
      EmittedIsDense(g, width, own, r, hi);
      assert Dense(row[..ci]) + [row[ci].value] + Emitted(row, hi) ==
          Dense(row[..ci]) + ([row[ci].value] + Emitted(row, hi));
    }
  }

  lemma EmptySlot(row: Slots, ci: nat)
    requires ci < |row| && row[ci].None?
    ensures Dense(row[..ci + 1]) == Dense(row[..ci])
  {
    assert row[..ci + 1][..ci] == row[..ci];
  }

  lemma NextCell(g: Grid, width: nat, own: (nat, nat) -> (nat, nat), r: nat, ci: nat) returns (hi: nat)
    requires TiledBy(g, width, own) && r < |g| && ci < width && PositiveSpans(g) && g[r][ci].Some?
    ensures hi == ci + g[r][ci].value.colspan && ci < hi <= width
    ensures Dense(g[r][..hi]) == Dense(g[r][..ci]) + [g[r][ci].value]
  {
    assert Covers(g, r, ci, r, ci);
    AlignedAfterCell(g, width, own, r, ci);
    hi := ci + g[r][ci].value.colspan;
    DenseOneCell(g[r], ci, hi);
  }

  lemma EmittedRowsAreDense(g: Grid, width: nat, own: (nat, nat) -> (nat, nat))
    requires TiledBy(g, width, own) && PositiveSpans(g)
    ensures EmittedRows(g) == DenseRows(g)
  {
    forall r | 0 <= r < |g|
      ensures EmittedRows(g)[r] == DenseRows(g)[r]
    {
      EmittedIsDense(g, width, own, r, 0);
      assert Dense(g[r][..0]) == [] && [] + Emitted(g[r], 0) == Emitted(g[r], 0);
    }
  }

  lemma {:induction false} DenseSpanned(row: Slots)
    requires forall i :: 0 <= i < |row| && row[i].Some? ==> row[i].value.colspan >= 1 && row[i].value.rowspan >= 1
    ensures forall i :: 0 <= i < |Dense(row)| ==> Dense(row)[i].colspan >= 1 && Dense(row)[i].rowspan >= 1
  {
    if row != [] {
      DenseSpanned(row[..|row| - 1]);
    }
  }

  // ----- the round trips -------------------------------------------------------

  /** `rows` is what the reader makes of the printed grid. */
  ghost predicate Reread(g: Grid, head: nat, rows: Rows) {
    PositiveSpans(g) && head <= |g| && rows == ReadTable(Render(g, head))
  }

  lemma NothingReads()
    ensures ReadTable("") == []
  {
  }

  /** Print a tiling with any head, read it back, resolve the owners: every
      position is owned by the cell that covered it.  A table one column wide is not
      printed at all. */
  lemma TilingRoundTrip(g: Grid, width: nat, own: (nat, nat) -> (nat, nat), head: nat, rows: Rows, r: nat, c: nat)
    requires TiledBy(g, width, own) && Reread(g, head, rows) && r < |g| && c < width
    ensures rows == if width >= 2 then DenseRows(g) else []
    ensures width >= 2 ==> StructWidth(rows) == width && OwnersOf(rows)[r][c] == Some(OwnerId(g, width, own, r, c))
  {
    assert |g[r]| == width;
    assert Wide(g) <==> width >= 2;
    NothingReads();
    EmittedRowsAreDense(g, width, own);
    forall i, k | 0 <= i < |g| && 0 <= k < |DenseRows(g)[i]|
      ensures DenseRows(g)[i][k].colspan >= 1 && DenseRows(g)[i][k].rowspan >= 1
    {
      DenseSpanned(g[i]);
    }
    ReadPrintTable(DenseRows(g), head);
    TilingOwners(g, width, own, r, c);
  }

  /** From boxes to boxes: where the boxes' rectangles are disjoint, the cell that
      owns a position in the reread table is the cell of the box spanning it. */
  lemma BoxesRoundTrip(ps: seq<Geometry.Piece>, height: nat, width: nat, g: Grid, head: nat, rows: Rows, i: nat,
                       r: nat, c: nat)
    requires forall k :: 0 <= k < |ps| ==> Geometry.Fits(ps[k], height, width)
    requires Geometry.Disjoint(ps) && Geometry.Finished(ps, height, width, g) && Reread(g, head, rows)
    requires width >= 2 && i < |ps| && Geometry.Spans(ps[i], r, c)
    ensures |rows| == height && StructWidth(rows) == width && r < height && c < width
    ensures var id := OwnersOf(rows)[r][c];
            && id.Some? && id.value.0 < |rows| && id.value.1 < |rows[id.value.0]|
            && rows[id.value.0][id.value.1] == Geometry.CellOf(ps[i])
  {
    hide OwnersOf, StructWidth, ReadTable, Render, EmittedRows;
    Geometry.FinishedTiles(ps, height, width, g);
    assert Geometry.Fits(ps[i], height, width);
    var own := (r: nat, c: nat) => Geometry.OwnerIn(ps, r, c);
    TilingRoundTrip(g, width, own, head, rows, r, c);
    TilingOwners(g, width, own, r, c);
    Geometry.OwnerInIs(ps, i, r, c);
  }

  /** The same of any table `NormaliseGeometric` finishes from boxes that do not
      overlap: at every position a box's rectangle spans stands the box's text. */
  lemma GeometricRoundTrip(cells: seq<seq<string>>, rows: seq<seq<Option<Geometry.Box>>>, edges: seq<real>,
                           wit: seq<nat>,
                           pieces: seq<Geometry.Piece>, g: Grid, head: nat, reread: Rows, i: nat, r: nat, c: nat)
    requires var keep := Geometry.KeptRows(cells, rows);
             var boxes := Geometry.Boxes(cells, rows, keep);
             && |pieces| == |boxes| && |wit| >= 2
             && (forall k :: 0 <= k < |boxes| ==>
                   Geometry.Resolves(boxes[k], edges, wit, Geometry.Middles(rows, keep), pieces[k]))
             && Geometry.Finished(pieces, |keep|, |wit|, g)
    requires Geometry.Disjoint(pieces) && Reread(g, head, reread) && i < |pieces| && Geometry.Spans(pieces[i], r, c)
    ensures |reread| == |Geometry.KeptRows(cells, rows)| && StructWidth(reread) == |wit| && r < |reread| && c < |wit|
    ensures var id := OwnersOf(reread)[r][c];
            && id.Some? && id.value.0 < |reread| && id.value.1 < |reread[id.value.0]|
            && reread[id.value.0][id.value.1] == Geometry.CellOf(pieces[i])
            && reread[id.value.0][id.value.1].text ==
                Geometry.Boxes(cells, rows, Geometry.KeptRows(cells, rows))[i].text
  {
    hide Geometry.KeptRows, Geometry.Boxes, Geometry.Middles;
    hide Geometry.Finished, Geometry.Resolves, Geometry.Disjoint, Reread;
    var keep := Geometry.KeptRows(cells, rows);
    var boxes, mids := Geometry.Boxes(cells, rows, keep), Geometry.Middles(rows, keep);
    Geometry.PiecesFit(boxes, edges, wit, mids, pieces);
    hide OwnersOf, StructWidth;
    BoxesRoundTrip(pieces, |keep|, |wit|, g, head, reread, i, r, c);
    PieceText(boxes[i], edges, wit, mids, pieces[i]);
  }

  lemma PieceText(b: Geometry.Kept, edges: seq<real>, wit: seq<nat>, mids: seq<real>, p: Geometry.Piece)
    requires Geometry.Resolves(b, edges, wit, mids, p)
    ensures Geometry.CellOf(p).text == b.text
  {
    hide Geometry.SpanOf;
  }

  // ----- reprinting dense rows -------------------------------------------------

  /** `_slotted`: each cell followed by the empty slots it spans. */
  function Slotted(row: seq<Cell>): (r: Slots)
    ensures |r| >= |row|
  {
    if row == [] then []
    else
      var c := row[|row| - 1];
      Slotted(row[..|row| - 1]) + [Some(c)] + (if c.colspan > 1 then seq(c.colspan - 1, _ => None) else [])
  }

  ghost predicate SpannedRow(row: seq<Cell>) {
    forall i :: 0 <= i < |row| ==> row[i].colspan >= 1 && row[i].rowspan >= 1
  }

  lemma {:induction false} SlottedAt(row: seq<Cell>, i: nat)
    requires SpannedRow(row) && i < |row|
    ensures |Slotted(row)| == ColspanSum(row)
    ensures var p := ColspanSum(row[..i]);
            && p + row[i].colspan <= |Slotted(row)|
            && Slotted(row)[p] == Some(row[i])
    decreases |row|
  {
    var front := row[..|row| - 1];
    if front != [] {
      SlottedAt(front, if i < |front| then i else 0);
    }
    if i < |front| {
      assert front[..i] == row[..i];
    } else {
      assert row[..i] == front;
    }
  }

  lemma {:induction false} SlottedSpanned(row: seq<Cell>)
    requires SpannedRow(row)
    ensures forall k :: 0 <= k < |Slotted(row)| && Slotted(row)[k].Some? ==> Slotted(row)[k].value.colspan >= 1
  {
    if row != [] {
      SlottedSpanned(row[..|row| - 1]);
    }
  }

  /** Slotted first, a dense row is emitted whole. */
  lemma {:induction false} SlottedIsEmitted(row: seq<Cell>, i: nat)
    requires SpannedRow(row) && i <= |row|
    requires forall k :: 0 <= k < |Slotted(row)| && Slotted(row)[k].Some? ==> Slotted(row)[k].value.colspan >= 1
    ensures Emitted(Slotted(row), ColspanSum(row[..i])) == row[i..]
    decreases |row| - i
  {
    if row != [] {
      SlottedAt(row, 0);
    }
    if i < |row| {
      SlottedAt(row, i);
      assert row[..i + 1][..i] == row[..i];
      SlottedIsEmitted(row, i + 1);
    } else {
      assert row[..i] == row;
    }
  }

  /** A merged table survives its reprinting: slotted, printed and read again it is
      the same rows of the same cells, unless it is one column wide. */
  lemma MergedReprints(rows: Rows, slotted: Grid, head: nat)
    requires (forall r :: 0 <= r < |rows| ==> SpannedRow(rows[r])) && head <= |rows|
    requires |slotted| == |rows| && forall r :: 0 <= r < |rows| ==> slotted[r] == Slotted(rows[r])
    ensures forall r, i :: 0 <= r < |slotted| && 0 <= i < |slotted[r]| && slotted[r][i].Some? ==>
              slotted[r][i].value.colspan >= 1
    ensures ReadTable(Render(slotted, head)) ==
            if exists r | 0 <= r < |rows| :: ColspanSum(rows[r]) >= 2 then rows else []
  {
    NothingReads();
    forall r | 0 <= r < |rows|
      ensures |slotted[r]| == ColspanSum(rows[r])
    {
      if rows[r] != [] {
        SlottedAt(rows[r], 0);
      }
    }
    forall r | 0 <= r < |rows|
      ensures forall k :: 0 <= k < |slotted[r]| && slotted[r][k].Some? ==> slotted[r][k].value.colspan >= 1
    {
      SlottedSpanned(rows[r]);
    }
    forall r | 0 <= r < |rows|
      ensures EmittedRows(slotted)[r] == rows[r]
    {
      SlottedIsEmitted(rows[r], 0);
      assert rows[r][..0] == [];
    }
    assert EmittedRows(slotted) == rows;
    ReadPrintTable(rows, head);
  }

  /** Emitted without slots, a row loses each cell that follows a spanning one. */
  lemma DenseRowLosesCells(a: Cell, b: Cell)
    requires a.colspan == 2 && b.colspan == 1
    ensures Emitted([Some(a), Some(b)], 0) == [a]
  {
    assert Emitted([Some(a), Some(b)], 2) == [];
  }
}

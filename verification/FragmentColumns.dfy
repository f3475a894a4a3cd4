/** When the cells below a fused lead row stay in their columns. */
module FragmentColumns {
  import opened Common
  import opened Tables
  import opened FragmentMerge

  /** Slot (k, c) once the lead row's cells left of column `p` have been made
      explicit in row `k`: a blank cell at the corner of what each one covered. */
  ghost function FlatSlot(g: Grid, width: nat, own: (nat, nat) -> (nat, nat), k: nat, p: nat, c: nat): Option<Cell>
    requires TiledBy(g, width, own) && k < |g| && c < width
  {
    if c < p && k > 0 && own(k, c) == (0, c) then
      assert Covers(g, 0, c, k, c);
      Some(Cell("", g[0][c].value.colspan, 1))
    else g[k][c]
  }

  ghost function FlatRow(g: Grid, width: nat, own: (nat, nat) -> (nat, nat), k: nat, p: nat): (r: Slots)
    requires TiledBy(g, width, own) && k < |g|
    ensures |r| == width && forall c :: 0 <= c < width ==> r[c] == FlatSlot(g, width, own, k, p, c)
  {
    seq(width, c requires 0 <= c < width => FlatSlot(g, width, own, k, p, c))
  }

  /** How many of the first `c` columns of row `k` a cell between it and the lead row
      carries into. */
  function Lower(own: (nat, nat) -> (nat, nat), k: nat, c: nat): (n: nat)
    ensures n <= c
    ensures n == 0 <==> forall x :: 0 <= x < c ==> !(0 < own(k, x).0 < k)
  {
    if c == 0 then 0 else Lower(own, k, c - 1) + if 0 < own(k, c - 1).0 < k then 1 else 0
  }

  /** Nothing but lead cells carries into row `k` left of column `p`, or the row has
      no cell of its own right of it. */
  ghost predicate Lands(g: Grid, width: nat, own: (nat, nat) -> (nat, nat), k: nat, p: nat)
    requires TiledBy(g, width, own) && k < |g| && p < width
  {
    Lower(own, k, p) == 0 || forall c :: p < c < width ==> g[k][c].None?
  }

  /** That holds for every lead cell reaching row `k` from column `p` on. */
  ghost predicate Undisturbed(g: Grid, width: nat, own: (nat, nat) -> (nat, nat), k: nat, p: nat)
    requires TiledBy(g, width, own) && k < |g|
  {
    forall x :: p <= x < width && own(k, x) == (0, x) ==> Lands(g, width, own, k, x)
  }

  /** Row `k` after the insertions for the first `m` lead cells. */
  function RowAfter(row: seq<Cell>, lead: seq<Cell>, m: nat, k: nat): seq<Cell>
    requires m <= |lead|
  {
    if m == 0 then row
    else
      var before := RowAfter(row, lead, m - 1, k);
      if lead[m - 1].rowspan > k then InsertInRow(before, ColspanSum(lead[..m - 1]), lead[m - 1].colspan) else before
  }

  // ----- insertions, row by row ------------------------------------------------

  lemma {:induction false} InsertRowsBelow(body: Rows, from: nat, rowspan: nat, col: nat, colspan: nat, k: nat)
    requires k < |body|
    ensures InsertAll(body, RowsBelow(from, rowspan, col, colspan))[k] ==
            if from <= k < rowspan then InsertInRow(body[k], col, colspan) else body[k]
    decreases rowspan - from
  {
    if from < rowspan {
      var ins, rest := Insert(from, col, colspan), RowsBelow(from + 1, rowspan, col, colspan);
      InsertAllConcat(body, [ins], rest);
      assert InsertAll(body, [ins]) == InsertOne(body, ins) by { assert [ins][..0] == []; }
      InsertRowsBelow(InsertOne(body, ins), from + 1, rowspan, col, colspan, k);
    }
  }

  lemma {:induction false} InsertAllConcat(body: Rows, a: seq<Insert>, b: seq<Insert>)
    ensures InsertAll(body, a + b) == InsertAll(InsertAll(body, a), b)
  {
    if b == [] {
      assert a + b == a;
    } else {
      InsertAllConcat(body, a, b[..|b| - 1]);
      assert (a + b)[..|a + b| - 1] == a + b[..|b| - 1];
    }
  }

  lemma {:induction false} InsertAllRow(body: Rows, lead: seq<Cell>, m: nat, k: nat)
    requires 1 <= k < |body| && m <= |lead|
    ensures InsertAll(body, Inserts(lead[..m]))[k] == RowAfter(body[k], lead, m, k)
  {
    if m > 0 {
      InsertAllRow(body, lead, m - 1, k);
      assert lead[..m][..m - 1] == lead[..m - 1];
      var below := RowsBelow(1, lead[m - 1].rowspan, ColspanSum(lead[..m - 1]), lead[m - 1].colspan);
      InsertAllConcat(body, Inserts(lead[..m - 1]), below);
      InsertRowsBelow(InsertAll(body, Inserts(lead[..m - 1])), 1, lead[m - 1].rowspan,
                      ColspanSum(lead[..m - 1]), lead[m - 1].colspan, k);
    }
  }

  // ----- where the insertion lands ---------------------------------------------

  lemma {:induction false} SumGrows(row: seq<Cell>, i: nat, n: nat)
    requires i <= n <= |row| && forall j :: 0 <= j < |row| ==> row[j].colspan >= 1
    ensures ColspanSum(row[..i]) + (n - i) <= ColspanSum(row[..n])
    decreases n - i
  {
    if i < n {
      SumGrows(row, i, n - 1);
      assert row[..n][..n - 1] == row[..n - 1];
    }
  }

  /** The scan stops at the cell where the columns before it add up, or at the end of
      a row they fall short of; else it runs past the cell. */
  lemma {:induction false} IndexForLands(row: seq<Cell>, col: nat, n: nat, i: nat)
    requires i <= n <= |row| && forall j :: 0 <= j < |row| ==> row[j].colspan >= 1
    requires ColspanSum(row[..n]) <= col
    ensures n <= IndexFor(row, col, i, ColspanSum(row[..i]))
    ensures IndexFor(row, col, i, ColspanSum(row[..i])) == n <==> ColspanSum(row[..n]) == col || n == |row|
    decreases n - i
  {
    if i < n {
      SumGrows(row, i, n);
      assert row[..i + 1][..i] == row[..i];
      IndexForLands(row, col, n, i + 1);
    }
  }

  lemma {:induction false} DensePrefix(row: Slots, c: nat)
    requires c <= |row|
    ensures Rank(row, c) <= |Dense(row)| && Dense(row)[..Rank(row, c)] == Dense(row[..c])
    decreases |row|
  {
    if c < |row| {
      var front := row[..|row| - 1];
      DensePrefix(front, c);
      assert front[..c] == row[..c];
    } else {
      assert row[..c] == row;
    }
  }

  lemma {:induction false} DenseAllSpanned(row: Slots)
    requires forall c :: 0 <= c < |row| && row[c].Some? ==> row[c].value.colspan >= 1
    ensures forall i :: 0 <= i < |Dense(row)| ==> Dense(row)[i].colspan >= 1
  {
    if row != [] {
      DenseAllSpanned(row[..|row| - 1]);
    }
  }

  /** Filling one empty slot inserts one cell at its rank. */
  lemma {:induction false} DenseFillSlot(row: Slots, c: nat, cell: Cell)
    requires c < |row| && row[c].None?
    ensures Rank(row, c) <= |Dense(row)|
    ensures Dense(row[c := Some(cell)]) == Dense(row)[..Rank(row, c)] + [cell] + Dense(row)[Rank(row, c)..]
    decreases |row|
  {
    DensePrefix(row, c);
    var filled := row[c := Some(cell)];
    if c + 1 < |row| {
      var front := row[..|row| - 1];
      DenseFillSlot(front, c, cell);
      DensePrefix(front, c);
      assert front[..c] == row[..c];
      assert filled[..|row| - 1] == front[c := Some(cell)];
    } else {
      assert filled[..|row| - 1] == row[..c];
    }
  }

  // ----- the columns of a flattened row ----------------------------------------

  /** A piece of row `k` starts at column `c`. */
  ghost predicate Begins(own: (nat, nat) -> (nat, nat), width: nat, k: nat, c: nat) {
    c < width ==> own(k, c).1 == c
  }

  /** The piece at column `c`: its extent, its slots, the next column. */
  lemma PieceAt(g: Grid, width: nat, own: (nat, nat) -> (nat, nat), k: nat, p: nat, c: nat) returns (hi: nat)
    requires TiledBy(g, width, own) && 0 < k < |g| && c < width && c < p && Begins(own, width, k, c)
    ensures c < hi <= width && Begins(own, width, k, hi)
    ensures forall x :: c <= x < hi ==> own(k, x) == own(k, c)
    ensures own(k, c).0 <= k && (FlatSlot(g, width, own, k, p, c).Some? <==> own(k, c).0 in {0, k})
    ensures own(k, c).0 in {0, k} ==> FlatSlot(g, width, own, k, p, c).value.colspan == hi - c
    ensures forall x :: c < x < hi ==> FlatSlot(g, width, own, k, p, x).None?
  {
    var (r0, c0) := own(k, c);
    assert Covers(g, r0, c, k, c);
    hi := c + g[r0][c].value.colspan;
    assert Covers(g, r0, c, k, hi - 1);
    forall x | c <= x < hi
      ensures own(k, x) == (r0, c)
    {
      assert Covers(g, r0, c, k, x);
    }
    forall x | c < x < hi
      ensures g[k][x].None?
    {
      if g[k][x].Some? {
        assert Anchor(g, k, x) && Covers(g, k, x, k, x);
      }
    }
    assert g[k][c].Some? ==> Anchor(g, k, c) && Covers(g, k, c, k, c);
    if hi < width {
      var (r1, c1) := own(k, hi);
      assert Covers(g, r1, c1, k, hi);
      assert c1 <= hi - 1 <==> Covers(g, r1, c1, k, hi - 1);
    }
  }

  lemma {:induction false} LowerOver(own: (nat, nat) -> (nat, nat), k: nat, c: nat, hi: nat)
    requires c <= hi && forall x :: c <= x < hi ==> own(k, x) == own(k, c)
    ensures Lower(own, k, hi) == Lower(own, k, c) + if 0 < own(k, c).0 < k then hi - c else 0
    decreases hi
  {
    if c < hi {
      LowerOver(own, k, c, hi - 1);
    }
  }

  /** The pieces left of a column where one begins add up to it, less what lower rows
      carry into. */
  lemma {:induction false} FlatSum(g: Grid, width: nat, own: (nat, nat) -> (nat, nat), k: nat, p: nat, c: nat,
                                   target: nat)
    requires TiledBy(g, width, own) && 0 < k < |g| && c <= target <= p && target <= width
    requires Begins(own, width, k, c) && Begins(own, width, k, target)
    requires ColspanSum(Dense(FlatRow(g, width, own, k, p)[..c])) == c - Lower(own, k, c)
    ensures ColspanSum(Dense(FlatRow(g, width, own, k, p)[..target])) == target - Lower(own, k, target)
    decreases target - c
  {
    hide Dense, ColspanSum, Lower, TiledBy, FlatSlot;
    if c < target {
      var row := FlatRow(g, width, own, k, p);
      var hi := PieceAt(g, width, own, k, p, c);
      assert hi > target ==> own(k, target) == own(k, c);
      LowerOver(own, k, c, hi);
      if own(k, c).0 in {0, k} {
        LeadSum(row, c, hi);
      } else {
        DenseNoCell(row, c, hi);
      }
      FlatSum(g, width, own, k, p, hi, target);
    }
  }

  lemma {:induction false} DenseNoCell(row: Slots, c: nat, hi: nat)
    requires c <= hi <= |row| && forall x :: c <= x < hi ==> row[x].None?
    ensures Dense(row[..hi]) == Dense(row[..c])
    decreases hi
  {
    if c < hi {
      assert row[..hi][..hi - 1] == row[..hi - 1];
      DenseNoCell(row, c, hi - 1);
    }
  }

  lemma FlatSumFromStart(g: Grid, width: nat, own: (nat, nat) -> (nat, nat), k: nat, p: nat, target: nat)
    requires TiledBy(g, width, own) && 0 < k < |g| && target <= p && target <= width
    requires Begins(own, width, k, target)
    ensures ColspanSum(Dense(FlatRow(g, width, own, k, p)[..target])) == target - Lower(own, k, target)
  {
    if width > 0 {
      assert Covers(g, own(k, 0).0, own(k, 0).1, k, 0);
    }
    FlatSum(g, width, own, k, p, 0, target);
  }

  lemma OwnSlot(g: Grid, width: nat, own: (nat, nat) -> (nat, nat), k: nat, c: nat)
    requires TiledBy(g, width, own) && k < |g| && c < width
    ensures g[k][c].Some? ==> own(k, c) == (k, c)
  {
    assert Anchor(g, k, c) ==> Covers(g, k, c, k, c);
  }

  // ----- one insertion ---------------------------------------------------------

  /** Making explicit the lead cell at column `p` fills just its corner in a row
      it reaches, and nothing in a row it does not. */
  lemma FlatStep(g: Grid, width: nat, own: (nat, nat) -> (nat, nat), k: nat, p: nat)
    requires TiledBy(g, width, own) && 0 < k < |g| && p < width && own(0, p) == (0, p)
    ensures Anchor(g, 0, p) && p + g[0][p].value.colspan <= width
    ensures g[0][p].value.rowspan > k <==> own(k, p) == (0, p)
    ensures var lead, before := g[0][p].value, FlatRow(g, width, own, k, p);
            var after := FlatRow(g, width, own, k, p + lead.colspan);
            if own(k, p) == (0, p) then before[p].None? && after == before[p := Some(Cell("", lead.colspan, 1))]
            else after == before
    ensures Undisturbed(g, width, own, k, p)
        <==> ((own(k, p) == (0, p) ==> Lands(g, width, own, k, p))
              && Undisturbed(g, width, own, k, p + g[0][p].value.colspan))
  {
    AlignedAfterCell(g, width, own, 0, p);
    var lead, before := g[0][p].value, FlatRow(g, width, own, k, p);
    var hi := p + lead.colspan;
    var after := FlatRow(g, width, own, k, hi);
    assert Covers(g, own(k, p).0, own(k, p).1, k, p);
    if lead.rowspan > k {
      assert Covers(g, 0, p, k, p);
    }
    OwnSlot(g, width, own, k, p);
    forall c | p <= c < hi && own(k, c) == (0, c)
      ensures c == p
    {
      assert Covers(g, own(k, c).0, own(k, c).1, k, c);
      assert Covers(g, 0, c, 0, c);
    }
    hide Lands;
  }

  lemma FlatSpanned(g: Grid, width: nat, own: (nat, nat) -> (nat, nat), k: nat, p: nat)
    requires TiledBy(g, width, own) && k < |g|
    ensures forall i :: 0 <= i < |Dense(FlatRow(g, width, own, k, p))| ==>
        Dense(FlatRow(g, width, own, k, p))[i].colspan >= 1
  {
    var row := FlatRow(g, width, own, k, p);
    forall c | 0 <= c < width && row[c].Some?
      ensures row[c].value.colspan >= 1
    {
      assert row[c] == FlatSlot(g, width, own, k, p, c);
      if own(k, c) == (0, c) {
        assert Covers(g, 0, c, k, c);
      }
      if g[k][c].Some? {
        assert Anchor(g, k, c);
      }
    }
    DenseAllSpanned(row);
  }

  /** The blank for the lead cell at column `p` is inserted at its own place in row
      `k` if and only if no lower cell carries into the row left of it, or the row has
      no cell of its own right of it; else it lands behind such a cell. */
  lemma InsertionLands(g: Grid, width: nat, own: (nat, nat) -> (nat, nat), k: nat, p: nat)
    requires TiledBy(g, width, own) && 0 < k < |g| && p < width && own(k, p) == (0, p)
    ensures var row := FlatRow(g, width, own, k, p);
            && Rank(row, p) <= IndexFor(Dense(row), p, 0, 0)
            && (IndexFor(Dense(row), p, 0, 0) == Rank(row, p) <==> Lands(g, width, own, k, p))
    ensures !Lands(g, width, own, k, p) ==>
              Rank(FlatRow(g, width, own, k, p), p) < |Dense(FlatRow(g, width, own, k, p))|
    ensures ColspanSum(Dense(FlatRow(g, width, own, k, p)[..p])) == p - Lower(own, k, p)
  {
    hide Dense, ColspanSum, Lower, IndexFor;
    var row := FlatRow(g, width, own, k, p);
    FlatSumFromStart(g, width, own, k, p, p);
    DensePrefix(row, p);
    FlatSpanned(g, width, own, k, p);
    RestIsEmpty(row, p);
    NothingBehind(g, width, own, k, p);
    hide TiledBy, FlatRow;
    ScanLands(Dense(row), Rank(row, p), p, Lower(own, k, p));
  }

  lemma ScanLands(dense: seq<Cell>, n: nat, p: nat, low: nat)
    requires (forall j :: 0 <= j < |dense| ==> dense[j].colspan >= 1) && n <= |dense|
    requires low <= p && ColspanSum(dense[..n]) == p - low
    ensures n <= IndexFor(dense, p, 0, 0)
    ensures IndexFor(dense, p, 0, 0) == n <==> low == 0 || n == |dense|
  {
    assert dense[..0] == [];
    hide IndexFor;
    IndexForLands(dense, p, n, 0);
  }

  /** A row flat up to the lead cell's column has no cell from there on exactly when it
      has none of its own behind it. */
  lemma NothingBehind(g: Grid, width: nat, own: (nat, nat) -> (nat, nat), k: nat, p: nat)
    requires TiledBy(g, width, own) && 0 < k < |g| && p < width && own(k, p) == (0, p)
    ensures (forall c :: p <= c < width ==> FlatRow(g, width, own, k, p)[c].None?)
        <==> forall c :: p < c < width ==> g[k][c].None?
  {
    var row := FlatRow(g, width, own, k, p);
    OwnSlot(g, width, own, k, p);
    hide TiledBy;
    assert forall c :: p <= c < width ==> row[c] == g[k][c];
  }

  lemma {:induction false} RestIsEmpty(row: Slots, c: nat)
    requires c <= |row|
    ensures |Dense(row)| >= Rank(row, c)
    ensures |Dense(row)| == Rank(row, c) <==> forall x :: c <= x < |row| ==> row[x].None?
    decreases |row|
  {
    if c < |row| {
      var front := row[..|row| - 1];
      RestIsEmpty(front, c);
      assert front[..c] == row[..c];
      assert forall x :: c <= x < |front| ==> front[x] == row[x];
    } else {
      assert row[..c] == row;
    }
  }

  lemma InsertFillsSlot(g: Grid, width: nat, own: (nat, nat) -> (nat, nat), k: nat, p: nat)
    requires TiledBy(g, width, own) && 0 < k < |g| && p < width && own(k, p) == (0, p)
    requires Lands(g, width, own, k, p)
    requires Anchor(g, 0, p) && FlatRow(g, width, own, k, p)[p].None?
    ensures var row, cs := FlatRow(g, width, own, k, p), g[0][p].value.colspan;
            InsertInRow(Dense(row), p, cs) == Dense(row[p := Some(Cell("", cs, 1))])
  {
    InsertionLands(g, width, own, k, p);
    DenseFillSlot(FlatRow(g, width, own, k, p), p, Cell("", g[0][p].value.colspan, 1));
  }

  /** One lead cell further. */
  lemma RowAfterStep(g: Grid, width: nat, own: (nat, nat) -> (nat, nat), k: nat, p: nat, hi: nat, n: nat)
    requires TiledBy(g, width, own) && 0 < k < |g| && p < width && own(0, p) == (0, p)
    requires own(k, p) == (0, p) ==> Lands(g, width, own, k, p)
    requires Anchor(g, 0, p) && hi == p + g[0][p].value.colspan <= width
    requires n < |Dense(g[0])| && Dense(g[0])[n] == g[0][p].value && Dense(g[0])[..n] == Dense(g[0][..p])
    requires ColspanSum(Dense(g[0][..p])) == p
    requires RowAfter(Dense(g[k]), Dense(g[0]), n, k) == Dense(FlatRow(g, width, own, k, p))
    ensures RowAfter(Dense(g[k]), Dense(g[0]), n + 1, k) == Dense(FlatRow(g, width, own, k, hi))
  {
    hide FlatRow, Dense, InsertInRow, ColspanSum, TiledBy, Lands, Undisturbed;
    FlatStep(g, width, own, k, p);
    var lead := Dense(g[0]);
    var before := RowAfter(Dense(g[k]), lead, n, k);
    if own(k, p) == (0, p) {
      InsertFillsSlot(g, width, own, k, p);
      assert RowAfter(Dense(g[k]), lead, n + 1, k) == InsertInRow(before, ColspanSum(lead[..n]), lead[n].colspan);
    } else {
      assert RowAfter(Dense(g[k]), lead, n + 1, k) == before;
    }
  }

  // ----- a blank that lands too far right stays there --------------------------

  ghost predicate Spanned(row: seq<Cell>) { forall i :: 0 <= i < |row| ==> row[i].colspan >= 1 }

  /** Cell `at` has text and stands left of column `p`. */
  ghost predicate TextAt(row: seq<Cell>, at: nat, p: nat) {
    Spanned(row) && at < |row| && row[at].text != "" && ColspanSum(row[..at]) < p
  }

  lemma InsertBehindText(row: seq<Cell>, at: nat, p: nat, col: nat, colspan: nat)
    requires TextAt(row, at, p) && p <= col && colspan >= 1
    ensures TextAt(InsertInRow(row, col, colspan), at, p)
    ensures InsertInRow(row, col, colspan)[..at] == row[..at]
  {
    IndexForLands(row, col, at, 0);
    assert row[..0] == [];
    assert InsertInRow(row, col, colspan)[..at] == row[..at];
  }

  lemma {:induction false} TextStays(row: seq<Cell>, lead: seq<Cell>, m: nat, k: nat, at: nat, p: nat)
    requires m <= |lead| && Spanned(lead) && p <= ColspanSum(lead[..m]) && TextAt(RowAfter(row, lead, m, k), at, p)
    ensures TextAt(RowAfter(row, lead, |lead|, k), at, p) && at <= |RowAfter(row, lead, m, k)|
    ensures RowAfter(row, lead, |lead|, k)[..at] == RowAfter(row, lead, m, k)[..at]
    decreases |lead| - m
  {
    TextInside(RowAfter(row, lead, m, k), at, p);
    hide TextAt, InsertInRow;
    if m < |lead| {
      if lead[m].rowspan > k {
        InsertBehindText(RowAfter(row, lead, m, k), at, p, ColspanSum(lead[..m]), lead[m].colspan);
      }
      assert lead[..m + 1][..m] == lead[..m];
      TextStays(row, lead, m + 1, k, at, p);
    }
  }

  lemma TextInside(row: seq<Cell>, at: nat, p: nat)
    requires TextAt(row, at, p)
    ensures at < |row|
  {
  }

  /** Every own cell of the row has text. */
  ghost predicate Worded(g: Grid, k: nat)
    requires k < |g|
  {
    forall c :: 0 <= c < |g[k]| && g[k][c].Some? ==> g[k][c].value.text != ""
  }

  /** Row `k` has a text of its own where the flattened row has the blank for the lead
      cell at column `p`, and is as flattened before it. */
  ghost predicate MisplacedAt(g: Grid, width: nat, own: (nat, nat) -> (nat, nat), k: nat, row: seq<Cell>, p: nat)
    requires TiledBy(g, width, own) && k < |g| && p < width
  {
    var flat := FlatRow(g, width, own, k, width);
    var at := Rank(flat, p);
    && own(k, p) == (0, p) && at < |Dense(flat)| && at < |row|
    && Dense(flat)[at].text == "" && row[at].text != "" && row[at].colspan >= 1
    && row[..at] == Dense(flat)[..at]
  }

  ghost predicate Misplaced(g: Grid, width: nat, own: (nat, nat) -> (nat, nat), k: nat, row: seq<Cell>)
    requires TiledBy(g, width, own) && k < |g|
  {
    exists p :: 0 <= p < width && MisplacedAt(g, width, own, k, row, p)
  }

  lemma FlatRest(g: Grid, width: nat, own: (nat, nat) -> (nat, nat), k: nat, p: nat)
    requires TiledBy(g, width, own) && 0 < k < |g| && p < width && own(k, p) == (0, p)
    ensures var row, flat := FlatRow(g, width, own, k, p), FlatRow(g, width, own, k, width);
            && Rank(row, p) == Rank(flat, p) && Rank(flat, p) < |Dense(flat)| && Dense(flat)[Rank(flat, p)].text == ""
            && Rank(row, p) <= |Dense(row)| && Dense(row)[..Rank(row, p)] == Dense(flat)[..Rank(row, p)]
  {
    var row, flat := FlatRow(g, width, own, k, p), FlatRow(g, width, own, k, width);
    assert flat[p] == FlatSlot(g, width, own, k, width, p);
    assert row[..p] == flat[..p];
    DenseAt(flat, p);
    DensePrefix(row, p);
    DensePrefix(flat, p);
  }

  lemma {:induction false} RankedText(row: Slots, c: nat)
    requires c <= |row| && Rank(row, c) < |Dense(row)|
    requires forall x :: c <= x < |row| && row[x].Some? ==> row[x].value.text != ""
    ensures Dense(row)[Rank(row, c)].text != ""
    decreases |row| - c
  {
    hide Dense;
    assert row[..|row|] == row;
    if c < |row| {
      DenseAt(row, c);
      if row[c].None? {
        RankedText(row, c + 1);
      }
    }
  }

  /** The first blank to land too far right leaves a text in its place for good. */
  lemma MisplacedStays(g: Grid, width: nat, own: (nat, nat) -> (nat, nat), k: nat, p: nat, n: nat)
    requires TiledBy(g, width, own) && 0 < k < |g| && p < width && own(k, p) == (0, p) && Worded(g, k)
    requires !Lands(g, width, own, k, p)
    requires n < |Dense(g[0])| && ColspanSum(Dense(g[0])[..n]) == p
    requires RowAfter(Dense(g[k]), Dense(g[0]), n, k) == Dense(FlatRow(g, width, own, k, p))
    ensures Misplaced(g, width, own, k, RowAfter(Dense(g[k]), Dense(g[0]), |Dense(g[0])|, k))
  {
    var row, lead := FlatRow(g, width, own, k, p), Dense(g[0]);
    var at := Rank(row, p);
    InsertionLands(g, width, own, k, p);
    FlatSpanned(g, width, own, k, p);
    LeadSpanned(g, width, own);
    DensePrefix(row, p);
    TextBehind(g, width, own, k, p);
    hide Dense, ColspanSum, Lower, FlatRow, Lands, Rank;
    TextStays(Dense(g[k]), lead, n, k, at, p);
    FlatRest(g, width, own, k, p);
    assert MisplacedAt(g, width, own, k, RowAfter(Dense(g[k]), lead, |lead|, k), p);
  }

  lemma MisplacedIsNotFlat(g: Grid, width: nat, own: (nat, nat) -> (nat, nat), k: nat, row: seq<Cell>)
    requires TiledBy(g, width, own) && k < |g| && Misplaced(g, width, own, k, row)
    ensures row != Dense(FlatRow(g, width, own, k, width))
  {
    hide FlatRow, Dense, Rank;
  }

  lemma TextBehind(g: Grid, width: nat, own: (nat, nat) -> (nat, nat), k: nat, p: nat)
    requires TiledBy(g, width, own) && 0 < k < |g| && p < width && Worded(g, k)
    requires Rank(FlatRow(g, width, own, k, p), p) < |Dense(FlatRow(g, width, own, k, p))|
    ensures Dense(FlatRow(g, width, own, k, p))[Rank(FlatRow(g, width, own, k, p), p)].text != ""
  {
    var row := FlatRow(g, width, own, k, p);
    forall x | p <= x < |row| && row[x].Some?
      ensures row[x].value.text != ""
    {
      assert row[x] == g[k][x];
    }
    RankedText(row, p);
  }

  lemma LeadSpanned(g: Grid, width: nat, own: (nat, nat) -> (nat, nat))
    requires TiledBy(g, width, own) && |g| > 0
    ensures Spanned(Dense(g[0]))
  {
    forall c | 0 <= c < |g[0]| && g[0][c].Some?
      ensures g[0][c].value.colspan >= 1
    {
      assert Anchor(g, 0, c);
    }
    DenseAllSpanned(g[0]);
  }

  // ----- the expansion is the flattening ---------------------------------------

  lemma {:induction false} RowAfterIsFlat(g: Grid, width: nat, own: (nat, nat) -> (nat, nat), k: nat, p: nat, n: nat)
    requires TiledBy(g, width, own) && 0 < k < |g| && p <= width && Aligned(g, own, width, 0, p)
    requires n == Rank(g[0], p) <= |Dense(g[0])| && ColspanSum(Dense(g[0][..p])) == p
    requires RowAfter(Dense(g[k]), Dense(g[0]), n, k) == Dense(FlatRow(g, width, own, k, p))
    ensures var row := RowAfter(Dense(g[k]), Dense(g[0]), |Dense(g[0])|, k);
            if Undisturbed(g, width, own, k, p) then row == Dense(FlatRow(g, width, own, k, width))
            else Worded(g, k) ==> Misplaced(g, width, own, k, row)
    decreases width - p
  {
    hide RowAfter, FlatRow, Dense, Lands, Worded, Misplaced, ColspanSum;
    if p < width {
      var hi := NextLead(g, width, own, p);
      FlatStep(g, width, own, k, p);
      hide Undisturbed, TiledBy, Rank;
      if own(k, p) == (0, p) && !Lands(g, width, own, k, p) {
        if Worded(g, k) {
          MisplacedStays(g, width, own, k, p, n);
        }
      } else {
        RowAfterStep(g, width, own, k, p, hi, n);
        RowAfterIsFlat(g, width, own, k, hi, n + 1);
      }
    } else {
      assert g[0][..p] == g[0];
    }
  }

  /** The lead cell at column `p`, and the column behind it. */
  lemma NextLead(g: Grid, width: nat, own: (nat, nat) -> (nat, nat), p: nat) returns (hi: nat)
    requires TiledBy(g, width, own) && 0 < |g| && p < width && Aligned(g, own, width, 0, p)
    requires ColspanSum(Dense(g[0][..p])) == p
    ensures own(0, p) == (0, p) && Anchor(g, 0, p) && hi == p + g[0][p].value.colspan && p < hi <= width
    ensures Aligned(g, own, width, 0, hi) && ColspanSum(Dense(g[0][..hi])) == hi
    ensures Rank(g[0], hi) == Rank(g[0], p) + 1 <= |Dense(g[0])| && Dense(g[0])[Rank(g[0], p)] == g[0][p].value
    ensures Dense(g[0])[..Rank(g[0], p)] == Dense(g[0][..p])
  {
    hide Dense, ColspanSum;
    assert Covers(g, own(0, p).0, own(0, p).1, 0, p);
    AlignedAfterCell(g, width, own, 0, p);
    hi := p + g[0][p].value.colspan;
    hide TiledBy;
    LeadCellAt(g[0], p, hi);
    LeadSum(g[0], p, hi);
  }

  lemma LeadSum(row: Slots, p: nat, hi: nat)
    requires p < hi <= |row| && row[p].Some? && forall c :: p < c < hi ==> row[c].None?
    ensures ColspanSum(Dense(row[..hi])) == ColspanSum(Dense(row[..p])) + row[p].value.colspan
  {
    DenseOneCell(row, p, hi);
    assert Dense(row[..hi])[..|Dense(row[..p])|] == Dense(row[..p]);
  }

  lemma LeadCellAt(row: Slots, p: nat, hi: nat)
    requires p < hi <= |row| && row[p].Some? && forall c :: p < c < hi ==> row[c].None?
    ensures Rank(row, hi) == Rank(row, p) + 1 <= |Dense(row)|
    ensures Dense(row)[Rank(row, p)] == row[p].value
    ensures Dense(row)[..Rank(row, p)] == Dense(row[..p])
    ensures Dense(row[..hi]) == Dense(row[..p]) + [row[p].value]
  {
    DenseOneCell(row, p, hi);
    DensePrefix(row, p);
    DensePrefix(row, hi);
    DenseAt(row, p);
  }

  /** `_expand_lead_rowspans` on a tiling is its flattening in every row whose blanks
      all land, and, where the row's own cells have text, in no other: there the first
      blank to miss its place has a text standing in it. */
  lemma ExpandIsFlat(g: Grid, width: nat, own: (nat, nat) -> (nat, nat), k: nat)
    requires TiledBy(g, width, own) && 0 < k < |g|
    ensures var row := ExpandLead(DenseRows(g))[k];
            var flat := row == Dense(FlatRow(g, width, own, k, width));
            && (Undisturbed(g, width, own, k, 0) ==> flat)
            && (Worded(g, k) ==> (flat <==> Undisturbed(g, width, own, k, 0)))
            && (Worded(g, k) ==> (Misplaced(g, width, own, k, row) <==> !Undisturbed(g, width, own, k, 0)))
  {
    ExpandedRow(g, k);
    StartFlat(g, width, own, k);
    hide ExpandLead, RowAfter, FlatRow, Dense, Worded, Undisturbed, Misplaced;
    RowAfterIsFlat(g, width, own, k, 0, 0);
    if Misplaced(g, width, own, k, ExpandLead(DenseRows(g))[k]) {
      MisplacedIsNotFlat(g, width, own, k, ExpandLead(DenseRows(g))[k]);
    }
  }

  lemma ExpandedRow(g: Grid, k: nat)
    requires 0 < k < |g|
    ensures ExpandLead(DenseRows(g))[k] == RowAfter(Dense(g[k]), Dense(g[0]), |Dense(g[0])|, k)
  {
    hide RowAfter, Dense;
    var body, lead := DenseRows(g), Dense(g[0]);
    assert lead[..|lead|] == lead;
    InsertAllRow(body[0 := LoweredRow(lead)], lead, |lead|, k);
  }

  lemma StartFlat(g: Grid, width: nat, own: (nat, nat) -> (nat, nat), k: nat)
    requires TiledBy(g, width, own) && 0 < k < |g|
    ensures Aligned(g, own, width, 0, 0) && Rank(g[0], 0) == 0 && ColspanSum(Dense(g[0][..0])) == 0
    ensures RowAfter(Dense(g[k]), Dense(g[0]), 0, k) == Dense(FlatRow(g, width, own, k, 0))
  {
    forall c | 0 <= c < width
      ensures FlatRow(g, width, own, k, 0)[c] == g[k][c]
    {}
    assert FlatRow(g, width, own, k, 0) == g[k];
    if width > 0 {
      assert Covers(g, own(0, 0).0, own(0, 0).1, 0, 0);
    }
    assert g[0][..0] == [];
  }

  /** A row adds up to the table's width less what lower cells carry into it. */
  lemma LaterRowsAreWhole(g: Grid, width: nat, own: (nat, nat) -> (nat, nat), k: nat)
    requires TiledBy(g, width, own) && 0 < k < |g| && Undisturbed(g, width, own, k, 0)
    ensures ColspanSum(ExpandLead(DenseRows(g))[k]) == width - Lower(own, k, width)
  {
    hide ExpandLead, Undisturbed, Misplaced, Worded;
    ExpandIsFlat(g, width, own, k);
    var flat := FlatRow(g, width, own, k, width);
    FlatSumFromStart(g, width, own, k, width, width);
    assert flat[..width] == flat;
  }

  /** Where no cell below the lead row spans rows, every blank lands. */
  lemma LeadAloneLands(g: Grid, width: nat, own: (nat, nat) -> (nat, nat), k: nat)
    requires TiledBy(g, width, own) && k < |g|
    requires forall r: nat, c: nat :: Anchor(g, r, c) && r >= 1 ==> g[r][c].value.rowspan == 1
    ensures Undisturbed(g, width, own, k, 0)
  {
    forall x | 0 <= x < width
      ensures own(k, x).0 in {0, k}
    {
      assert Covers(g, own(k, x).0, own(k, x).1, k, x);
    }
  }
}

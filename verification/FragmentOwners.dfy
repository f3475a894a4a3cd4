/** Who owns the cells below a fused lead row. */
module FragmentOwners {
  import opened Common
  import opened Tables
  import opened FragmentMerge
  import opened FragmentColumns

  // ----- the rows below the lead row -------------------------------------------

  ghost function FlatBelow(g: Grid, width: nat, own: (nat, nat) -> (nat, nat)): (f: Grid)
    requires TiledBy(g, width, own) && |g| > 0
    ensures |f| == |g| - 1 && forall k :: 0 <= k < |f| ==> f[k] == FlatRow(g, width, own, k + 1, width)
  {
    seq(|g| - 1, k requires 0 <= k < |g| - 1 => FlatRow(g, width, own, k + 1, width))
  }

  /** The owner of a position below the lead row: the blank in its own row for a lead
      cell, the same cell otherwise. */
  function OwnerBelow(own: (nat, nat) -> (nat, nat), r: nat, c: nat): (nat, nat) {
    var o := own(r + 1, c);
    if o.0 == 0 then (r, o.1) else (o.0 - 1, o.1)
  }

  function OwnBelow(own: (nat, nat) -> (nat, nat)): (nat, nat) -> (nat, nat) {
    (r: nat, c: nat) => OwnerBelow(own, r, c)
  }

  lemma FlatOwner(g: Grid, width: nat, own: (nat, nat) -> (nat, nat), r: nat, c: nat)
    requires TiledBy(g, width, own) && r + 1 < |g| && c < width
    ensures var o := OwnBelow(own)(r, c); Covers(FlatBelow(g, width, own), o.0, o.1, r, c)
  {
    var (r0, c0) := own(r + 1, c);
    assert Covers(g, r0, c0, r + 1, c);
    if r0 == 0 {
      assert Covers(g, 0, c0, r + 1, c0);
      assert FlatRow(g, width, own, r + 1, width)[c0] == FlatSlot(g, width, own, r + 1, width, c0);
    } else {
      assert Covers(g, r0, c0, r0, c0);
      assert FlatRow(g, width, own, r0, width)[c0] == FlatSlot(g, width, own, r0, width, c0);
    }
  }

  lemma FlatCovers(g: Grid, width: nat, own: (nat, nat) -> (nat, nat), r0: nat, c0: nat, r: nat, c: nat)
    requires TiledBy(g, width, own) && r + 1 < |g| && Covers(FlatBelow(g, width, own), r0, c0, r, c)
    ensures c < width && OwnBelow(own)(r, c) == (r0, c0)
  {
    assert FlatRow(g, width, own, r0 + 1, width)[c0] == FlatSlot(g, width, own, r0 + 1, width, c0);
    if own(r0 + 1, c0) == (0, c0) {
      assert Covers(g, 0, c0, r0 + 1, c0);
      assert Covers(g, 0, c0, r + 1, c);
    } else {
      assert Covers(g, r0 + 1, c0, r + 1, c);
    }
  }

  lemma FlatSpans(g: Grid, width: nat, own: (nat, nat) -> (nat, nat), r: nat, c: nat)
    requires TiledBy(g, width, own) && |g| > 0 && Anchor(FlatBelow(g, width, own), r, c)
    ensures var cell := FlatBelow(g, width, own)[r][c].value; cell.colspan >= 1 && cell.rowspan >= 1
  {
    assert FlatRow(g, width, own, r + 1, width)[c] == FlatSlot(g, width, own, r + 1, width, c);
    if own(r + 1, c) == (0, c) {
      assert Covers(g, 0, c, r + 1, c);
    } else {
      assert Anchor(g, r + 1, c);
    }
  }

  /** The flattened rows below the lead row are a tiling by themselves. */
  lemma FlatTiles(g: Grid, width: nat, own: (nat, nat) -> (nat, nat))
    requires TiledBy(g, width, own) && |g| > 0
    ensures TiledBy(FlatBelow(g, width, own), width, OwnBelow(own))
  {
    hide Covers;
    var f, o := FlatBelow(g, width, own), OwnBelow(own);
    forall r: nat, c: nat | r < |f| && c < width
      ensures Covers(f, o(r, c).0, o(r, c).1, r, c)
    {
      FlatOwner(g, width, own, r, c);
    }
    forall r0: nat, c0: nat, r: nat, c: nat | r < |f| && Covers(f, r0, c0, r, c)
      ensures c < width && o(r, c) == (r0, c0)
    {
      FlatCovers(g, width, own, r0, c0, r, c);
    }
    forall r: nat, c: nat | Anchor(f, r, c)
      ensures f[r][c].value.colspan >= 1 && f[r][c].value.rowspan >= 1
    {
      FlatSpans(g, width, own, r, c);
    }
  }

  lemma RowsAreFlat(g: Grid, width: nat, own: (nat, nat) -> (nat, nat))
    requires TiledBy(g, width, own) && |g| > 0 && forall r :: 1 <= r < |g| ==> Undisturbed(g, width, own, r, 0)
    ensures ExpandLead(DenseRows(g))[1..] == DenseRows(FlatBelow(g, width, own))
  {
    hide Undisturbed, TiledBy, ExpandLead;
    var rows, f := ExpandLead(DenseRows(g))[1..], FlatBelow(g, width, own);
    forall r | 0 <= r < |f|
      ensures rows[r] == Dense(f[r])
    {
      ExpandIsFlat(g, width, own, r + 1);
    }
  }

  /** The cell that owns a position below the lead row. */
  lemma FlatOwnerCell(g: Grid, width: nat, own: (nat, nat) -> (nat, nat), k: nat, c: nat)
    requires TiledBy(g, width, own) && 0 < k < |g| && c < width
    ensures var f, o := FlatBelow(g, width, own), OwnBelow(own)(k - 1, c);
            && Anchor(f, o.0, o.1)
            && if own(k, c).0 == 0 then o.0 == k - 1 && f[o.0][o.1].value.text == ""
               else o.0 == own(k, c).0 - 1 && f[o.0][o.1] == g[own(k, c).0][own(k, c).1]
  {
    var (r0, c0) := own(k, c);
    assert Covers(g, r0, c0, k, c);
    if r0 == 0 {
      assert Covers(g, 0, c0, k, c0);
      assert FlatRow(g, width, own, k, width)[c0] == FlatSlot(g, width, own, k, width, c0);
    } else {
      assert Covers(g, r0, c0, r0, c0);
      assert FlatRow(g, width, own, r0, width)[c0] == FlatSlot(g, width, own, r0, width, c0);
    }
  }

  /** Below the fused lead row position (k, c) has the owner it had: the same cell, or a
      blank of its own row for a lead cell. */
  ghost predicate Keeps(g: Grid, own: (nat, nat) -> (nat, nat), rows: Rows, k: nat, c: nat)
    requires 0 < k < |g|
  {
    && k - 1 < |rows| && c < StructWidth(rows) && OwnersOf(rows)[k - 1][c].Some?
    && var id := OwnersOf(rows)[k - 1][c].value;
       && id.0 < |rows| && id.1 < |rows[id.0]|
       && (if own(k, c).0 == 0 then id.0 == k - 1 && rows[id.0][id.1].text == ""
           else id.0 == own(k, c).0 - 1 && Anchor(g, own(k, c).0, own(k, c).1)
                && rows[id.0][id.1] == g[own(k, c).0][own(k, c).1].value)
  }

  /** In a tiling's rows every position has the owner the tiling gives it. */
  lemma TilingKeeps(f: Grid, width: nat, o: (nat, nat) -> (nat, nat), r: nat, c: nat)
    requires TiledBy(f, width, o) && r < |f| && c < width
    ensures var rows := DenseRows(f);
            && StructWidth(rows) == width && OwnersOf(rows)[r][c].Some?
            && var id := OwnersOf(rows)[r][c].value;
               && id.0 == o(r, c).0 < |rows| && id.1 < |rows[id.0]|
               && Some(rows[id.0][id.1]) == f[o(r, c).0][o(r, c).1]
  {
    TilingOwners(f, width, o, r, c);
  }

  lemma KeepsCell(g: Grid, own: (nat, nat) -> (nat, nat), rows: Rows, k: nat, c: nat, id: Id, cell: Cell)
    requires 0 < k < |g| && k - 1 < |rows| && c < StructWidth(rows) && OwnersOf(rows)[k - 1][c] == Some(id)
    requires id.0 < |rows| && id.1 < |rows[id.0]| && rows[id.0][id.1] == cell
    requires own(k, c).0 == 0 ==> id.0 == k - 1 && cell.text == ""
    requires own(k, c).0 != 0 ==> id.0 == own(k, c).0 - 1 && Anchor(g, own(k, c).0, own(k, c).1)
    requires own(k, c).0 != 0 ==> cell == g[own(k, c).0][own(k, c).1].value
    ensures Keeps(g, own, rows, k, c)
  {
    hide OwnersOf, StructWidth;
  }

  /** Fusing away a lead row whose blanks all land leaves the rows below owned as
      they were: at every position the same cell, or a blank for the lead cell. */
  lemma LaterCellsKeepTheirColumns(g: Grid, width: nat, own: (nat, nat) -> (nat, nat), k: nat, c: nat)
    requires TiledBy(g, width, own) && 0 < k < |g| && c < width
    requires forall r :: 1 <= r < |g| ==> Undisturbed(g, width, own, r, 0)
    ensures Keeps(g, own, ExpandLead(DenseRows(g))[1..], k, c)
  {
    hide Undisturbed, ExpandLead, OwnersOf, StructWidth, FlatBelow, TiledBy, Keeps, Dense;
    var rows, f := ExpandLead(DenseRows(g))[1..], FlatBelow(g, width, own);
    RowsAreFlat(g, width, own);
    FlatTiles(g, width, own);
    FlatOwnerCell(g, width, own, k, c);
    TilingKeeps(f, width, OwnBelow(own), k - 1, c);
    var id := OwnersOf(rows)[k - 1][c].value;
    OwnedInGrid(g, width, own, k, c);
    KeepsCell(g, own, rows, k, c, id, rows[id.0][id.1]);
  }

  lemma OwnedInGrid(g: Grid, width: nat, own: (nat, nat) -> (nat, nat), k: nat, c: nat)
    requires TiledBy(g, width, own) && k < |g| && c < width
    ensures Anchor(g, own(k, c).0, own(k, c).1)
  {
    assert Covers(g, own(k, c).0, own(k, c).1, k, c);
  }

  // ----- where a blank does not land -------------------------------------------

  lemma {:induction false} FilledStays(row: seq<Cell>, r: nat, w: nat, i: nat, st: RowState, k: nat)
    requires k < w && k < |st.slots|
    ensures FillRow(row, r, w, i, st).slots[k] == st.slots[k]
    decreases |st.slots| - w, |row| - i
  {
    hide Claim, CarryOver;
    if w >= |st.slots| {
    } else if Carries(st.pending, w) {
      var next := OneCarry(row, r, w, i, st);
      hide FillRow;
      FilledStays(row, r, w + 1, i, next, k);
    } else if i >= |row| {
      FilledStays(row, r, w + 1, i, st, k);
    } else {
      FillCell(row, r, w, i, st);
      hide FillRow;
      var hi := Min(|st.slots|, w + row[i].colspan);
      ClaimedElsewhere(st.slots, w, hi, (r, i), k);
      FilledStays(row, r, w + row[i].colspan, i + 1,
                  RowState(Claim(st.slots, w, hi, (r, i)), CarryOver(st.pending, w, hi, row[i].rowspan, (r, i))), k);
    }
  }

  lemma ClaimedElsewhere(slots: Owners, lo: nat, hi: nat, id: Id, k: nat)
    requires k < lo && k < |slots|
    ensures Claim(slots, lo, hi, id)[k] == slots[k]
  {
  }

  lemma {:induction false} RankGrows(row: Slots, c: nat, p: nat)
    requires c <= p <= |row|
    ensures Rank(row, c) <= Rank(row, p) <= |Dense(row)|
    decreases p
  {
    hide Dense;
    if c < p {
      RankGrows(row, c, p - 1);
      DenseAt(row, p - 1);
    }
    RestIsEmpty(row, p);
  }

  /** The cell that takes column `p` of a row which is a tiling's row only up to there. */
  lemma {:induction false} PrefixOwner(g: Grid, width: nat, own: (nat, nat) -> (nat, nat), r: nat, c: nat, st: RowState,
                                       row: seq<Cell>, p: nat)
    requires TiledBy(g, width, own) && r < |g| && c <= p < width && Aligned(g, own, width, r, c)
    requires RowInvariant(g, width, own, r, c, st) && own(r, p) == (r, p)
    requires Rank(g[r], p) <= |Dense(g[r])| && Rank(g[r], p) < |row| && row[Rank(g[r], p)].colspan >= 1
    requires row[..Rank(g[r], p)] == Dense(g[r])[..Rank(g[r], p)]
    ensures |FillRow(row, r, c, Rank(g[r], c), st).slots| == width
    ensures FillRow(row, r, c, Rank(g[r], c), st).slots[p] == Some((r, Rank(g[r], p)))
    decreases p - c
  {
    hide RowInvariant, Claim, CarryOver, Dense, TiledBy, Rank, Carries;
    RowFits(g, width, own, r, c, st);
    var at := Rank(g[r], p);
    if c == p {
      TakesColumn(g, width, own, r, p, st, row);
    } else {
      DenseAt(g[r], c);
      RankGrows(g[r], c + 1, p);
      if own(r, c).0 < r {
        CarryStep(g, width, own, r, c, st);
        AlignedAfterCarry(g, width, own, r, c);
        var carry := st.pending[c];
        PrefixOwner(g, width, own, r, c + 1,
                    RowState(st.slots[c := Some(carry.owner)], st.pending[c := Carry(carry.left - 1, carry.owner)]),
                    row, p);
      } else {
        CarriedFromAbove(g, width, own, r, c);
        AlignedAfterCell(g, width, own, r, c);
        var cell := g[r][c].value;
        var hi, id := c + cell.colspan, (r, Rank(g[r], c));
        assert hi <= p;
        assert row[id.1] == row[..at][id.1] == Dense(g[r])[id.1] == cell;
        var slots, next := Claim(st.slots, c, hi, id), CarryOver(st.pending, c, hi, cell.rowspan, id);
        CellStep(g, width, own, r, c, hi, st, slots, next);
        RankSkipsEmpty(g[r], c + 1, hi);
        PrefixOwner(g, width, own, r, hi, RowState(slots, next), row, p);
      }
    }
  }

  lemma TakesColumn(g: Grid, width: nat, own: (nat, nat) -> (nat, nat), r: nat, p: nat, st: RowState, row: seq<Cell>)
    requires TiledBy(g, width, own) && r < |g| && p < width && RowInvariant(g, width, own, r, p, st)
        && own(r, p) == (r, p)
    requires Rank(g[r], p) < |row| && row[Rank(g[r], p)].colspan >= 1
    ensures |FillRow(row, r, p, Rank(g[r], p), st).slots| == width
    ensures FillRow(row, r, p, Rank(g[r], p), st).slots[p] == Some((r, Rank(g[r], p)))
  {
    hide RowInvariant, Rank, CarryOver, Carries, Claim;
    RowFits(g, width, own, r, p, st);
    AlignedAfterCell(g, width, own, r, p);
    hide TiledBy;
    var cell := g[r][p].value;
    CellColumns(g, width, own, r, p, p + cell.colspan, st,
                CarryOver(st.pending, p, p + cell.colspan, cell.rowspan, (r, Rank(g[r], p))));
    TakesFreeColumn(row, r, p, Rank(g[r], p), st);
  }

  lemma TakesFreeColumn(row: seq<Cell>, r: nat, p: nat, at: nat, st: RowState)
    requires p < |st.slots| && !Carries(st.pending, p) && at < |row| && row[at].colspan >= 1
    ensures FillRow(row, r, p, at, st).slots[p] == Some((r, at))
  {
    FillCell(row, r, p, at, st);
    hide FillRow, CarryOver, Carries;
    var hi := Min(|st.slots|, p + row[at].colspan);
    var next := RowState(Claim(st.slots, p, hi, (r, at)), CarryOver(st.pending, p, hi, row[at].rowspan, (r, at)));
    FilledStays(row, r, p + row[at].colspan, at + 1, next, p);
  }

  lemma {:induction false} SameRowsAbove(a: Rows, b: Rows, width: nat, n: nat)
    requires n <= |a| && n <= |b| && forall i :: 0 <= i < n ==> a[i] == b[i]
    ensures FillRows(a, width, n) == FillRows(b, width, n)
  {
    hide FillRow, Unowned;
    if n > 0 {
      SameRowsAbove(a, b, width, n - 1);
    }
  }

  lemma {:induction false} OwnersOfRow(rows: Rows, width: nat, n: nat, r: nat)
    requires r < n <= |rows|
    ensures FillRows(rows, width, n).owners[r]
         == FillRow(rows[r], r, 0, 0, RowState(Unowned(width), FillRows(rows, width, r).pending)).slots
  {
    hide FillRow, Unowned;
    if r < n - 1 {
      OwnersOfRow(rows, width, n - 1, r);
    }
  }

  /** A row flat only up to column `p`, under rows that are flat: its first cell that is
      not takes the column. */
  lemma MisplacedOwner(f: Grid, width: nat, o: (nat, nat) -> (nat, nat), rows: Rows, r: nat, p: nat)
    requires TiledBy(f, width, o) && r < |f| && r < |rows| && p < width && o(r, p) == (r, p)
        && StructWidth(rows) == width
    requires forall i :: 0 <= i < r ==> rows[i] == Dense(f[i])
    requires Rank(f[r], p) <= |Dense(f[r])| && Rank(f[r], p) < |rows[r]| && rows[r][Rank(f[r], p)].colspan >= 1
    requires rows[r][..Rank(f[r], p)] == Dense(f[r])[..Rank(f[r], p)]
    ensures OwnersOf(rows)[r][p] == Some((r, Rank(f[r], p)))
  {
    FillRowsTiled(f, width, o, r);
    hide Dense, Rank, RowInvariant, RowsInvariant, FillRow, TiledBy;
    SameRowsAbove(rows, DenseRows(f), width, r);
    var above := FillRows(rows, width, r);
    StartRow(f, width, o, r, above);
    RankOfZero(f[r]);
    PrefixOwner(f, width, o, r, 0, RowState(Unowned(width), above.pending), rows[r], p);
    OwnersOfRow(rows, width, |rows|, r);
  }

  /** The row below the lead row has no cell between, so it is whole. */
  lemma FirstRowIsWhole(g: Grid, width: nat, own: (nat, nat) -> (nat, nat))
    requires TiledBy(g, width, own) && |g| > 1
    ensures Undisturbed(g, width, own, 1, 0) && StructWidth(ExpandLead(DenseRows(g))[1..]) == width
  {
    hide ExpandLead;
    LaterRowsAreWhole(g, width, own, 1);
  }

  /** The text out of place takes the blank's column. */
  lemma MisplacedTakes(g: Grid, width: nat, own: (nat, nat) -> (nat, nat), k: nat, p: nat, rows: Rows) returns (at: nat)
    requires TiledBy(g, width, own) && 0 < k < |g| && p < width && rows == ExpandLead(DenseRows(g))[1..]
    requires forall r :: 1 <= r < k ==> Undisturbed(g, width, own, r, 0)
    requires MisplacedAt(g, width, own, k, rows[k - 1], p)
    ensures own(k, p).0 == 0 && k - 1 < |OwnersOf(rows)| && p < |OwnersOf(rows)[k - 1]|
    ensures OwnersOf(rows)[k - 1][p] == Some((k - 1, at)) && at < |rows[k - 1]| && rows[k - 1][at].text != ""
  {
    hide Undisturbed, ExpandLead, OwnersOf, StructWidth, TiledBy, Rank, Dense, MisplacedAt, FlatBelow, FlatRow;
    FirstRowIsWhole(g, width, own);
    FlatAbove(g, width, own, k);
    MisplacedFacts(g, width, own, k, rows[k - 1], p);
    FlatTiles(g, width, own);
    at := Rank(FlatBelow(g, width, own)[k - 1], p);
    MisplacedOwner(FlatBelow(g, width, own), width, OwnBelow(own), rows, k - 1, p);
  }

  /** The first row with a blank out of place has another owner there. */
  lemma MisplacedIsNotKept(g: Grid, width: nat, own: (nat, nat) -> (nat, nat), k: nat, p: nat)
    requires TiledBy(g, width, own) && 0 < k < |g| && p < width
    requires forall r :: 1 <= r < k ==> Undisturbed(g, width, own, r, 0)
    requires MisplacedAt(g, width, own, k, ExpandLead(DenseRows(g))[k], p)
    ensures !Keeps(g, own, ExpandLead(DenseRows(g))[1..], k, p)
  {
    hide Undisturbed, ExpandLead, OwnersOf, StructWidth, TiledBy, MisplacedAt;
    var at := MisplacedTakes(g, width, own, k, p, ExpandLead(DenseRows(g))[1..]);
  }

  lemma FlatAbove(g: Grid, width: nat, own: (nat, nat) -> (nat, nat), k: nat)
    requires TiledBy(g, width, own) && 0 < k < |g| && forall r :: 1 <= r < k ==> Undisturbed(g, width, own, r, 0)
    ensures forall i :: 0 <= i < k - 1 ==> ExpandLead(DenseRows(g))[1..][i] == Dense(FlatBelow(g, width, own)[i])
  {
    hide Undisturbed, ExpandLead, TiledBy, Dense, Misplaced, Worded;
    forall i | 0 <= i < k - 1
      ensures ExpandLead(DenseRows(g))[1..][i] == Dense(FlatBelow(g, width, own)[i])
    {
      ExpandIsFlat(g, width, own, i + 1);
    }
  }

  lemma MisplacedFacts(g: Grid, width: nat, own: (nat, nat) -> (nat, nat), k: nat, row: seq<Cell>, p: nat)
    requires TiledBy(g, width, own) && 0 < k < |g| && p < width && MisplacedAt(g, width, own, k, row, p)
    ensures own(k, p) == (0, p) && OwnBelow(own)(k - 1, p) == (k - 1, p)
    ensures var flat := FlatBelow(g, width, own)[k - 1];
            && |flat| == width && Rank(flat, p) <= |Dense(flat)| && Rank(flat, p) < |row|
            && row[Rank(flat, p)].colspan >= 1 && row[Rank(flat, p)].text != ""
            && row[..Rank(flat, p)] == Dense(flat)[..Rank(flat, p)]
  {
    hide TiledBy, Rank, Dense;
  }

  /** With text in every cell below the lead row, fusing it away leaves every position
      its owner if and only if every blank lands. */
  lemma KeptExactly(g: Grid, width: nat, own: (nat, nat) -> (nat, nat))
    requires TiledBy(g, width, own) && |g| > 0 && forall k :: 1 <= k < |g| ==> Worded(g, k)
    ensures (forall k, c :: 0 < k < |g| && 0 <= c < width ==> Keeps(g, own, ExpandLead(DenseRows(g))[1..], k, c))
        <==> forall r :: 1 <= r < |g| ==> Undisturbed(g, width, own, r, 0)
  {
    hide Undisturbed, ExpandLead, Keeps, Worded, TiledBy;
    if forall r :: 1 <= r < |g| ==> Undisturbed(g, width, own, r, 0) {
      forall k, c | 0 < k < |g| && 0 <= c < width
        ensures Keeps(g, own, ExpandLead(DenseRows(g))[1..], k, c)
      {
        LaterCellsKeepTheirColumns(g, width, own, k, c);
      }
    } else {
      var k := FirstDisturbed(g, width, own, |g|);
      ExpandIsFlat(g, width, own, k);
      assert Worded(g, k);
      assert Misplaced(g, width, own, k, ExpandLead(DenseRows(g))[k]);
      var p :| 0 <= p < width && MisplacedAt(g, width, own, k, ExpandLead(DenseRows(g))[k], p);
      MisplacedIsNotKept(g, width, own, k, p);
    }
  }

  lemma {:induction false} FirstDisturbed(g: Grid, width: nat, own: (nat, nat) -> (nat, nat), n: nat) returns (k: nat)
    requires TiledBy(g, width, own) && n <= |g| && exists r :: 1 <= r < n && !Undisturbed(g, width, own, r, 0)
    ensures 1 <= k < n && !Undisturbed(g, width, own, k, 0)
    ensures forall r :: 1 <= r < k ==> Undisturbed(g, width, own, r, 0)
  {
    hide Undisturbed, TiledBy;
    if r :| 1 <= r < n - 1 && !Undisturbed(g, width, own, r, 0) {
      k := FirstDisturbed(g, width, own, n - 1);
    } else {
      k := n - 1;
    }
  }

  // ----- a cell that changes columns -------------------------------------------

  lemma OneCell(row: seq<Cell>, r: nat, w: nat, i: nat, st: RowState) returns (next: RowState)
    requires w < |st.slots| && !Carries(st.pending, w) && i < |row| && row[i].colspan == 1 && row[i].rowspan == 1
    ensures FillRow(row, r, w, i, st) == FillRow(row, r, w + 1, i + 1, next)
    ensures next.slots == st.slots[w := Some((r, i))] && next.pending == st.pending
  {
    hide FillRow;
    assert Claim(st.slots, w, w + 1, (r, i)) == st.slots[w := Some((r, i))];
    FillCell(row, r, w, i, st);
    next := RowState(st.slots[w := Some((r, i))], st.pending);
  }

  lemma FillCell(row: seq<Cell>, r: nat, w: nat, i: nat, st: RowState)
    requires w < |st.slots| && !Carries(st.pending, w) && i < |row|
    ensures var c := row[i];
            var hi := Min(|st.slots|, w + c.colspan);
            FillRow(row, r, w, i, st) ==
            FillRow(row, r, w + c.colspan, i + 1,
                    RowState(Claim(st.slots, w, hi, (r, i)), CarryOver(st.pending, w, hi, c.rowspan, (r, i))))
  {
  }

  lemma TallCell(row: seq<Cell>, r: nat, w: nat, i: nat, st: RowState) returns (next: RowState)
    requires w < |st.slots| && !Carries(st.pending, w) && i < |row| && row[i].colspan == 1 && row[i].rowspan > 1
    ensures FillRow(row, r, w, i, st) == FillRow(row, r, w + 1, i + 1, next)
    ensures next.slots == st.slots[w := Some((r, i))]
    ensures next.pending == st.pending[w := Carry(row[i].rowspan - 1, (r, i))]
  {
    hide FillRow;
    var n := row[i].rowspan;
    assert Claim(st.slots, w, w + 1, (r, i)) == st.slots[w := Some((r, i))];
    assert CarryOver(st.pending, w, w + 1, n, (r, i)) ==
        CarryOver(st.pending, w, w, n, (r, i))[w := Carry(n - 1, (r, i))];
    FillCell(row, r, w, i, st);
    next := RowState(st.slots[w := Some((r, i))], st.pending[w := Carry(n - 1, (r, i))]);
  }

  lemma OneCarry(row: seq<Cell>, r: nat, w: nat, i: nat, st: RowState) returns (next: RowState)
    requires w < |st.slots| && Carries(st.pending, w)
    ensures FillRow(row, r, w, i, st) == FillRow(row, r, w + 1, i, next)
    ensures next.slots == st.slots[w := Some(st.pending[w].owner)]
    ensures next.pending == st.pending[w := Carry(st.pending[w].left - 1, st.pending[w].owner)]
  {
    var carry := st.pending[w];
    next := RowState(st.slots[w := Some(carry.owner)], st.pending[w := Carry(carry.left - 1, carry.owner)]);
  }

  lemma RowDone(row: seq<Cell>, r: nat, w: nat, i: nat, st: RowState)
    requires w >= |st.slots|
    ensures FillRow(row, r, w, i, st) == st
  {
  }

  const PLAIN := Cell("x", 1, 1)

  /** A lead cell of three rows, and a lower cell of two rows left of it. */
  const FRAGMENT: Rows :=
    [[PLAIN, PLAIN, Cell("c", 1, 3), PLAIN], [Cell("d", 1, 2), PLAIN, PLAIN], [Cell("f", 1, 1), Cell("g", 1, 1)]]

  /** One cell of a column in each of four columns. */
  ghost predicate Narrow(row: seq<Cell>, spans: seq<nat>) {
    |row| == |spans| && forall i :: 0 <= i < |row| ==> row[i].colspan == 1 && row[i].rowspan == spans[i]
  }

  /** Of the lead cells only the third reaches below; it inserts behind two columns. */
  lemma ThirdReaches(row: seq<Cell>, lead: seq<Cell>, k: nat)
    requires Narrow(lead, [1, 1, 3, 1]) && 1 <= k < 3
    ensures RowAfter(row, lead, 4, k) == InsertInRow(row, 2, 1)
  {
    hide InsertInRow;
    OneWider(lead, 0);
    OneWider(lead, 1);
    assert lead[..0] == [] && ColspanSum(lead[..2]) == 2;
    assert RowAfter(row, lead, 0, k) == RowAfter(row, lead, 1, k) == RowAfter(row, lead, 2, k) == row;
    assert RowAfter(row, lead, 3, k) == InsertInRow(row, 2, 1);
  }

  lemma ExpandedFragment()
    ensures ExpandLead(FRAGMENT)[1..] == FUSED
  {
    var lead := FRAGMENT[0];
    hide InsertInRow, RowAfter, Inserts;
    forall k | 1 <= k < 3
      ensures ExpandLead(FRAGMENT)[k] == InsertInRow(FRAGMENT[k], 2, 1)
    {
      ExpandedFragmentRow(k);
    }
    InsertedSecond(FRAGMENT[1]);
    InsertedSecond(FRAGMENT[2]);
    hide ExpandLead;
    assert FRAGMENT[1][..2] + [Cell("", 1, 1)] + FRAGMENT[1][2..] == FUSED[0];
    assert FRAGMENT[2][..2] + [Cell("", 1, 1)] + FRAGMENT[2][2..] == FUSED[1];
  }

  lemma ExpandedFragmentRow(k: nat)
    requires 1 <= k < 3
    ensures ExpandLead(FRAGMENT)[k] == InsertInRow(FRAGMENT[k], 2, 1)
  {
    var lead := FRAGMENT[0];
    hide InsertInRow, RowAfter, Inserts;
    assert lead[..4] == lead;
    InsertAllRow(FRAGMENT[0 := LoweredRow(lead)], lead, 4, k);
    ThirdReaches(FRAGMENT[k], lead, k);
  }

  lemma InsertedSecond(row: seq<Cell>)
    requires |row| >= 2 && row[0].colspan == 1 && row[1].colspan == 1
    ensures InsertInRow(row, 2, 1) == row[..2] + [Cell("", 1, 1)] + row[2..]
  {
    assert IndexFor(row, 2, 1, 1) == IndexFor(row, 2, 2, 2) == 2;
  }

  lemma WidthOfFour(row: seq<Cell>)
    requires |row| == 4 && forall i :: 0 <= i < 4 ==> row[i].colspan == 1
    ensures ColspanSum(row) == 4
  {
    assert row[..4] == row && row[..0] == [];
    OneWider(row, 0);
    OneWider(row, 1);
    OneWider(row, 2);
    OneWider(row, 3);
  }

  lemma OneWider(row: seq<Cell>, i: nat)
    requires i < |row|
    ensures ColspanSum(row[..i + 1]) == ColspanSum(row[..i]) + row[i].colspan
  {
    assert row[..i + 1][..i] == row[..i];
  }

  lemma NoRowsYet(rows: Rows, width: nat)
    ensures FillRows(rows, width, 0) == GridState([], map[])
  {
  }

  lemma PendingAfterRow(rows: Rows, width: nat, r: nat)
    requires r < |rows|
    ensures FillRows(rows, width, r + 1).pending
         == FillRow(rows[r], r, 0, 0, RowState(Unowned(width), FillRows(rows, width, r).pending)).pending
  {
    hide FillRow;
  }

  lemma LeadRow(row: seq<Cell>)
    requires Narrow(row, [1, 1, 3, 1])
    ensures FillRow(row, 0, 0, 0, RowState(Unowned(4), map[])).pending == map[2 := Carry(2, (0, 2))]
  {
    hide FillRow, Unowned;
    var st := RowState(Unowned(4), map[]);
    st := OneCell(row, 0, 0, 0, st);
    st := OneCell(row, 0, 1, 1, st);
    st := TallCell(row, 0, 2, 2, st);
    st := OneCell(row, 0, 3, 3, st);
    RowDone(row, 0, 4, 4, st);
  }

  lemma LeadPending()
    ensures FillRows(FRAGMENT, 4, 1).pending == map[2 := Carry(2, (0, 2))]
  {
    hide FillRow, FillRows;
    NoRowsYet(FRAGMENT, 4);
    PendingAfterRow(FRAGMENT, 4, 0);
    LeadRow(FRAGMENT[0]);
  }

  lemma MiddlePending()
    ensures FillRows(FRAGMENT, 4, 2).pending == map[2 := Carry(1, (0, 2)), 0 := Carry(1, (1, 0))]
  {
    var row, st := FRAGMENT[1], RowState(Unowned(4), map[2 := Carry(2, (0, 2))]);
    LeadPending();
    PendingAfterRow(FRAGMENT, 4, 1);
    hide FillRow, Unowned, FillRows;
    st := TallCell(row, 1, 0, 0, st);
    st := OneCell(row, 1, 1, 1, st);
    st := OneCarry(row, 1, 2, 2, st);
    st := OneCell(row, 1, 3, 2, st);
    RowDone(row, 1, 4, 3, st);
  }

  lemma FragmentLastRow(row: seq<Cell>, pending: Pending)
    requires Narrow(row, [1, 1]) && pending == map[2 := Carry(1, (0, 2)), 0 := Carry(1, (1, 0))]
    ensures FillRow(row, 2, 0, 0, RowState(Unowned(4), pending)).slots
         == [Some((1, 0)), Some((2, 0)), Some((0, 2)), Some((2, 1))]
  {
    hide FillRow;
    var st := RowState(Unowned(4), pending);
    st := OneCarry(row, 2, 0, 0, st);
    st := OneCell(row, 2, 1, 0, st);
    st := OneCarry(row, 2, 2, 1, st);
    st := OneCell(row, 2, 3, 1, st);
    RowDone(row, 2, 4, 2, st);
  }

  lemma LastRowBefore()
    ensures OwnersOf(FRAGMENT)[2] == [Some((1, 0)), Some((2, 0)), Some((0, 2)), Some((2, 1))]
  {
    WidthOfFour(FRAGMENT[0]);
    OwnersOfRow(FRAGMENT, 4, 3, 2);
    hide FillRow, FillRows;
    MiddlePending();
    FragmentLastRow(FRAGMENT[2], FillRows(FRAGMENT, 4, 2).pending);
  }

  /** What is left of the fragment once its lead row is fused away. */
  const FUSED: Rows :=
    [[Cell("d", 1, 2), PLAIN, Cell("", 1, 1), PLAIN], [Cell("f", 1, 1), Cell("g", 1, 1), Cell("", 1, 1)]]

  lemma FusedRow(row: seq<Cell>)
    requires Narrow(row, [2, 1, 1, 1])
    ensures FillRow(row, 0, 0, 0, RowState(Unowned(4), map[])).pending == map[0 := Carry(1, (0, 0))]
  {
    hide FillRow, Unowned;
    var st := RowState(Unowned(4), map[]);
    st := TallCell(row, 0, 0, 0, st);
    st := OneCell(row, 0, 1, 1, st);
    st := OneCell(row, 0, 2, 2, st);
    st := OneCell(row, 0, 3, 3, st);
    RowDone(row, 0, 4, 4, st);
  }

  lemma FusedLastRow(row: seq<Cell>)
    requires Narrow(row, [1, 1, 1])
    ensures FillRow(row, 1, 0, 0, RowState(Unowned(4), map[0 := Carry(1, (0, 0))])).slots
         == [Some((0, 0)), Some((1, 0)), Some((1, 1)), Some((1, 2))]
  {
    hide FillRow;
    var st := RowState(Unowned(4), map[0 := Carry(1, (0, 0))]);
    st := OneCarry(row, 1, 0, 0, st);
    st := OneCell(row, 1, 1, 0, st);
    st := OneCell(row, 1, 2, 1, st);
    st := OneCell(row, 1, 3, 2, st);
    RowDone(row, 1, 4, 3, st);
  }

  lemma LastRowAfter()
    ensures OwnersOf(FUSED)[1] == [Some((0, 0)), Some((1, 0)), Some((1, 1)), Some((1, 2))]
  {
    WidthOfFour(FUSED[0]);
    OwnersOfRow(FUSED, 4, 2, 1);
    hide FillRow, FillRows;
    NoRowsYet(FUSED, 4);
    PendingAfterRow(FUSED, 4, 0);
    FusedRow(FUSED[0]);
    FusedLastRow(FUSED[1]);
  }

  /** The cell "g" owns column 3, behind the lead cell's column 2; once the lead row is
      gone it owns column 2, and the blank owns column 3. */
  lemma LowerCarryShiftsACell()
    ensures OwnersOf(FRAGMENT)[2] == [Some((1, 0)), Some((2, 0)), Some((0, 2)), Some((2, 1))]
    ensures ExpandLead(FRAGMENT)[1..] == FUSED
    ensures OwnersOf(FUSED)[1] == [Some((0, 0)), Some((1, 0)), Some((1, 1)), Some((1, 2))]
    ensures FRAGMENT[2][1].text == FUSED[1][1].text == "g"
  {
    LastRowBefore();
    ExpandedFragment();
    LastRowAfter();
  }
}

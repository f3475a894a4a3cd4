/** Spanning grids and who owns each position of one. */
module Tables {
  import opened Common

  // A slotted grid holds a cell at its top-left position and nothing at the other
  // positions the cell spans.

  datatype Cell = Cell(text: string, colspan: nat, rowspan: nat)

  type Slots = seq<Option<Cell>>
  type Grid = seq<Slots>
  type Rows = seq<seq<Cell>>

  /** A cell's identity in dense rows: its row and its index in that row. */
  type Id = (nat, nat)

  // ----- tilings ---------------------------------------------------------------

  predicate Anchor(g: Grid, r: nat, c: nat) {
    r < |g| && c < |g[r]| && g[r][c].Some?
  }

  predicate Covers(g: Grid, r0: nat, c0: nat, r: nat, c: nat) {
    Anchor(g, r0, c0)
    && r0 <= r < r0 + g[r0][c0].value.rowspan
    && c0 <= c < c0 + g[r0][c0].value.colspan
  }

  /** `own` names, for every position, the one anchor whose rectangle covers it. */
  ghost predicate TiledBy(g: Grid, width: nat, own: (nat, nat) -> (nat, nat)) {
    && (forall r :: 0 <= r < |g| ==> |g[r]| == width)
    && (forall r, c :: 0 <= r < |g| && 0 <= c < width ==> Covers(g, own(r, c).0, own(r, c).1, r, c))
    && (forall r0: nat, c0: nat, r: nat, c: nat ::
        r < |g| && Covers(g, r0, c0, r, c) ==> c < width && own(r, c) == (r0, c0))
    && (forall r: nat, c: nat :: Anchor(g, r, c) ==> g[r][c].value.colspan >= 1 && g[r][c].value.rowspan >= 1)
  }

  /** The cells of a slotted row, left to right. */
  function Dense(row: Slots): (r: seq<Cell>)
    ensures |r| <= |row|
  {
    if row == [] then []
    else
      var front := Dense(row[..|row| - 1]);
      if row[|row| - 1].Some? then front + [row[|row| - 1].value] else front
  }

  function DenseRows(g: Grid): (r: Rows)
    ensures |r| == |g| && forall i :: 0 <= i < |g| ==> r[i] == Dense(g[i])
  {
    seq(|g|, i requires 0 <= i < |g| => Dense(g[i]))
  }

  /** How many cells stand left of column `c`. */
  function Rank(row: Slots, c: nat): nat
    requires c <= |row|
  {
    |Dense(row[..c])|
  }

  lemma {:induction false} DenseAt(row: Slots, c: nat)
    requires c < |row|
    ensures Rank(row, c + 1) == Rank(row, c) + if row[c].Some? then 1 else 0
    ensures row[c].Some? ==> Rank(row, c) < |Dense(row)| && Dense(row)[Rank(row, c)] == row[c].value
    decreases |row|
  {
    assert row[..c + 1][..c] == row[..c];
    if c + 1 < |row| {
      var front := row[..|row| - 1];
      DenseAt(front, c);
      assert front[..c] == row[..c] && front[..c + 1] == row[..c + 1];
    } else {
      assert row[..c + 1] == row;
    }
  }

  lemma {:induction false} RankSkipsEmpty(row: Slots, c: nat, hi: nat)
    requires c <= hi <= |row| && forall k :: c <= k < hi ==> row[k].None?
    ensures Rank(row, hi) == Rank(row, c)
    decreases hi
  {
    if c < hi {
      RankSkipsEmpty(row, c, hi - 1);
      DenseAt(row, hi - 1);
    }
  }

  // ----- resolving owners ------------------------------------------------------

  datatype Carry = Carry(left: nat, owner: Id)

  type Pending = map<nat, Carry>
  type Owners = seq<Option<Id>>

  function ColspanSum(row: seq<Cell>): nat {
    if row == [] then 0 else ColspanSum(row[..|row| - 1]) + row[|row| - 1].colspan
  }

  function StructWidth(rows: Rows): nat {
    if rows == [] then 0 else ColspanSum(rows[0])
  }

  function Carries(p: Pending, w: nat): bool { w in p && p[w].left > 0 }

  /** `slots` with `id` at every position of [lo, hi). */
  function Claim(slots: Owners, lo: nat, hi: nat, id: Id): (r: Owners)
    ensures |r| == |slots|
    ensures forall k :: 0 <= k < |slots| ==> r[k] == if lo <= k < hi then Some(id) else slots[k]
  {
    seq(|slots|, k requires 0 <= k < |slots| => if lo <= k < hi then Some(id) else slots[k])
  }

  function CarryOver(p: Pending, lo: nat, hi: nat, rowspan: nat, id: Id): (r: Pending)
    ensures rowspan > 1 ==> forall k: nat :: lo <= k < hi ==> k in r && r[k] == Carry(rowspan - 1, id)
    ensures forall k: nat :: rowspan <= 1 || !(lo <= k < hi) ==> (k in r <==> k in p) && (k in p ==> r[k] == p[k])
    decreases hi
  {
    if rowspan <= 1 || hi <= lo then p
    else CarryOver(p, lo, hi - 1, rowspan, id)[hi - 1 := Carry(rowspan - 1, id)]
  }

  datatype RowState = RowState(slots: Owners, pending: Pending)

  /** Row `r` from column `w` and cell `i` on. */
  function FillRow(row: seq<Cell>, r: nat, w: nat, i: nat, st: RowState): (out: RowState)
    ensures |out.slots| == |st.slots|
    decreases |st.slots| - w, |row| - i
  {
    if w >= |st.slots| then st
    else if Carries(st.pending, w) then
      var carry := st.pending[w];
      FillRow(row, r, w + 1, i, RowState(st.slots[w := Some(carry.owner)],
                                         st.pending[w := Carry(carry.left - 1, carry.owner)]))
    else if i >= |row| then FillRow(row, r, w + 1, i, st)
    else
      var c := row[i];
      var hi := Min(|st.slots|, w + c.colspan);
      FillRow(row, r, w + c.colspan, i + 1,
              RowState(Claim(st.slots, w, hi, (r, i)), CarryOver(st.pending, w, hi, c.rowspan, (r, i))))
  }

  function Unowned(width: nat): (r: Owners)
    ensures |r| == width && forall k :: 0 <= k < width ==> r[k] == None
  {
    seq(width, _ => None)
  }

  datatype GridState = GridState(owners: seq<Owners>, pending: Pending)

  function FillRows(rows: Rows, width: nat, n: nat): (out: GridState)
    requires n <= |rows|
    ensures |out.owners| == n && forall r :: 0 <= r < n ==> |out.owners[r]| == width
  {
    if n == 0 then GridState([], map[])
    else
      var above := FillRows(rows, width, n - 1);
      var st := FillRow(rows[n - 1], n - 1, 0, 0, RowState(Unowned(width), above.pending));
      GridState(above.owners + [st.slots], st.pending)
  }

  /** The owner of every position, None where no cell reaches. */
  function OwnersOf(rows: Rows): (owners: seq<Owners>)
    ensures |owners| == |rows| && forall r :: 0 <= r < |rows| ==> |owners[r]| == StructWidth(rows)
  {
    FillRows(rows, StructWidth(rows), |rows|).owners
  }

  method ClaimRange(slots0: Owners, pending0: Pending, lo: nat, hi: nat, rowspan: nat, id: Id)
    returns (slots: Owners, pending: Pending)
    requires lo <= hi <= |slots0|
    ensures slots == Claim(slots0, lo, hi, id) && pending == CarryOver(pending0, lo, hi, rowspan, id)
  {
    slots, pending := slots0, pending0;
    for k := lo to hi
      invariant slots == Claim(slots0, lo, k, id)
      invariant pending == CarryOver(pending0, lo, k, rowspan, id)
    {
      slots := slots[k := Some(id)];
      if rowspan > 1 {
        pending := pending[k := Carry(rowspan - 1, id)];
      }
    }
  }

  /** One row of `_struct_owners`. */
  method ResolveRow(row: seq<Cell>, r: nat, width: nat, pending0: Pending) returns (slots: Owners, pending: Pending)
    ensures RowState(slots, pending) == FillRow(row, r, 0, 0, RowState(Unowned(width), pending0))
  {
    hide Claim, CarryOver, Unowned, Min;
    slots, pending := Unowned(width), pending0;
    var w, i := 0, 0;
    while w < width
      invariant |slots| == width
      invariant FillRow(row, r, 0, 0, RowState(Unowned(width), pending0)) ==
          FillRow(row, r, w, i, RowState(slots, pending))
      decreases width - w, |row| - i
    {
      if Carries(pending, w) {
        var carry := pending[w];
        pending := pending[w := Carry(carry.left - 1, carry.owner)];
        slots := slots[w := Some(carry.owner)];
        w := w + 1;
      } else if i >= |row| {
        w := w + 1;
      } else {
        var c := row[i];
        var hi := Min(width, w + c.colspan);
        slots, pending := ClaimRange(slots, pending, w, hi, c.rowspan, (r, i));
        w, i := w + c.colspan, i + 1;
      }
    }
  }

  method StructOwners(rows: Rows) returns (width: nat, owners: seq<Owners>)
    ensures width == StructWidth(rows) && owners == OwnersOf(rows)
  {
    width := StructWidth(rows);
    owners := [];
    var pending: Pending := map[];
    for n := 0 to |rows|
      invariant FillRows(rows, width, n) == GridState(owners, pending)
    {
      var slots;
      slots, pending := ResolveRow(rows[n], n, width, pending);
      owners := owners + [slots];
    }
  }

  // ----- a tiling is resolved to its own anchors -------------------------------

  /** The dense identity of the anchor that owns (r, c). */
  ghost function OwnerId(g: Grid, width: nat, own: (nat, nat) -> (nat, nat), r: nat, c: nat): Id
    requires TiledBy(g, width, own) && r < |g| && c < width
  {
    assert Covers(g, own(r, c).0, own(r, c).1, r, c);
    (own(r, c).0, Rank(g[own(r, c).0], own(r, c).1))
  }

  /** Rows of column `c` still to come, from row `r` on, for the owner of the
      position above. */
  ghost function RowsLeft(g: Grid, width: nat, own: (nat, nat) -> (nat, nat), r: nat, c: nat): int
    requires TiledBy(g, width, own) && r <= |g| && c < width
  {
    if r == 0 then 0
    else
      assert Covers(g, own(r - 1, c).0, own(r - 1, c).1, r - 1, c);
      own(r - 1, c).0 + g[own(r - 1, c).0][own(r - 1, c).1].value.rowspan - r
  }

  /** What the pending map must say of column `c` before row `r`. */
  ghost predicate PendingAt(g: Grid, width: nat, own: (nat, nat) -> (nat, nat), r: nat, c: nat, p: Pending)
    requires TiledBy(g, width, own) && r <= |g| && c < width
  {
    if RowsLeft(g, width, own, r, c) > 0 then
      c in p && p[c] == Carry(RowsLeft(g, width, own, r, c), OwnerId(g, width, own, r - 1, c))
    else !Carries(p, c)
  }

  ghost predicate PendingAfter(g: Grid, width: nat, own: (nat, nat) -> (nat, nat), r: nat, c: nat, p: Pending)
    requires TiledBy(g, width, own) && r < |g| && c < width
  {
    PendingAt(g, width, own, r + 1, c, p)
  }

  /** Nothing anchored in row `r` straddles column `c`. */
  ghost predicate Aligned(g: Grid, own: (nat, nat) -> (nat, nat), width: nat, r: nat, c: nat) {
    c < width && own(r, c).0 == r ==> own(r, c).1 == c
  }

  /** A position is carried into from above exactly when its owner is anchored
      above it, and then it has the owner of the position above. */
  lemma CarriedFromAbove(g: Grid, width: nat, own: (nat, nat) -> (nat, nat), r: nat, c: nat)
    requires TiledBy(g, width, own) && r < |g| && c < width
    ensures RowsLeft(g, width, own, r, c) > 0 <==> own(r, c).0 < r
    ensures own(r, c).0 < r ==> own(r - 1, c) == own(r, c)
    ensures own(r, c).0 <= r
  {
    var (r0, c0) := own(r, c);
    assert Covers(g, r0, c0, r, c);
    if r > 0 {
      var (r1, c1) := own(r - 1, c);
      assert Covers(g, r1, c1, r - 1, c);
      if r0 < r {
        assert Covers(g, r0, c0, r - 1, c);
      }
      if RowsLeft(g, width, own, r, c) > 0 {
        assert Covers(g, r1, c1, r, c);
      }
    }
  }

  lemma AlignedAfterCarry(g: Grid, width: nat, own: (nat, nat) -> (nat, nat), r: nat, c: nat)
    requires TiledBy(g, width, own) && r < |g| && c < width && own(r, c).0 < r
    ensures Aligned(g, own, width, r, c + 1)
    ensures g[r][c].None?
  {
    if c + 1 < width && own(r, c + 1).0 == r && own(r, c + 1).1 != c + 1 {
      assert Covers(g, r, own(r, c + 1).1, r, c + 1);
      assert Covers(g, r, own(r, c + 1).1, r, c);
    }
    if g[r][c].Some? {
      assert Anchor(g, r, c) && Covers(g, r, c, r, c);
    }
  }

  lemma AlignedAfterCell(g: Grid, width: nat, own: (nat, nat) -> (nat, nat), r: nat, c: nat)
    requires TiledBy(g, width, own) && r < |g| && c < width && own(r, c) == (r, c)
    ensures Anchor(g, r, c)
    ensures var hi := c + g[r][c].value.colspan;
            && c < hi <= width && Aligned(g, own, width, r, hi)
            && (forall k :: c <= k < hi ==> own(r, k) == (r, c))
            && (forall k :: c < k < hi ==> g[r][k].None?)
  {
    assert Covers(g, r, c, r, c);
    var hi := c + g[r][c].value.colspan;
    assert Covers(g, r, c, r, hi - 1);
    forall k | c <= k < hi
      ensures own(r, k) == (r, c)
    {
      assert Covers(g, r, c, r, k);
    }
    forall k | c < k < hi
      ensures g[r][k].None?
    {
      if g[r][k].Some? {
        assert Anchor(g, r, k) && Covers(g, r, k, r, k);
      }
    }
    if hi < width && own(r, hi).0 == r && own(r, hi).1 < hi {
      var c1 := own(r, hi).1;
      assert Covers(g, r, c1, r, hi);
      if c1 <= c {
        assert Covers(g, r, c1, r, c);
      }
    }
  }

  ghost predicate RowInvariant(g: Grid, width: nat, own: (nat, nat) -> (nat, nat), r: nat, c: nat, st: RowState)
    requires TiledBy(g, width, own) && r < |g|
  {
    && |st.slots| == width
    && (forall k :: 0 <= k < width && k < c ==> st.slots[k] == Some(OwnerId(g, width, own, r, k)))
    && (forall k :: 0 <= k < width && k < c ==> PendingAfter(g, width, own, r, k, st.pending))
    && (forall k :: 0 <= k < width && c <= k ==> PendingAt(g, width, own, r, k, st.pending))
  }

  lemma CarryStep(g: Grid, width: nat, own: (nat, nat) -> (nat, nat), r: nat, c: nat, st: RowState)
    requires TiledBy(g, width, own) && r < |g| && c < width && own(r, c).0 < r
    requires RowInvariant(g, width, own, r, c, st)
    ensures Carries(st.pending, c)
    ensures var carry := st.pending[c];
            RowInvariant(g, width, own, r, c + 1,
                         RowState(st.slots[c := Some(carry.owner)],
                                  st.pending[c := Carry(carry.left - 1, carry.owner)]))
  {
    CarriedFromAbove(g, width, own, r, c);
    assert PendingAt(g, width, own, r, c, st.pending);
    var carry := st.pending[c];
    var next := st.pending[c := Carry(carry.left - 1, carry.owner)];
    assert PendingAfter(g, width, own, r, c, next);
    OthersUntouched(g, width, own, r, c, c + 1, st, st.slots[c := Some(carry.owner)], next);
  }

  /** Columns outside [c, hi) keep what the invariant says of them. */
  lemma OthersUntouched(g: Grid, width: nat, own: (nat, nat) -> (nat, nat), r: nat, c: nat, hi: nat,
                        st: RowState, slots: Owners, next: Pending)
    requires TiledBy(g, width, own) && r < |g| && c < hi
    requires RowInvariant(g, width, own, r, c, st)
    requires |slots| == width
    requires forall k :: 0 <= k < width && !(c <= k < hi) ==> slots[k] == st.slots[k]
    requires forall k: nat :: !(c <= k < hi) ==>
               (k in next <==> k in st.pending) && (k in st.pending ==> next[k] == st.pending[k])
    requires forall k :: c <= k < hi && k < width ==>
               slots[k] == Some(OwnerId(g, width, own, r, k)) && PendingAfter(g, width, own, r, k, next)
    ensures RowInvariant(g, width, own, r, hi, RowState(slots, next))
  {
    hide OwnerId, RowsLeft, TiledBy;
    forall k | 0 <= k < width && k < c
      ensures PendingAfter(g, width, own, r, k, next)
    {
      assert PendingAfter(g, width, own, r, k, st.pending);
    }
    forall k | 0 <= k < width && hi <= k
      ensures PendingAt(g, width, own, r, k, next)
    {
      assert PendingAt(g, width, own, r, k, st.pending);
    }
  }

  /** A cell anchored at (r, c) is what the next row must be told of its columns. */
  lemma CellCarries(g: Grid, width: nat, own: (nat, nat) -> (nat, nat), r: nat, c: nat, k: nat, p: Pending)
    requires TiledBy(g, width, own) && r < |g| && k < width && own(r, k) == (r, c) && Anchor(g, r, c)
    requires PendingAt(g, width, own, r, k, p)
    ensures !Carries(p, k)
    ensures OwnerId(g, width, own, r, k) == (r, Rank(g[r], c))
    ensures forall next: Pending ::
              (if g[r][c].value.rowspan > 1 then k in next
                  && next[k] == Carry(g[r][c].value.rowspan - 1, (r, Rank(g[r], c)))
               else (k in next <==> k in p) && (k in p ==> next[k] == p[k]))
              ==> PendingAfter(g, width, own, r, k, next)
  {
    CarriedFromAbove(g, width, own, r, k);
  }

  lemma CellColumns(g: Grid, width: nat, own: (nat, nat) -> (nat, nat), r: nat, c: nat, hi: nat, st: RowState,
                    next: Pending)
    requires TiledBy(g, width, own) && r < |g| && c < width && own(r, c) == (r, c)
    requires RowInvariant(g, width, own, r, c, st)
    requires Anchor(g, r, c) && hi == c + g[r][c].value.colspan
    requires next == CarryOver(st.pending, c, hi, g[r][c].value.rowspan, (r, Rank(g[r], c)))
    ensures c < hi <= width && !Carries(st.pending, c)
    ensures forall k :: c <= k < hi && k < width ==>
              PendingAfter(g, width, own, r, k, next) && OwnerId(g, width, own, r, k) == (r, Rank(g[r], c))
  {
    AlignedAfterCell(g, width, own, r, c);
    hide PendingAt, PendingAfter, TiledBy, OwnerId, RowsLeft, Aligned, Covers;
    forall k | c <= k < hi
      ensures PendingAfter(g, width, own, r, k, next)
      ensures OwnerId(g, width, own, r, k) == (r, Rank(g[r], c)) && !Carries(st.pending, k)
    {
      CellCarries(g, width, own, r, c, k, st.pending);
    }
  }

  lemma CellStep(g: Grid, width: nat, own: (nat, nat) -> (nat, nat), r: nat, c: nat, hi: nat, st: RowState,
                 slots: Owners, next: Pending)
    requires TiledBy(g, width, own) && r < |g| && c < width && own(r, c) == (r, c)
    requires RowInvariant(g, width, own, r, c, st)
    requires Anchor(g, r, c) && hi == c + g[r][c].value.colspan
    requires slots == Claim(st.slots, c, hi, (r, Rank(g[r], c)))
    requires next == CarryOver(st.pending, c, hi, g[r][c].value.rowspan, (r, Rank(g[r], c)))
    ensures !Carries(st.pending, c) && hi <= width
    ensures RowInvariant(g, width, own, r, hi, RowState(slots, next))
  {
    RowFits(g, width, own, r, c, st);
    CellColumns(g, width, own, r, c, hi, st, next);
    hide PendingAt, PendingAfter, OwnerId, TiledBy, Claim, CarryOver, RowInvariant, RowsLeft, Aligned, Covers, Rank;
    OthersUntouched(g, width, own, r, c, hi, st, slots, next);
  }

  lemma {:induction false} FillRowTiled(g: Grid, width: nat, own: (nat, nat) -> (nat, nat), r: nat, c: nat,
                                        st: RowState)
    requires TiledBy(g, width, own) && r < |g| && c <= width && Aligned(g, own, width, r, c)
    requires RowInvariant(g, width, own, r, c, st)
    ensures RowInvariant(g, width, own, r, width, FillRow(Dense(g[r]), r, c, Rank(g[r], c), st))
    decreases width - c
  {
    hide RowInvariant, Claim, CarryOver, Dense, TiledBy, Rank, Carries;
    if c < width {
      RowFits(g, width, own, r, c, st);
      DenseAt(g[r], c);
      if own(r, c).0 < r {
        CarryStep(g, width, own, r, c, st);
        AlignedAfterCarry(g, width, own, r, c);
        var carry := st.pending[c];
        FillRowTiled(g, width, own, r, c + 1,
                     RowState(st.slots[c := Some(carry.owner)],
                              st.pending[c := Carry(carry.left - 1, carry.owner)]));
      } else {
        CarriedFromAbove(g, width, own, r, c);
        AlignedAfterCell(g, width, own, r, c);
        var cell := g[r][c].value;
        var hi, id := c + cell.colspan, (r, Rank(g[r], c));
        var slots, next := Claim(st.slots, c, hi, id), CarryOver(st.pending, c, hi, cell.rowspan, id);
        CellStep(g, width, own, r, c, hi, st, slots, next);
        RankSkipsEmpty(g[r], c + 1, hi);
        FillRowTiled(g, width, own, r, hi, RowState(slots, next));
      }
    } else {
      RowFits(g, width, own, r, c, st);
    }
  }

  lemma RowFits(g: Grid, width: nat, own: (nat, nat) -> (nat, nat), r: nat, c: nat, st: RowState)
    requires TiledBy(g, width, own) && r < |g|
    requires RowInvariant(g, width, own, r, c, st)
    ensures |g[r]| == width == |st.slots|
  {}

  ghost predicate RowsInvariant(g: Grid, width: nat, own: (nat, nat) -> (nat, nat), n: nat, out: GridState)
    requires TiledBy(g, width, own) && n <= |g|
  {
    && |out.owners| == n
    && (forall r :: 0 <= r < n ==> |out.owners[r]| == width)
    && (forall r, c :: 0 <= r < n && 0 <= c < width ==> out.owners[r][c] == Some(OwnerId(g, width, own, r, c)))
    && (forall c :: 0 <= c < width ==> PendingAt(g, width, own, n, c, out.pending))
  }

  lemma StartRow(g: Grid, width: nat, own: (nat, nat) -> (nat, nat), r: nat, above: GridState)
    requires TiledBy(g, width, own) && r < |g| && RowsInvariant(g, width, own, r, above)
    ensures RowInvariant(g, width, own, r, 0, RowState(Unowned(width), above.pending))
    ensures Aligned(g, own, width, r, 0)
  {
    if width > 0 {
      assert Covers(g, own(r, 0).0, own(r, 0).1, r, 0);
    }
  }

  lemma EndRow(g: Grid, width: nat, own: (nat, nat) -> (nat, nat), r: nat, above: GridState, st: RowState)
    requires TiledBy(g, width, own) && r < |g| && RowsInvariant(g, width, own, r, above)
    requires RowInvariant(g, width, own, r, width, st)
    ensures RowsInvariant(g, width, own, r + 1, GridState(above.owners + [st.slots], st.pending))
  {
    hide OwnerId, PendingAt;
    var below := r + 1;
    forall c | 0 <= c < width
      ensures PendingAt(g, width, own, below, c, st.pending)
    {
      assert PendingAfter(g, width, own, r, c, st.pending);
    }
  }

  lemma {:induction false} FillRowsTiled(g: Grid, width: nat, own: (nat, nat) -> (nat, nat), n: nat)
    requires TiledBy(g, width, own) && n <= |g|
    ensures RowsInvariant(g, width, own, n, FillRows(DenseRows(g), width, n))
  {
    if n > 0 {
      hide RowsInvariant, RowInvariant, FillRow, Dense, Aligned;
      var r := n - 1;
      FillRowsTiled(g, width, own, r);
      var above := FillRows(DenseRows(g), width, r);
      StartRow(g, width, own, r, above);
      FillRowTiled(g, width, own, r, 0, RowState(Unowned(width), above.pending));
      RankOfZero(g[r]);
      EndRow(g, width, own, r, above, FillRow(Dense(g[r]), r, 0, 0, RowState(Unowned(width), above.pending)));
    }
  }

  lemma RankOfZero(row: Slots)
    ensures Rank(row, 0) == 0
  {}

  /** The first row's colspans add up to the width. */
  lemma {:induction false} FirstRowSpansWidth(g: Grid, width: nat, own: (nat, nat) -> (nat, nat), c: nat)
    requires TiledBy(g, width, own) && 0 < |g| && c <= width && Aligned(g, own, width, 0, c)
    ensures ColspanSum(Dense(g[0][..c])) + (width - c) == ColspanSum(Dense(g[0]))
    decreases width - c
  {
    if c < width {
      CarriedFromAbove(g, width, own, 0, c);
      AlignedAfterCell(g, width, own, 0, c);
      var hi := c + g[0][c].value.colspan;
      FirstRowSpansWidth(g, width, own, hi);
      DenseOneCell(g[0], c, hi);
    } else {
      assert g[0][..c] == g[0];
    }
  }

  lemma {:induction false} DenseOneCell(row: Slots, c: nat, hi: nat)
    requires c < hi <= |row| && row[c].Some? && forall k :: c < k < hi ==> row[k].None?
    ensures Dense(row[..hi]) == Dense(row[..c]) + [row[c].value]
    decreases hi
  {
    assert row[..hi][..hi - 1] == row[..hi - 1];
    if hi > c + 1 {
      DenseOneCell(row, c, hi - 1);
    }
  }

  /** Dense rows keep all of a tiling: resolving them gives back, at every
      position, the cell whose rectangle covers it. */
  lemma TilingOwners(g: Grid, width: nat, own: (nat, nat) -> (nat, nat), r: nat, c: nat)
    requires TiledBy(g, width, own) && r < |g| && c < width
    ensures StructWidth(DenseRows(g)) == width
    ensures OwnersOf(DenseRows(g))[r][c] == Some(OwnerId(g, width, own, r, c))
    ensures var id := OwnerId(g, width, own, r, c);
            id.0 < |g| && id.1 < |DenseRows(g)[id.0]|
            && Some(DenseRows(g)[id.0][id.1]) == g[own(r, c).0][own(r, c).1]
  {
    CarriedFromAbove(g, width, own, 0, 0);
    assert Covers(g, own(0, 0).0, own(0, 0).1, 0, 0);
    FirstRowSpansWidth(g, width, own, 0);
    FillRowsTiled(g, width, own, |g|);
    assert Covers(g, own(r, c).0, own(r, c).1, r, c);
    DenseAt(g[own(r, c).0], own(r, c).1);
  }
}

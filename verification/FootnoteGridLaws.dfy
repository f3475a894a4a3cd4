/** Which grids stand for their records, and what a note comes out as. */
module FootnoteGridLaws {
  import opened Common
  import opened FootnoteGrids

  // ----- trimming --------------------------------------------------------------

  /** Record `k` carries a token more often than the grid has it for records x to y. */
  ghost predicate Lacks(have: multiset<string>, recs: seq<Record>, x: nat, y: nat, k: nat)
    requires x <= y <= |recs| && k < |recs|
  {
    exists t :: t in recs[k].tokens && Tokens(recs[x..y])[t] > have[t]
  }

  lemma LacksIs(have: multiset<string>, recs: seq<Record>, x: nat, y: nat, k: nat)
    requires x <= y <= |recs| && k < |recs|
    ensures multiset(recs[k].tokens) * (Tokens(recs[x..y]) - have) != multiset{} <==> Lacks(have, recs, x, y, k)
  {
    hide Tokens;
    var a, b := multiset(recs[k].tokens), Tokens(recs[x..y]) - have;
    if Lacks(have, recs, x, y, k) {
      var t :| t in recs[k].tokens && Tokens(recs[x..y])[t] > have[t];
      assert t in a && t in b && t in a * b;
    }
    if a * b != multiset{} {
      var t :| t in a * b;
      assert t in recs[k].tokens;
    }
  }

  /** Nothing of records x to y is lacking from the grid. */
  ghost predicate Carried(have: multiset<string>, recs: seq<Record>, x: nat, y: nat)
    requires x <= y <= |recs|
  {
    forall t :: Tokens(recs[x..y])[t] <= have[t]
  }

  ghost predicate LastLacks(have: multiset<string>, recs: seq<Record>, x: nat, k: nat) {
    x <= k < |recs| && Lacks(have, recs, x, k + 1, k)
  }

  ghost predicate OnlyFirstLacks(have: multiset<string>, recs: seq<Record>, k: nat, y: nat) {
    k < y <= |recs| && Lacks(have, recs, k, y, k) && !Lacks(have, recs, k, y, y - 1)
  }

  /** Record `k` may be trimmed behind: as the last it lacks something. */
  ghost predicate CutBehind(have: multiset<string>, recs: seq<Record>, k: nat) {
    exists x: nat :: LastLacks(have, recs, x, k)
  }

  /** Record `k` may be trimmed in front: as the first it lacks something, and the
      last does not. */
  ghost predicate CutInFront(have: multiset<string>, recs: seq<Record>, k: nat) {
    exists y: nat :: OnlyFirstLacks(have, recs, k, y)
  }

  /** No further trim is called for. */
  ghost predicate AtRest(have: multiset<string>, recs: seq<Record>, x: nat, y: nat)
    requires x <= y <= |recs|
  {
    x == y || Carried(have, recs, x, y) || (!Lacks(have, recs, x, y, y - 1) && !Lacks(have, recs, x, y, x))
  }

  lemma CarriedIs(have: multiset<string>, recs: seq<Record>, x: nat, y: nat)
    requires x <= y <= |recs|
    ensures Tokens(recs[x..y]) - have == multiset{} <==> Carried(have, recs, x, y)
  {
    hide Tokens;
    var need := Tokens(recs[x..y]);
    if need - have == multiset{} {
      forall t
        ensures need[t] <= have[t]
      {
        assert (need - have)[t] == 0;
      }
    }
  }

  /** Each record trimmed is at an end and carries a token the grid lacks, the last
      one first; trimming ends where none is left to trim, or after all its turns. */
  lemma {:induction false} TrimmedExactly(have: multiset<string>, recs: seq<Record>, lo: nat, hi: nat, turns: nat)
    requires lo <= hi <= |recs|
    ensures var (a, b) := Trimmed(have, recs, lo, hi, turns);
            && (forall k :: b <= k < hi ==> CutBehind(have, recs, k))
            && (forall k :: lo <= k < a ==> CutInFront(have, recs, k))
            && ((a - lo) + (hi - b) == turns || AtRest(have, recs, a, b))
    decreases turns
  {
    hide Tokens, Trimmed, Lacks, Carried;
    if turns == 0 {
      NoTurnsLeft(have, recs, lo, hi);
    } else {
      TrimStep(have, recs, lo, hi, turns);
      CarriedIs(have, recs, lo, hi);
      if lo < hi {
        LacksIs(have, recs, lo, hi, hi - 1);
        LacksIs(have, recs, lo, hi, lo);
        if !Carried(have, recs, lo, hi) {
          if Lacks(have, recs, lo, hi, hi - 1) {
            TrimmedExactly(have, recs, lo, hi - 1, turns - 1);
            assert LastLacks(have, recs, lo, hi - 1);
          } else if Lacks(have, recs, lo, hi, lo) {
            TrimmedExactly(have, recs, lo + 1, hi, turns - 1);
            assert OnlyFirstLacks(have, recs, lo, hi);
          }
        }
      }
    }
  }

  /** A grid fits exactly when records are left, it carries nothing they do not, and
      they carry at most two tokens more, all closing punctuation. */
  lemma FitExactly(rec: Recognisers, have: multiset<string>, recs: seq<Record>)
    ensures var (a, b) := Trimmed(have, recs, 0, |recs|, 3);
            var need := Tokens(recs[a..b]);
            FitOf(rec, have, recs) ==
            if a < b && have <= need && |need - have| <= 2 && (forall t :: t in need - have ==> rec.closing(t))
            then Some(Fit(a, |recs| - b, need - have)) else None
  {
    hide Tokens, Trimmed;
    var (a, b) := Trimmed(have, recs, 0, |recs|, 3);
    var need := Tokens(recs[a..b]);
    NeedIs(need, have);
    if have <= need {
      assert have - need == multiset{};
    }
    if need - have == multiset{} {
      assert |need - have| == 0;
    }
  }

  // ----- a note of prose and tables --------------------------------------------

  /** Lines outside every grid, or the lines of one ruled table, which a page break
      may have split into several grids. */
  datatype Block = Text(records: seq<Record>) | Table(records: seq<Record>)

  /** A table's grids have one width, carry its lines' words and draw. */
  ghost predicate Whole(rec: Recognisers, b: Block) {
    && b.records != []
    && if b.Text? then forall k :: 0 <= k < |b.records| ==> b.records[k].grid.None?
       else
         && AllInGrids(b.records)
         && (forall k :: 0 <= k < |b.records| ==>
               rec.width(b.records[k].grid.value) == rec.width(b.records[0].grid.value))
         && CellTokens(rec, Steps(b.records)) == Tokens(b.records) && rec.renders(Steps(b.records))
  }

  /** Neighbours are told apart: two texts would be one, as would two tables of one
      width. */
  ghost predicate Apart(rec: Recognisers, a: Block, b: Block)
    requires Whole(rec, a) && Whole(rec, b)
  {
    && !(a.Text? && b.Text?)
    && (a.Table? && b.Table? ==> rec.width(a.records[0].grid.value) != rec.width(b.records[0].grid.value))
  }

  function Records(blocks: seq<Block>): seq<Record> {
    if blocks == [] then [] else Records(blocks[..|blocks| - 1]) + blocks[|blocks| - 1].records
  }

  function Grids(b: Block): set<nat> { set r | r in b.records && r.grid.Some? :: r.grid.value }

  function GridsOf(blocks: seq<Block>): set<nat> {
    if blocks == [] then {} else GridsOf(blocks[..|blocks| - 1]) + Grids(blocks[|blocks| - 1])
  }

  ghost predicate Laid(rec: Recognisers, blocks: seq<Block>) {
    && (forall b :: 0 <= b < |blocks| ==> Whole(rec, blocks[b]))
    && (forall b :: 1 <= b < |blocks| ==> Apart(rec, blocks[b - 1], blocks[b]))
    && (forall b :: 0 <= b < |blocks| ==> Grids(blocks[b]) !! GridsOf(blocks[..b]))
  }

  function PartOf(b: Block): Part {
    if b.Text? then Prose(b.records) else Drawn(b.records, Steps(b.records), multiset{})
  }

  function PartsOf(blocks: seq<Block>): (r: seq<Part>)
    ensures |r| == |blocks| && forall b :: 0 <= b < |r| ==> r[b] == PartOf(blocks[b])
  {
    seq(|blocks|, b requires 0 <= b < |blocks| => PartOf(blocks[b]))
  }

  /** Records outside every grid are collected as prose. */
  lemma {:induction false} TextCollected(rec: Recognisers, recs: seq<Record>, i: nat, e: nat, plain: seq<Record>,
                                         parts: seq<Part>, consumed: set<nat>)
    requires i <= e <= |recs| && forall k :: i <= k < e ==> recs[k].grid.None?
    ensures BuildFrom(rec, recs, i, plain, parts, consumed)
         == BuildFrom(rec, recs, e, plain + recs[i..e], parts, consumed)
    decreases e - i
  {
    hide BuildFrom;
    if i < e {
      BuildStep(rec, recs, i, plain, parts, consumed);
      TextCollected(rec, recs, i + 1, e, plain + [recs[i]], parts, consumed);
      assert plain + [recs[i]] + recs[i + 1..e] == plain + recs[i..e];
    } else {
      assert plain + recs[i..e] == plain;
    }
  }

  /** Records i to e are in unused grids of one width, and what follows is not. */
  ghost predicate Stretch(rec: Recognisers, recs: seq<Record>, i: nat, e: nat, w: nat, consumed: set<nat>) {
    && i < e <= |recs|
    && (forall k :: i <= k < e ==> Unused(recs[k], consumed) && rec.width(recs[k].grid.value) == w)
    && (e < |recs| ==> !(Unused(recs[e], consumed) && rec.width(recs[e].grid.value) == w))
  }

  lemma {:induction false} StretchIsTaken(rec: Recognisers, recs: seq<Record>, i: nat, e: nat, w: nat, j: nat,
                                          grids: seq<nat>, consumed: set<nat>)
    requires Stretch(rec, recs, i, e, w, consumed) && i <= j <= e && grids != []
    requires j < e ==> recs[j].grid != Some(grids[|grids| - 1])
    ensures RunFrom(rec, recs, grids, w, j, consumed).1 == e
    decreases e - j
  {
    hide PastGrid;
    if j < e {
      var g := recs[j].grid.value;
      StretchIsTaken(rec, recs, i, e, w, PastGrid(recs, g, j), grids + [g], consumed);
    }
  }

  lemma RunIsStretch(rec: Recognisers, recs: seq<Record>, i: nat, e: nat, w: nat, consumed: set<nat>)
    requires Stretch(rec, recs, i, e, w, consumed)
    ensures RunAt(rec, recs, i, consumed) == (Steps(recs[i..e]), e)
  {
    hide PastGrid, RunFrom, Steps;
    var g := recs[i].grid.value;
    RunIsSteps(rec, recs, i, consumed);
    StretchIsTaken(rec, recs, i, e, w, PastGrid(recs, g, i), [g], consumed);
  }

  lemma {:induction false} RecordsAt(blocks: seq<Block>, b: nat)
    requires b < |blocks|
    ensures var i, e := |Records(blocks[..b])|, |Records(blocks[..b + 1])|;
            i + |blocks[b].records| == e <= |Records(blocks)| && Records(blocks)[i..e] == blocks[b].records
  {
    var n := |blocks| - 1;
    assert blocks[..b + 1][..b] == blocks[..b];
    if b < n {
      RecordsAt(blocks[..n], b);
      assert blocks[..n][..b] == blocks[..b] && blocks[..n][..b + 1] == blocks[..b + 1];
    } else {
      assert blocks[..b + 1] == blocks && blocks[..b] == blocks[..n];
    }
  }

  lemma {:induction false} GridsListed(run: seq<Record>)
    requires AllInGrids(run)
    ensures AsSet(Steps(run)) == Grids(Table(run))
  {
    hide Steps;
    StepsOf(run);
    forall g
      ensures g in AsSet(Steps(run)) <==> g in Grids(Table(run))
    {
      if g in Steps(run) {
        var k :| 0 <= k < |run| && run[k].grid == Some(g);
        assert run[k] in run;
      }
      if g in Grids(Table(run)) {
        var r :| r in run && r.grid == Some(g);
        var k :| 0 <= k < |run| && run[k] == r;
      }
    }
  }

  lemma OwnGridsUnused(rec: Recognisers, b: Block, used: set<nat>)
    requires Whole(rec, b) && b.Table? && Grids(b) !! used
    ensures forall k :: 0 <= k < |b.records| ==>
              Unused(b.records[k], used)
              && rec.width(b.records[k].grid.value) == rec.width(b.records[0].grid.value)
  {
    hide Steps, Tokens, CellTokens;
    forall k | 0 <= k < |b.records|
      ensures Unused(b.records[k], used)
    {
      assert b.records[k] in b.records && b.records[k].grid.value in Grids(b);
    }
  }

  /** A table's lines are a stretch where what follows, if anything, is no grid of its
      width. */
  lemma {:induction false} TableIsStretch(rec: Recognisers, recs: seq<Record>, b: Block, i: nat, e: nat, used: set<nat>)
    requires Whole(rec, b) && b.Table? && Grids(b) !! used
    requires i <= e <= |recs| && recs[i..e] == b.records
    requires e < |recs| ==>
               recs[e].grid.None? || rec.width(recs[e].grid.value) != rec.width(b.records[0].grid.value)
    ensures Stretch(rec, recs, i, e, rec.width(b.records[0].grid.value), used)
  {
    OwnGridsUnused(rec, b, used);
    hide Grids, Whole;
    forall k | i <= k < e
      ensures recs[k] == b.records[k - i]
    {
      assert recs[k] == recs[i..e][k - i];
    }
    assert b.records != [] by { HasLines(rec, b); }
  }

  lemma HasLines(rec: Recognisers, b: Block)
    requires Whole(rec, b)
    ensures b.records != []
  {
  }

  lemma NextBegins(rec: Recognisers, blocks: seq<Block>, b: nat)
    requires Laid(rec, blocks) && b + 1 < |blocks| && blocks[b].Table?
    ensures var recs, e := Records(blocks), |Records(blocks[..b + 1])|;
            e < |recs| && (recs[e].grid.None? || rec.width(recs[e].grid.value)
                                               != rec.width(blocks[b].records[0].grid.value))
  {
    var recs, e := Records(blocks), |Records(blocks[..b + 1])|;
    RecordsAt(blocks, b + 1);
    var next := blocks[b + 1];
    assert blocks[..b + 1 + 1] == blocks[..b + 2];
    assert recs[e] == recs[e..e + |next.records|][0] == next.records[0];
    assert Apart(rec, blocks[b + 1 - 1], blocks[b + 1]);
  }

  lemma {:induction false} TextStep(rec: Recognisers, recs: seq<Record>, b: Block, i: nat, e: nat, parts: seq<Part>,
                                    used: set<nat>)
    requires Whole(rec, b) && b.Text? && i <= e <= |recs| && recs[i..e] == b.records
    ensures BuildFrom(rec, recs, i, [], parts, used) == BuildFrom(rec, recs, e, b.records, parts, used)
  {
    hide BuildFrom;
    forall k | i <= k < e
      ensures recs[k].grid.None?
    {
      assert recs[k] == recs[i..e][k - i];
    }
    assert [] + recs[i..e] == b.records;
    TextCollected(rec, recs, i, e, [], parts, used);
  }

  lemma WholeRunDraws(parts: seq<Part>, plain: seq<Record>, run: seq<Record>, grids: seq<nat>)
    ensures Drew(parts, plain, run, grids, Fit(0, 0, multiset{}))
         == Flushed(parts, plain) + [Drawn(run, grids, multiset{})]
  {
    assert run[..0] == [] && run[0..|run|] == run;
  }

  /** A stretch whose grids carry its words is drawn whole. */
  lemma {:induction false} StretchIsDrawn(rec: Recognisers, recs: seq<Record>, i: nat, e: nat, w: nat,
                                          plain: seq<Record>, parts: seq<Part>, used: set<nat>)
    requires Stretch(rec, recs, i, e, w, used)
    requires CellTokens(rec, Steps(recs[i..e])) == Tokens(recs[i..e]) && rec.renders(Steps(recs[i..e]))
    ensures var run := recs[i..e];
            BuildFrom(rec, recs, i, plain, parts, used) ==
            BuildFrom(rec, recs, e, [], Flushed(parts, plain) + [Drawn(run, Steps(run), multiset{})],
                      used + AsSet(Steps(run)))
  {
    hide BuildFrom, RunAt, FitOf, Steps, Tokens, CellTokens, Drew, AsSet, Flushed, Unused;
    var run, grids := recs[i..e], Steps(recs[i..e]);
    StretchBegins(rec, recs, i, e, w, used);
    RunIsStretch(rec, recs, i, e, w, used);
    hide Stretch;
    ExactGridFits(rec, run);
    WholeRunDraws(parts, plain, run, grids);
    BuildStep(rec, recs, i, plain, parts, used);
    assert RunAt(rec, recs, i, used) == (grids, e);
    assert FitOf(rec, CellTokens(rec, grids), run) == Some(Fit(0, 0, multiset{}));
  }

  lemma StretchBegins(rec: Recognisers, recs: seq<Record>, i: nat, e: nat, w: nat, used: set<nat>)
    requires Stretch(rec, recs, i, e, w, used)
    ensures i < e <= |recs| && Unused(recs[i], used)
  {
  }

  lemma {:induction false} TableStep(rec: Recognisers, recs: seq<Record>, b: Block, i: nat, e: nat,
                                     plain: seq<Record>, parts: seq<Part>, used: set<nat>)
    requires Whole(rec, b) && b.Table? && Grids(b) !! used && i <= e <= |recs| && recs[i..e] == b.records
    requires e < |recs| ==>
               recs[e].grid.None? || rec.width(recs[e].grid.value) != rec.width(b.records[0].grid.value)
    ensures BuildFrom(rec, recs, i, plain, parts, used)
         == BuildFrom(rec, recs, e, [], Flushed(parts, plain) + [PartOf(b)], used + Grids(b))
  {
    hide BuildFrom, Steps, Tokens, CellTokens, Stretch, Grids, AsSet, Flushed;
    TableIsStretch(rec, recs, b, i, e, used);
    GridsListed(b.records);
    assert Table(b.records) == b;
    StretchIsDrawn(rec, recs, i, e, rec.width(b.records[0].grid.value), plain, parts, used);
  }

  /** Block `b` is records i to e of the note, and what follows a table is told apart. */
  ghost predicate Stands(rec: Recognisers, blocks: seq<Block>, b: nat, i: nat, e: nat)
    requires b < |blocks|
  {
    var recs := Records(blocks);
    && i <= e <= |recs| && recs[i..e] == blocks[b].records
    && Whole(rec, blocks[b]) && Grids(blocks[b]) !! GridsOf(blocks[..b])
    && GridsOf(blocks[..b + 1]) == GridsOf(blocks[..b]) + Grids(blocks[b])
    && (blocks[b].Table? && e < |recs| ==>
          recs[e].grid.None? || rec.width(recs[e].grid.value) != rec.width(blocks[b].records[0].grid.value))
    && (blocks[b].Text? ==> Grids(blocks[b]) == {} && (b + 1 < |blocks| ==> blocks[b + 1].Table?))
  }

  lemma {:induction false} BlockStands(rec: Recognisers, blocks: seq<Block>, b: nat)
    requires Laid(rec, blocks) && b < |blocks|
    ensures Stands(rec, blocks, b, |Records(blocks[..b])|, |Records(blocks[..b + 1])|)
  {
    RecordsAt(blocks, b);
    assert blocks[..b + 1][..b] == blocks[..b];
    if blocks[b].Text? {
      TextIsApart(rec, blocks, b);
      NoGrids(rec, blocks[b]);
    } else if b + 1 < |blocks| {
      NextBegins(rec, blocks, b);
    } else {
      assert blocks[..b + 1] == blocks;
    }
    hide Steps, Tokens, CellTokens, Grids, Whole, Records;
  }

  lemma NoGrids(rec: Recognisers, b: Block)
    requires Whole(rec, b) && b.Text?
    ensures Grids(b) == {}
  {
    assert forall r :: r in b.records ==> r.grid.None?;
  }

  lemma {:induction false} BuildBlocks(rec: Recognisers, blocks: seq<Block>, b: nat, plain: seq<Record>,
                                       parts: seq<Part>)
    requires Laid(rec, blocks) && b <= |blocks| && |Records(blocks[..b])| <= |Records(blocks)|
    requires plain != [] && b < |blocks| ==> blocks[b].Table?
    ensures BuildFrom(rec, Records(blocks), |Records(blocks[..b])|, plain, parts, GridsOf(blocks[..b])).0
         == Flushed(parts, plain) + PartsOf(blocks[b..])
    decreases |blocks| - b
  {
    hide BuildFrom, Records, GridsOf, Whole, Steps, Grids, Laid;
    var recs, i, used := Records(blocks), |Records(blocks[..b])|, GridsOf(blocks[..b]);
    if b == |blocks| {
      assert blocks[..b] == blocks && PartsOf(blocks[b..]) == [];
      BuildEnd(rec, recs, plain, parts, used);
    } else {
      var e := |Records(blocks[..b + 1])|;
      BlockStands(rec, blocks, b);
      assert PartsOf(blocks[b..]) == [PartOf(blocks[b])] + PartsOf(blocks[b + 1..]);
      if blocks[b].Text? {
        TextStep(rec, recs, blocks[b], i, e, parts, used);
        BuildBlocks(rec, blocks, b + 1, blocks[b].records, parts);
        HasLines(rec, blocks[b]);
        assert used + {} == used && Flushed(parts, plain) == parts;
        assert Flushed(parts, blocks[b].records) == parts + [PartOf(blocks[b])];
      } else {
        TableStep(rec, recs, blocks[b], i, e, plain, parts, used);
        BuildBlocks(rec, blocks, b + 1, [], Flushed(parts, plain) + [PartOf(blocks[b])]);
      }
    }
  }

  lemma TextIsApart(rec: Recognisers, blocks: seq<Block>, b: nat)
    requires Laid(rec, blocks) && b < |blocks| && blocks[b].Text?
    ensures blocks[b].records != [] && (b + 1 < |blocks| ==> blocks[b + 1].Table?)
  {
    assert b + 1 < |blocks| ==> Apart(rec, blocks[b + 1 - 1], blocks[b + 1]);
  }

  /** A note of prose and tables, each table carrying just its lines' words, comes out
      as it is laid: its prose as prose, its tables drawn, in order. */
  lemma {:induction false} NoteAsLaid(rec: Recognisers, blocks: seq<Block>)
    requires Laid(rec, blocks)
    ensures BuildFrom(rec, Records(blocks), 0, [], [], {}).0 == PartsOf(blocks)
  {
    assert blocks[..0] == [] && blocks[0..] == blocks;
    BuildBlocks(rec, blocks, 0, [], []);
  }
}

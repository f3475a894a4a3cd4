/** Rendering a note's records partly from ruled grids. */
module FootnoteGrids {
  import opened Common

  // Grids are numbered; tokens are given.

  /** A note line: its tokens and the grid it falls inside. */
  datatype Record = Record(tokens: seq<string>, grid: Option<nat>)

  datatype Recognisers = Recognisers(
    cells: nat -> seq<string>,      // tokens of a grid's cells
    width: nat -> nat,              // columns of a grid
    closing: string -> bool,        // only brackets and quotes
    renders: seq<nat> -> bool)      // whether grids joined in this order draw a table

  function Tokens(recs: seq<Record>): multiset<string> {
    if recs == [] then multiset{} else Tokens(recs[..|recs| - 1]) + multiset(recs[|recs| - 1].tokens)
  }

  function CellTokens(rec: Recognisers, grids: seq<nat>): multiset<string> {
    if grids == [] then multiset{} else CellTokens(rec, grids[..|grids| - 1]) + multiset(rec.cells(grids[|grids| - 1]))
  }

  // ----- fitting a grid to its records -----------------------------------------

  /** Trim `lead` records in front and `trail` behind; `leak` is printed beside. */
  datatype Fit = Fit(lead: nat, trail: nat, leak: multiset<string>)

  /** `fit` is faithful: the records left carry exactly the grid's tokens and the
      leak, at most two pieces of closing punctuation. */
  ghost predicate Faithful(rec: Recognisers, have: multiset<string>, recs: seq<Record>, fit: Fit) {
    && fit.lead + fit.trail <= 3 && fit.lead + fit.trail < |recs|
    && Tokens(recs[fit.lead..|recs| - fit.trail]) == have + fit.leak
    && |fit.leak| <= 2 && (forall t :: t in fit.leak ==> rec.closing(t))
  }

  /** What is left of records `lo` to `hi` after at most `turns` trims: the last record
      first, else the first one, while it carries a token the grid lacks. */
  function Trimmed(have: multiset<string>, recs: seq<Record>, lo: nat, hi: nat, turns: nat): (r: (nat, nat))
    requires lo <= hi <= |recs|
    ensures lo <= r.0 <= r.1 <= hi && (r.0 - lo) + (hi - r.1) <= turns
    decreases turns
  {
    var missing := Tokens(recs[lo..hi]) - have;
    if turns == 0 || missing == multiset{} || hi <= lo then (lo, hi)
    else if multiset(recs[hi - 1].tokens) * missing != multiset{} then Trimmed(have, recs, lo, hi - 1, turns - 1)
    else if multiset(recs[lo].tokens) * missing != multiset{} then Trimmed(have, recs, lo + 1, hi, turns - 1)
    else (lo, hi)
  }

  /** The fit of a grid, None where it does not stand for the records left. */
  function FitOf(rec: Recognisers, have: multiset<string>, recs: seq<Record>): (fit: Option<Fit>)
    ensures fit.Some? ==> fit.value.lead + fit.value.trail < |recs|
  {
    var (lo, hi) := Trimmed(have, recs, 0, |recs|, 3);
    var missing, extra := Tokens(recs[lo..hi]) - have, have - Tokens(recs[lo..hi]);
    if hi <= lo || extra != multiset{} then None
    else if missing == multiset{} then Some(Fit(lo, |recs| - hi, multiset{}))
    else if |missing| <= 2 && forall t | t in missing :: rec.closing(t) then Some(Fit(lo, |recs| - hi, missing))
    else None
  }

  /** A fit is faithful: the records left and the grid carry the same tokens. */
  lemma FitIsFaithful(rec: Recognisers, have: multiset<string>, recs: seq<Record>)
    ensures FitOf(rec, have, recs).Some? ==> Faithful(rec, have, recs, FitOf(rec, have, recs).value)
  {
    hide Tokens, Trimmed;
    var (lo, hi) := Trimmed(have, recs, 0, |recs|, 3);
    NeedIs(Tokens(recs[lo..hi]), have);
  }

  /** A grid carrying just its records' tokens stands for them all, untrimmed. */
  lemma ExactGridFits(rec: Recognisers, recs: seq<Record>)
    requires recs != []
    ensures FitOf(rec, Tokens(recs), recs) == Some(Fit(0, 0, multiset{}))
  {
    hide Tokens, Trimmed;
    NothingToTrim(Tokens(recs), recs);
    assert recs[0..|recs|] == recs;
  }

  lemma NothingToTrim(have: multiset<string>, recs: seq<Record>)
    requires Tokens(recs) == have
    ensures Trimmed(have, recs, 0, |recs|, 3) == (0, |recs|)
  {
    assert recs[0..|recs|] == recs;
  }

  /** One turn of the trimming. */
  lemma TrimStep(have: multiset<string>, recs: seq<Record>, lo: nat, hi: nat, turns: nat)
    requires lo <= hi <= |recs| && turns > 0
    ensures var missing := Tokens(recs[lo..hi]) - have;
            Trimmed(have, recs, lo, hi, turns) ==
            if missing == multiset{} || hi <= lo then (lo, hi)
            else if multiset(recs[hi - 1].tokens) * missing != multiset{}
                then Trimmed(have, recs, lo, hi - 1, turns - 1)
            else if multiset(recs[lo].tokens) * missing != multiset{} then Trimmed(have, recs, lo + 1, hi, turns - 1)
            else (lo, hi)
  {
    hide Tokens;
  }

  lemma NoTurnsLeft(have: multiset<string>, recs: seq<Record>, lo: nat, hi: nat)
    requires lo <= hi <= |recs|
    ensures Trimmed(have, recs, lo, hi, 0) == (lo, hi)
  {
    hide Tokens;
  }

  /** The trimming loop. */
  method TrimRecords(have: multiset<string>, recs: seq<Record>, turns: nat) returns (lo: nat, hi: nat)
    ensures lo <= hi <= |recs| && (lo, hi) == Trimmed(have, recs, 0, |recs|, turns)
  {
    hide Tokens, Trimmed;
    lo, hi := 0, |recs|;
    var left := turns;
    while left > 0
      invariant lo <= hi <= |recs|
      invariant Trimmed(have, recs, lo, hi, left) == Trimmed(have, recs, 0, |recs|, turns)
    {
      TrimStep(have, recs, lo, hi, left);
      var missing := Tokens(recs[lo..hi]) - have;
      if missing == multiset{} || hi <= lo {
        return;
      }
      if multiset(recs[hi - 1].tokens) * missing != multiset{} {
        hi := hi - 1;
      } else if multiset(recs[lo].tokens) * missing != multiset{} {
        lo := lo + 1;
      } else {
        return;
      }
      left := left - 1;
    }
    NoTurnsLeft(have, recs, lo, hi);
  }

  /** `_fit_grid_to_records`. */
  method FitGridToRecords(rec: Recognisers, have: multiset<string>, recs: seq<Record>) returns (fit: Option<Fit>)
    ensures fit == FitOf(rec, have, recs)
  {
    hide Tokens, Trimmed;
    var lo, hi := TrimRecords(have, recs, 3);
    var need := Tokens(recs[lo..hi]);
    var missing, extra := need - have, have - need;
    if hi <= lo || extra != multiset{} {
      return None;
    }
    if missing != multiset{} {
      if |missing| <= 2 && forall t | t in missing :: rec.closing(t) {
        return Some(Fit(lo, |recs| - hi, missing));
      }
      return None;
    }
    return Some(Fit(lo, |recs| - hi, multiset{}));
  }

  lemma NeedIs(need: multiset<string>, have: multiset<string>)
    ensures have - need == multiset{} ==> need == have + (need - have)
  {
    if have - need == multiset{} {
      forall t: string
        ensures need[t] >= have[t]
      {
        assert (have - need)[t] == 0;
      }
    }
  }

  // ----- one run of grids ------------------------------------------------------

  function Unused(r: Record, consumed: set<nat>): bool {
    r.grid.Some? && r.grid.value !in consumed
  }

  /** The end of the records from `j` on that fall inside grid `g`. */
  function PastGrid(recs: seq<Record>, g: nat, j: nat): (r: nat)
    requires j <= |recs|
    ensures j <= r <= |recs|
    ensures j < |recs| && recs[j].grid == Some(g) ==> j < r
    ensures forall k :: j <= k < r ==> recs[k].grid == Some(g)
    ensures r < |recs| ==> recs[r].grid != Some(g)
    decreases |recs| - j
  {
    if j < |recs| && recs[j].grid == Some(g) then PastGrid(recs, g, j + 1) else j
  }

  /** The grids from `g` on and where their records end: fragments of the same width
      join while they follow directly. */
  function RunFrom(rec: Recognisers, recs: seq<Record>, grids: seq<nat>, w: nat, j: nat,
                   consumed: set<nat>): (r: (seq<nat>, nat))
    requires grids != [] && j <= |recs|
    ensures j <= r.1 <= |recs|
    decreases |recs| - j
  {
    if j < |recs| && Unused(recs[j], consumed) && recs[j].grid != Some(grids[|grids| - 1])
        && rec.width(recs[j].grid.value) == w then
      RunFrom(rec, recs, grids + [recs[j].grid.value], w, PastGrid(recs, recs[j].grid.value, j), consumed)
    else (grids, j)
  }

  // What a run takes: the grids of its records, each change of grid anew.

  ghost predicate AllInGrids(run: seq<Record>) { forall k :: 0 <= k < |run| ==> run[k].grid.Some? }

  function Steps(run: seq<Record>): seq<nat> {
    if run == [] then []
    else
      var before, r := Steps(run[..|run| - 1]), run[|run| - 1];
      if r.grid.None? || (before != [] && before[|before| - 1] == r.grid.value) then before else before + [r.grid.value]
  }

  ghost predicate Twice(grids: seq<nat>) { exists i, j :: 0 <= i < j < |grids| && grids[i] == grids[j] }

  ghost predicate ReturnAt(run: seq<Record>, x: nat, y: nat, z: nat) {
    x < y < z < |run| && run[x].grid == run[z].grid && run[y].grid != run[x].grid
  }

  /** The records come back to a grid after another one. */
  ghost predicate Returns(run: seq<Record>) { exists x: nat, y: nat, z: nat :: ReturnAt(run, x, y, z) }

  lemma {:induction false} StepsOf(run: seq<Record>)
    requires AllInGrids(run)
    ensures run == [] <==> Steps(run) == []
    ensures run != [] ==> Some(Steps(run)[|Steps(run)| - 1]) == run[|run| - 1].grid
    ensures forall g :: g in Steps(run) <==> exists k :: 0 <= k < |run| && run[k].grid == Some(g)
  {
    if run != [] {
      var front, r := run[..|run| - 1], run[|run| - 1];
      StepsOf(front);
      assert run == front + [r];
      forall g
        ensures g in Steps(run) <==> exists k :: 0 <= k < |run| && run[k].grid == Some(g)
      {
        assert g in Steps(run) <==> g in Steps(front) || r.grid == Some(g);
        if k :| 0 <= k < |run| && run[k].grid == Some(g) {
          assert k < |front| ==> front[k] == run[k];
        }
      }
    }
  }

  /** A run lists a grid twice if and only if its records return to one. */
  lemma {:induction false} TwiceWhereReturning(run: seq<Record>)
    requires AllInGrids(run)
    ensures Twice(Steps(run)) <==> Returns(run)
  {
    if run == [] {
      NothingTwice();
    } else {
      var front, r := run[..|run| - 1], run[|run| - 1];
      assert run == front + [r];
      TwiceWhereReturning(front);
      StepsOf(front);
      hide Twice, Returns;
      if front == [] {
        OneStep(r);
      } else if front[|front| - 1].grid == r.grid {
        SameGridAgain(front, r);
      } else {
        OtherGridNow(front, r);
        TwiceOneMore(Steps(front), r.grid.value);
      }
    }
  }

  lemma NothingTwice()
    ensures !Twice(Steps([])) && !Returns([])
  {
  }

  lemma OneStep(r: Record)
    requires r.grid.Some?
    ensures [r][..0] == [] && !Twice(Steps([r])) && !Returns([r])
  {
    assert [r][..0] == [];
    assert Steps([r]) == [r.grid.value];
  }

  lemma SameGridAgain(front: seq<Record>, r: Record)
    requires front != [] && front[|front| - 1].grid == r.grid
    ensures Returns(front + [r]) <==> Returns(front)
  {
    var run, n := front + [r], |front|;
    if Returns(front) {
      var x: nat, y: nat, z: nat :| ReturnAt(front, x, y, z);
      assert ReturnAt(run, x, y, z);
    }
    if Returns(run) {
      var x: nat, y: nat, z: nat :| ReturnAt(run, x, y, z);
      assert ReturnAt(front, x, y, if z == n then n - 1 else z);
    }
  }

  lemma OtherGridNow(front: seq<Record>, r: Record)
    requires front != [] && front[|front| - 1].grid != r.grid
    ensures Returns(front + [r]) <==> Returns(front) || exists k :: 0 <= k < |front| && front[k].grid == r.grid
  {
    var run, n := front + [r], |front|;
    if Returns(front) {
      var x: nat, y: nat, z: nat :| ReturnAt(front, x, y, z);
      assert ReturnAt(run, x, y, z);
    }
    if k :| 0 <= k < n && front[k].grid == r.grid {
      assert ReturnAt(run, k, n - 1, n);
    }
    if Returns(run) {
      var x: nat, y: nat, z: nat :| ReturnAt(run, x, y, z);
      if z == n {
        assert front[x].grid == r.grid;
      } else {
        assert ReturnAt(front, x, y, z);
      }
    }
  }

  lemma TwiceOneMore(grids: seq<nat>, g: nat)
    ensures Twice(grids + [g]) <==> Twice(grids) || g in grids
  {
    var r, n := grids + [g], |grids|;
    if Twice(grids) {
      var i, j :| 0 <= i < j < n && grids[i] == grids[j];
      assert r[i] == r[j];
    }
    if g in grids {
      var i :| 0 <= i < n && grids[i] == g;
      assert r[i] == r[n];
    }
  }

  function RunAt(rec: Recognisers, recs: seq<Record>, i: nat, consumed: set<nat>): (r: (seq<nat>, nat))
    requires i < |recs| && Unused(recs[i], consumed)
    ensures i < r.1 <= |recs|
  {
    var g := recs[i].grid.value;
    RunFrom(rec, recs, [g], rec.width(g), PastGrid(recs, g, i), consumed)
  }

  lemma {:induction false} StepsOver(run: seq<Record>, more: seq<Record>, g: nat)
    requires more != [] && forall k :: 0 <= k < |more| ==> more[k].grid == Some(g)
    requires run != [] ==> Steps(run) != [] && Steps(run)[|Steps(run)| - 1] != g
    requires run == [] ==> Steps(run) == []
    ensures Steps(run + more) == Steps(run) + [g]
  {
    var n := |more| - 1;
    assert (run + more)[..|run| + n] == run + more[..n];
    if n == 0 {
      assert run + more[..0] == run;
    } else {
      StepsOver(run, more[..n], g);
    }
  }

  /** A run's grids are those of the records it claims, step by step. */
  lemma {:induction false} RunFromSteps(rec: Recognisers, recs: seq<Record>, i: nat, grids: seq<nat>, w: nat, j: nat,
                                        consumed: set<nat>)
    requires i < j <= |recs| && AllInGrids(recs[i..j]) && grids == Steps(recs[i..j]) && grids != []
    ensures var (r, e) := RunFrom(rec, recs, grids, w, j, consumed);
            i < e && AllInGrids(recs[i..e]) && r == Steps(recs[i..e])
    decreases |recs| - j
  {
    hide PastGrid, Steps;
    if j < |recs| && Unused(recs[j], consumed) && recs[j].grid != Some(grids[|grids| - 1])
        && rec.width(recs[j].grid.value) == w {
      var g := recs[j].grid.value;
      var e := PastGrid(recs, g, j);
      assert recs[i..e] == recs[i..j] + recs[j..e];
      StepsOver(recs[i..j], recs[j..e], g);
      RunFromSteps(rec, recs, i, grids + [g], w, e, consumed);
    }
  }

  lemma RunIsSteps(rec: Recognisers, recs: seq<Record>, i: nat, consumed: set<nat>)
    requires i < |recs| && Unused(recs[i], consumed)
    ensures var (grids, j) := RunAt(rec, recs, i, consumed); AllInGrids(recs[i..j]) && grids == Steps(recs[i..j])
  {
    hide PastGrid, Steps, RunFrom;
    var g := recs[i].grid.value;
    var j := PastGrid(recs, g, i);
    FirstStep(recs[i..j], g);
    RunFromSteps(rec, recs, i, [g], rec.width(g), j, consumed);
  }

  lemma FirstStep(run: seq<Record>, g: nat)
    requires run != [] && forall k :: 0 <= k < |run| ==> run[k].grid == Some(g)
    ensures Steps(run) == [g]
  {
    assert [] + run == run;
    assert Steps([]) == [];
    StepsOver([], run, g);
  }

  /** The grid at `i` and the page-split fragments that follow it directly. */
  method TakeRun(rec: Recognisers, recs: seq<Record>, i: nat, consumed: set<nat>) returns (grids: seq<nat>, j: nat)
    requires i < |recs| && Unused(recs[i], consumed)
    ensures i < j <= |recs| && grids != [] && grids[0] == recs[i].grid.value
    ensures forall k :: i <= k < j ==> recs[k].grid.Some? && recs[k].grid.value in grids
    ensures forall g :: g in grids ==> g !in consumed && rec.width(g) == rec.width(grids[0])
    ensures (grids, j) == RunAt(rec, recs, i, consumed)
  {
    hide PastGrid;
    var g := recs[i].grid.value;
    var w := rec.width(g);
    grids := [g];
    j := PastGrid(recs, g, i);
    while j < |recs| && Unused(recs[j], consumed) && recs[j].grid != Some(g) && rec.width(recs[j].grid.value) == w
      invariant i < j <= |recs| && grids != [] && grids[0] == recs[i].grid.value && w == rec.width(grids[0])
      invariant forall k :: i <= k < j ==> recs[k].grid.Some? && recs[k].grid.value in grids
      invariant forall x :: x in grids ==> x !in consumed && rec.width(x) == w
      invariant grids[|grids| - 1] == g
      invariant RunFrom(rec, recs, grids, w, j, consumed) == RunAt(rec, recs, i, consumed)
    {
      g := recs[j].grid.value;
      grids := grids + [g];
      j := PastGrid(recs, g, j);
    }
  }

  // ----- building --------------------------------------------------------------

  /** What is rendered, part by part: prose records, or the records a run of grids
      stands for, with the punctuation leaked beside it. */
  datatype Part =
    | Prose(records: seq<Record>)
    | Drawn(records: seq<Record>, grids: seq<nat>, leak: multiset<string>)

  function Covered(parts: seq<Part>): seq<Record> {
    if parts == [] then [] else Covered(parts[..|parts| - 1]) + parts[|parts| - 1].records
  }

  /** A drawn part says what its records say, no more and no less. */
  ghost predicate DrawsItsRecords(rec: Recognisers, p: Part) {
    p.Drawn? ==>
      && p.records != [] && rec.renders(p.grids)
      && Tokens(p.records) == CellTokens(rec, p.grids) + p.leak
      && |p.leak| <= 2 && (forall t :: t in p.leak ==> rec.closing(t))
  }

  ghost predicate GridsOnce(parts: seq<Part>, consumed: set<nat>) {
    && (forall i, g :: 0 <= i < |parts| && parts[i].Drawn? && g in parts[i].grids ==> g in consumed)
    && (forall i, j, g :: 0 <= i < j < |parts| && parts[i].Drawn? && parts[j].Drawn? && g in parts[i].grids ==>
          g !in parts[j].grids)
  }

  /** The part draws the grids of records `i` to `j`, step by step, for records `a` to
      `b` of them. */
  ghost predicate FromRun(recs: seq<Record>, p: Part, i: nat, a: nat, b: nat, j: nat) {
    && p.Drawn? && i <= a < b <= j <= |recs| && (a - i) + (j - b) <= 3
    && AllInGrids(recs[i..j]) && p.grids == Steps(recs[i..j]) && p.records == recs[a..b]
  }

  ghost predicate HasRun(recs: seq<Record>, p: Part) {
    p.Drawn? ==> exists i: nat, a: nat, b: nat, j: nat :: FromRun(recs, p, i, a, b, j)
  }

  /** A part draws a grid twice if and only if the records of its run return to one. */
  lemma DrawnTwice(recs: seq<Record>, p: Part, i: nat, a: nat, b: nat, j: nat)
    requires FromRun(recs, p, i, a, b, j)
    ensures Twice(p.grids) <==> Returns(recs[i..j])
  {
    TwiceWhereReturning(recs[i..j]);
  }

  ghost predicate FromRuns(recs: seq<Record>, parts: seq<Part>) { forall p :: p in parts ==> HasRun(recs, p) }

  lemma OneMoreFromRun(recs: seq<Record>, parts: seq<Part>, p: Part)
    requires FromRuns(recs, parts) && HasRun(recs, p)
    ensures FromRuns(recs, parts + [p])
  {
    forall q | q in parts + [p]
      ensures HasRun(recs, q)
    {
      assert q in parts || q == p;
    }
  }

  lemma SliceOfSlice(recs: seq<Record>, i: nat, j: nat, x: nat, y: nat)
    requires i <= j <= |recs| && x <= y <= j - i
    ensures recs[i..j][x..y] == recs[i + x..i + y]
  {
    forall k | 0 <= k < y - x
      ensures recs[i..j][x..y][k] == recs[i + x..i + y][k]
    {
      assert recs[i..j][x + k] == recs[i + x + k];
    }
  }

  lemma DrewFromRuns(recs: seq<Record>, parts: seq<Part>, plain: seq<Record>, i: nat, j: nat, grids: seq<nat>, fit: Fit)
    requires FromRuns(recs, parts) && i < j <= |recs| && AllInGrids(recs[i..j]) && grids == Steps(recs[i..j])
    requires fit.lead + fit.trail <= 3 && fit.lead + fit.trail < j - i
    ensures FromRuns(recs, Drew(parts, plain, recs[i..j], grids, fit))
  {
    hide Steps, AllInGrids;
    var run, a, b := recs[i..j], i + fit.lead, j - fit.trail;
    var drawn := Drawn(run[fit.lead..|run| - fit.trail], grids, fit.leak);
    SliceOfSlice(recs, i, j, fit.lead, |run| - fit.trail);
    assert HasRun(recs, drawn) by { assert FromRun(recs, drawn, i, a, b, j); }
    hide FromRun, FromRuns, Flushed;
    FlushedFromRuns(recs, parts, plain);
    FlushedFromRuns(recs, Flushed(parts, plain), run[..fit.lead]);
    OneMoreFromRun(recs, Flushed(Flushed(parts, plain), run[..fit.lead]), drawn);
  }

  lemma FlushedFromRuns(recs: seq<Record>, parts: seq<Part>, plain: seq<Record>)
    requires FromRuns(recs, parts)
    ensures FromRuns(recs, Flushed(parts, plain))
  {}

  /** Parts that may stand so far. */
  ghost predicate Sound(rec: Recognisers, parts: seq<Part>, consumed: set<nat>) {
    GridsOnce(parts, consumed) && forall p :: p in parts ==> DrawsItsRecords(rec, p)
  }

  lemma FlushedSound(rec: Recognisers, parts: seq<Part>, plain: seq<Record>, consumed: set<nat>)
    requires Sound(rec, parts, consumed)
    ensures Sound(rec, Flushed(parts, plain), consumed)
    ensures Covered(Flushed(parts, plain)) == Covered(parts) + plain
  {
    hide Covered;
    if plain != [] {
      CoveredOneMore(parts, Prose(plain));
    }
  }

  lemma DrawnSound(rec: Recognisers, parts: seq<Part>, drawn: Part, consumed: set<nat>)
    requires Sound(rec, parts, consumed) && drawn.Drawn? && DrawsItsRecords(rec, drawn)
    requires forall g :: g in drawn.grids ==> g !in consumed
    ensures Sound(rec, parts + [drawn], consumed + AsSet(drawn.grids))
    ensures Covered(parts + [drawn]) == Covered(parts) + drawn.records
  {
    hide DrawsItsRecords, Covered;
    CoveredOneMore(parts, drawn);
  }

  lemma SoundWider(rec: Recognisers, parts: seq<Part>, consumed: set<nat>, more: set<nat>)
    requires Sound(rec, parts, consumed)
    ensures Sound(rec, parts, consumed + more)
  {
    hide DrawsItsRecords;
  }

  function Flushed(parts: seq<Part>, plain: seq<Record>): (r: seq<Part>)
  {
    if plain == [] then parts else parts + [Prose(plain)]
  }

  lemma CoveredOneMore(parts: seq<Part>, p: Part)
    ensures Covered(parts + [p]) == Covered(parts) + p.records
  {
    assert (parts + [p])[..|parts|] == parts;
  }

  /** The parts once the trimmed lead has been flushed as prose and the run drawn. */
  function Drew(parts: seq<Part>, plain: seq<Record>, run: seq<Record>, grids: seq<nat>, fit: Fit): seq<Part>
    requires fit.lead + fit.trail <= |run|
  {
    Flushed(Flushed(parts, plain), run[..fit.lead]) + [Drawn(run[fit.lead..|run| - fit.trail], grids, fit.leak)]
  }

  function AsSet(grids: seq<nat>): set<nat> { set g | g in grids }

  /** The parts of a note and the grids used, from record `i` on. */
  function BuildFrom(rec: Recognisers, recs: seq<Record>, i: nat, plain: seq<Record>, parts: seq<Part>,
                     consumed: set<nat>):
    (seq<Part>, set<nat>)
    requires i <= |recs|
    decreases |recs| - i
  {
    if i == |recs| then (Flushed(parts, plain), consumed)
    else if !Unused(recs[i], consumed) then BuildFrom(rec, recs, i + 1, plain + [recs[i]], parts, consumed)
    else
      var (grids, j) := RunAt(rec, recs, i, consumed);
      var fit := FitOf(rec, CellTokens(rec, grids), recs[i..j]);
      if fit.Some? && rec.renders(grids) then
        BuildFrom(rec, recs, j - fit.value.trail, [], Drew(parts, plain, recs[i..j], grids, fit.value),
            consumed + AsSet(grids))
      else BuildFrom(rec, recs, i + 1, plain + [recs[i]], parts, consumed + AsSet(grids))
  }

  /** Flush, emit the trimmed lead as prose, draw the rest. */
  method DrawRun(rec: Recognisers, recs: seq<Record>, i: nat, j: nat, parts0: seq<Part>, plain: seq<Record>,
                 grids: seq<nat>, fit: Fit, ghost consumed: set<nat>) returns (parts: seq<Part>)
    requires i < j <= |recs| && AllInGrids(recs[i..j]) && grids == Steps(recs[i..j])
    requires Sound(rec, parts0, consumed) && FromRuns(recs, parts0) && rec.renders(grids)
    requires Faithful(rec, CellTokens(rec, grids), recs[i..j], fit)
    requires forall g :: g in grids ==> g !in consumed
    ensures fit.lead + fit.trail < j - i
    ensures Sound(rec, parts, consumed + AsSet(grids)) && FromRuns(recs, parts)
    ensures Covered(parts) == Covered(parts0) + plain + recs[i..j - fit.trail]
    ensures parts == Drew(parts0, plain, recs[i..j], grids, fit)
  {
    hide Tokens, CellTokens, Covered, Sound, FromRuns, AllInGrids, Steps, Flushed, Faithful, DrawsItsRecords;
    var run := recs[i..j];
    FaithfulShrinks(rec, CellTokens(rec, grids), run, fit);
    DrewFromRuns(recs, parts0, plain, i, j, grids, fit);
    FlushedSound(rec, parts0, plain, consumed);
    parts := Flushed(parts0, plain);
    FlushedSound(rec, parts, run[..fit.lead], consumed);
    parts := Flushed(parts, run[..fit.lead]);
    var drawn := Drawn(run[fit.lead..|run| - fit.trail], grids, fit.leak);
    FaithfulDraws(rec, run, grids, fit);
    DrawnSound(rec, parts, drawn, consumed);
    SliceOfSlice(recs, i, j, 0, |run| - fit.trail);
    SlicesJoin(run[..|run| - fit.trail], fit.lead, |run| - fit.trail);
    assert run[..|run| - fit.trail] == run[0..|run| - fit.trail];
    parts := parts + [drawn];
  }

  lemma FaithfulDraws(rec: Recognisers, run: seq<Record>, grids: seq<nat>, fit: Fit)
    requires Faithful(rec, CellTokens(rec, grids), run, fit) && rec.renders(grids)
    ensures DrawsItsRecords(rec, Drawn(run[fit.lead..|run| - fit.trail], grids, fit.leak))
  {
    hide Tokens, CellTokens;
  }

  /** `_build_html`.  It terminates; the parts cover the records in order, each
      record once, as prose or in one drawn part; every drawn part says exactly
      what its records say and draws the grids of its run; no grid is drawn by two
      parts. */
  method BuildHtml(rec: Recognisers, recs: seq<Record>) returns (parts: seq<Part>, consumed: set<nat>)
    ensures (parts, consumed) == BuildFrom(rec, recs, 0, [], [], {})
    ensures Covered(parts) == recs
    ensures forall p :: p in parts ==> DrawsItsRecords(rec, p)
    ensures GridsOnce(parts, consumed) && FromRuns(recs, parts)
  {
    hide FromRuns, AllInGrids, Steps, GridsOnce, DrawsItsRecords, AsSet;
    hide Tokens, CellTokens, Covered, Faithful, Sound, Flushed, Drew, FitOf, RunAt, BuildFrom;
    parts, consumed := [], {};
    EmptySound(rec, recs);
    var plain: seq<Record> := [];
    var i := 0;
    while i < |recs|
      invariant i <= |recs|
      invariant Covered(parts) + plain == recs[..i]
      invariant Sound(rec, parts, consumed) && FromRuns(recs, parts)
      invariant BuildFrom(rec, recs, i, plain, parts, consumed) == BuildFrom(rec, recs, 0, [], [], {})
      decreases |recs| - i
    {
      BuildStep(rec, recs, i, plain, parts, consumed);
      if !Unused(recs[i], consumed) {
        plain := plain + [recs[i]];
        i := i + 1;
        continue;
      }
      var grids, j := TakeRun(rec, recs, i, consumed);
      var fit := FitGridToRecords(rec, CellTokens(rec, grids), recs[i..j]);
      FitIsFaithful(rec, CellTokens(rec, grids), recs[i..j]);
      RunIsSteps(rec, recs, i, consumed);
      if fit.Some? && rec.renders(grids) {
        parts := DrawRun(rec, recs, i, j, parts, plain, grids, fit.value, consumed);
        SlicesJoin(recs, i, j - fit.value.trail);
        plain := [];
        i := j - fit.value.trail;
      } else {
        SoundWider(rec, parts, consumed, AsSet(grids));
        plain := plain + [recs[i]];
        i := i + 1;
      }
      consumed := consumed + AsSet(grids);
    }
    BuildEnd(rec, recs, plain, parts, consumed);
    FlushedSound(rec, parts, plain, consumed);
    FlushedFromRuns(recs, parts, plain);
    parts := Flushed(parts, plain);
    assert recs[..|recs|] == recs;
    SoundMeans(rec, parts, consumed);
  }

  lemma SlicesJoin(recs: seq<Record>, i: nat, j: nat)
    requires i <= j <= |recs|
    ensures recs[..i] + recs[i..j] == recs[..j]
  {
  }

  /** One turn of the loop. */
  lemma BuildStep(rec: Recognisers, recs: seq<Record>, i: nat, plain: seq<Record>, parts: seq<Part>, consumed: set<nat>)
    requires i < |recs|
    ensures BuildFrom(rec, recs, i, plain, parts, consumed) ==
            if !Unused(recs[i], consumed) then BuildFrom(rec, recs, i + 1, plain + [recs[i]], parts, consumed)
            else
              var (grids, j) := RunAt(rec, recs, i, consumed);
              var fit := FitOf(rec, CellTokens(rec, grids), recs[i..j]);
              if fit.Some? && rec.renders(grids) then
                BuildFrom(rec, recs, j - fit.value.trail, [], Drew(parts, plain, recs[i..j], grids, fit.value),
                          consumed + AsSet(grids))
              else BuildFrom(rec, recs, i + 1, plain + [recs[i]], parts, consumed + AsSet(grids))
  {
    hide FitOf, RunAt, CellTokens, Drew, AsSet, Unused;
  }

  lemma BuildEnd(rec: Recognisers, recs: seq<Record>, plain: seq<Record>, parts: seq<Part>, consumed: set<nat>)
    ensures BuildFrom(rec, recs, |recs|, plain, parts, consumed) == (Flushed(parts, plain), consumed)
  {
  }

  lemma FaithfulShrinks(rec: Recognisers, have: multiset<string>, recs: seq<Record>, fit: Fit)
    requires Faithful(rec, have, recs, fit)
    ensures fit.lead + fit.trail <= 3 && fit.lead + fit.trail < |recs|
  {}

  lemma SoundMeans(rec: Recognisers, parts: seq<Part>, consumed: set<nat>)
    requires Sound(rec, parts, consumed)
    ensures GridsOnce(parts, consumed) && forall p :: p in parts ==> DrawsItsRecords(rec, p)
  {}

  lemma EmptySound(rec: Recognisers, recs: seq<Record>)
    ensures Sound(rec, [], {}) && Covered([]) == [] && FromRuns(recs, [])
  {}

  // ----- a grid drawn twice ----------------------------------------------------

  /** Three records in grids 0, 1 and 0, of one width and a cell each. */
  function ThereAndBack(): seq<Record> {
    [Record(["x"], Some(0)), Record(["y"], Some(1)), Record(["x"], Some(0))]
  }

  function TwoGrids(): Recognisers {
    Recognisers(g => if g == 0 then ["x"] else ["y"], _ => 2, _ => false, _ => true)
  }

  /** A note whose records are one run with just its grids' tokens is one drawn part. */
  lemma OneRunDrawn(rec: Recognisers, recs: seq<Record>, grids: seq<nat>)
    requires recs != [] && Unused(recs[0], {}) && RunAt(rec, recs, 0, {}) == (grids, |recs|)
    requires CellTokens(rec, grids) == Tokens(recs) && rec.renders(grids)
    ensures BuildFrom(rec, recs, 0, [], [], {}).0 == [Drawn(recs, grids, multiset{})]
  {
    ExactGridFits(rec, recs);
    hide FitOf, RunAt, Tokens, CellTokens, Unused;
    var n, fit := |recs|, Fit(0, 0, multiset{});
    assert recs[0..n] == recs && recs[..0] == [];
    var parts := Drew([], [], recs, grids, fit);
    assert parts == [Drawn(recs, grids, multiset{})];
    hide Drew;
    assert BuildFrom(rec, recs, 0, [], [], {}) == BuildFrom(rec, recs, n, [], parts, {} + AsSet(grids));
  }

  /** One part draws grid 0 on both sides of grid 1. */
  lemma GridDrawnTwice()
    ensures BuildFrom(TwoGrids(), ThereAndBack(), 0, [], [], {}).0 == [Drawn(ThereAndBack(), [0, 1, 0], multiset{})]
    ensures Returns(ThereAndBack())
  {
    assert ReturnAt(ThereAndBack(), 0, 1, 2);
    ThereAndBackRun();
    ThereAndBackTokens();
    hide RunAt, BuildFrom, Tokens, CellTokens;
    OneRunDrawn(TwoGrids(), ThereAndBack(), [0, 1, 0]);
  }

  lemma ThereAndBackRun()
    ensures RunAt(TwoGrids(), ThereAndBack(), 0, {}) == ([0, 1, 0], 3)
  {
    var rec, recs := TwoGrids(), ThereAndBack();
    assert PastGrid(recs, 0, 0) == 1 && PastGrid(recs, 1, 1) == 2 && PastGrid(recs, 0, 2) == 3;
    assert [0] + [1] == [0, 1] && [0, 1] + [0] == [0, 1, 0];
    assert RunFrom(rec, recs, [0, 1, 0], 2, 3, {}) == ([0, 1, 0], 3);
    assert RunFrom(rec, recs, [0, 1], 2, 2, {}) == ([0, 1, 0], 3);
  }

  lemma ThereAndBackTokens()
    ensures CellTokens(TwoGrids(), [0, 1, 0]) == Tokens(ThereAndBack())
  {
    var rec, recs := TwoGrids(), ThereAndBack();
    assert [0, 1, 0][..2] == [0, 1] && [0, 1][..1] == [0] && [0][..0] == [];
    assert recs[..2] == [recs[0], recs[1]] && recs[..2][..1] == [recs[0]] && [recs[0]][..0] == [];
    assert Tokens([recs[0]]) == multiset(["x"]);
    assert CellTokens(rec, [0]) == multiset(["x"]);
  }
}

/** Moving a flat tree into instrument containers (`represent_compilation`), and the
    tree counts that must survive it (`tree_counts`). */
module Compilation {
  import opened Common
  import opened NodeKeys

  // ----- counting a tree -------------------------------------------------------

  /** Nodes of kind `want` in the tree under a node of kind `kind`, itself included. */
  function KindCount(kind: Kind, node: Node, want: Kind): nat
    decreases node
  {
    (if kind == want then 1 else 0) + LevelCount(node.groups, want)
  }

  function LevelCount(level: Level, want: Kind): nat
    decreases level
  {
    if level == [] then 0
    else ListCount(level[0].kind, level[0].nodes, want) + LevelCount(level[1..], want)
  }

  function ListCount(kind: Kind, nodes: seq<Node>, want: Kind): nat
    decreases nodes
  {
    if nodes == [] then 0 else KindCount(kind, nodes[0], want) + ListCount(kind, nodes[1..], want)
  }

  type Counter = map<Kind, nat>

  function Tally(c: Counter, k: Kind): nat { if k in c then c[k] else 0 }

  /** `_walk_counts`. */
  method WalkCounts(node: Node, kind: Kind, counts0: Counter) returns (counts: Counter)
    ensures forall k :: Tally(counts, k) == Tally(counts0, k) + KindCount(kind, node, k)
    decreases node
  {
    counts := counts0[kind := Tally(counts0, kind) + 1];
    ghost var start := counts;
    assert node.groups[0..] == node.groups;
    for g := 0 to |node.groups|
      invariant forall k ::
                  Tally(counts, k) + LevelCount(node.groups[g..], k) == Tally(start, k) + LevelCount(node.groups, k)
    {
      var nodes, childKind := node.groups[g].nodes, node.groups[g].kind;
      ghost var before := counts;
      assert nodes[0..] == nodes;
      for i := 0 to |nodes|
        invariant forall k :: Tally(counts, k) + ListCount(childKind, nodes[i..], k)
                              == Tally(before, k) + ListCount(childKind, nodes, k)
      {
        counts := WalkCounts(nodes[i], childKind, counts);
      }
    }
  }

  datatype TreeCounts = TreeCounts(
    instruments: nat, chapters: nat, parts: nat, divisions: nat, sections: nat, schedules: nat, scheduleSections: nat)

  datatype InstrumentNode = InstrumentNode(code: string, heading: Option<string>, chapters: seq<Node>,
      schedules: seq<Node>)

  function ChapterRoots(instruments: seq<InstrumentNode>): seq<Node> {
    if instruments == [] then []
    else ChapterRoots(instruments[..|instruments| - 1]) + instruments[|instruments| - 1].chapters
  }

  function ScheduleRoots(instruments: seq<InstrumentNode>): seq<Node> {
    if instruments == [] then []
    else ScheduleRoots(instruments[..|instruments| - 1]) + instruments[|instruments| - 1].schedules
  }

  /** `tree_counts`: roots from the instruments and from the document itself. */
  function CountsOf(instruments: seq<InstrumentNode>, chapters: seq<Node>, schedules: seq<Node>): TreeCounts {
    var ch, sch := ChapterRoots(instruments) + chapters, ScheduleRoots(instruments) + schedules;
    TreeCounts(
      |instruments|,
      ListCount(Chapter, ch, Chapter),
      ListCount(Chapter, ch, Part) + ListCount(Schedule, sch, Part),
      ListCount(Chapter, ch, Division) + ListCount(Schedule, sch, Division),
      ListCount(Chapter, ch, Section),
      ListCount(Schedule, sch, Schedule),
      ListCount(Schedule, sch, Section))
  }

  // ----- partitions ------------------------------------------------------------

  datatype Partition = Partition(code: string, heading: string, chapterIndexes: seq<int>, scheduleIndexes: seq<int>)

  datatype Reason = AlreadyPartitioned | NoCode | OutOfRange | AssignedTwice | NoInstrument | NotConserved

  datatype Verdict = Accepted | Refused(reason: Reason)

  predicate IsSpace(c: char) { c == ' ' || '\t' <= c <= '\r' }

  function StripLeft(s: string): string { if s != "" && IsSpace(s[0]) then StripLeft(s[1..]) else s }

  function StripRight(s: string): string {
    if s != "" && IsSpace(s[|s| - 1]) then StripRight(s[..|s| - 1]) else s
  }

  function Strip(s: string): string { StripRight(StripLeft(s)) }

  function ChapterIndexes(ps: seq<Partition>): seq<int> {
    if ps == [] then [] else ChapterIndexes(ps[..|ps| - 1]) + ps[|ps| - 1].chapterIndexes
  }

  function ScheduleIndexes(ps: seq<Partition>): seq<int> {
    if ps == [] then [] else ScheduleIndexes(ps[..|ps| - 1]) + ps[|ps| - 1].scheduleIndexes
  }

  ghost predicate InRange(idx: seq<int>, n: nat) { forall j :: 0 <= j < |idx| ==> 0 <= idx[j] < n }

  ghost predicate Distinct(idx: seq<int>) { forall i, j :: 0 <= i < j < |idx| ==> idx[i] != idx[j] }

  ghost predicate Complete(idx: seq<int>, n: nat) { forall i :: 0 <= i < n ==> i in idx }

  /** Every root is assigned exactly once, and nothing else is. */
  ghost predicate Permutes(idx: seq<int>, n: nat) { InRange(idx, n) && Distinct(idx) && Complete(idx, n) }

  ghost predicate Coded(ps: seq<Partition>) { forall p :: 0 <= p < |ps| ==> Strip(ps[p].code) != "" }

  ghost predicate Partitions(ps: seq<Partition>, chapters: nat, schedules: nat) {
    ps != [] && Coded(ps) && Permutes(ChapterIndexes(ps), chapters) && Permutes(ScheduleIndexes(ps), schedules)
  }

  function Pick(nodes: seq<Node>, idx: seq<int>): (r: seq<Node>)
    ensures |r| <= |idx|
  {
    if idx == [] then []
    else
      var last := idx[|idx| - 1];
      Pick(nodes, idx[..|idx| - 1]) + if 0 <= last < |nodes| then [nodes[last]] else []
  }

  function Heading(p: Partition): Option<string> {
    if Strip(p.heading) == "" then None else Some(Strip(p.heading))
  }

  function BuildOne(p: Partition, chapters: seq<Node>, schedules: seq<Node>): InstrumentNode {
    InstrumentNode(Strip(p.code), Heading(p), Pick(chapters, p.chapterIndexes), Pick(schedules, p.scheduleIndexes))
  }

  function Build(ps: seq<Partition>, chapters: seq<Node>, schedules: seq<Node>): (r: seq<InstrumentNode>)
    ensures |r| == |ps|
  {
    if ps == [] then [] else Build(ps[..|ps| - 1], chapters, schedules) + [BuildOne(ps[|ps| - 1], chapters, schedules)]
  }

  // ----- the operation ---------------------------------------------------------

  /** The indexes taken so far are in range and distinct, and `used` is their set. */
  ghost predicate Taken(used: set<int>, idx: seq<int>, n: nat) {
    InRange(idx, n) && Distinct(idx) && forall x :: x in used <==> x in idx
  }

  /** The inner `selected`: `taken` lists the indexes used by earlier partitions. */
  method Selected(indexes: seq<int>, nodes: seq<Node>, used0: set<int>, ghost taken: seq<int>)
    returns (chosen: seq<Node>, used: set<int>, problem: Option<Reason>)
    requires Taken(used0, taken, |nodes|)
    ensures problem.None? ==> chosen == Pick(nodes, indexes) && Taken(used, taken + indexes, |nodes|)
    ensures problem.Some? ==> problem.value in {OutOfRange, AssignedTwice}
    ensures problem == Some(OutOfRange) ==> !InRange(taken + indexes, |nodes|)
    ensures problem == Some(AssignedTwice) ==> !Distinct(taken + indexes)
  {
    chosen, used, problem := [], used0, None;
    assert taken + indexes[..0] == taken;
    for j := 0 to |indexes|
      invariant Taken(used, taken + indexes[..j], |nodes|)
      invariant chosen == Pick(nodes, indexes[..j])
    {
      var raw := indexes[j];
      ghost var before := taken + indexes[..j];
      assert indexes[..j + 1][..j] == indexes[..j];
      assert taken + indexes[..j + 1] == before + [raw];
      assert (taken + indexes)[|taken| + j] == raw;
      if raw < 0 || raw >= |nodes| {
        problem := Some(OutOfRange);
        return;
      }
      if raw in used {
        assert raw in before;
        assert exists i :: 0 <= i < |before| && before[i] == raw && (taken + indexes)[i] == raw;
        problem := Some(AssignedTwice);
        return;
      }
      used := used + {raw};
      chosen := chosen + [nodes[raw]];
    }
    assert indexes[..|indexes|] == indexes;
  }

  /** What each refusal means. */
  ghost predicate Explains(reason: Reason, instruments: seq<InstrumentNode>, ps: seq<Partition>, chapters: nat,
                           schedules: nat) {
    match reason
    case AlreadyPartitioned => instruments != []
    case NoCode => !Coded(ps)
    case OutOfRange => !InRange(ChapterIndexes(ps), chapters) || !InRange(ScheduleIndexes(ps), schedules)
    case AssignedTwice => !Distinct(ChapterIndexes(ps)) || !Distinct(ScheduleIndexes(ps))
    case NoInstrument => ps == []
    case NotConserved => !Complete(ChapterIndexes(ps), chapters) || !Complete(ScheduleIndexes(ps), schedules)
  }

  /** A fault among the first partitions is a fault of the whole. */
  lemma FaultStays(taken: seq<int>, indexes: seq<int>, all: seq<int>, n: nat)
    requires taken + indexes <= all
    ensures InRange(all, n) ==> InRange(taken + indexes, n)
    ensures Distinct(all) ==> Distinct(taken + indexes)
  {
    var part := taken + indexes;
    assert forall i :: 0 <= i < |part| ==> part[i] == all[i];
  }

  /** The first `p` partitions are built and their indexes are taken. */
  ghost predicate Progress(ps: seq<Partition>, p: nat, built: seq<InstrumentNode>, usedChapters: set<int>,
                           usedSchedules: set<int>, chapters: seq<Node>, schedules: seq<Node>)
    requires p <= |ps|
  {
    && built == Build(ps[..p], chapters, schedules) && Coded(ps[..p])
    && Taken(usedChapters, ChapterIndexes(ps[..p]), |chapters|)
    && Taken(usedSchedules, ScheduleIndexes(ps[..p]), |schedules|)
  }

  lemma NextPartition(ps: seq<Partition>, p: nat, chapters: seq<Node>, schedules: seq<Node>)
    requires p < |ps|
    ensures Build(ps[..p + 1], chapters, schedules) ==
        Build(ps[..p], chapters, schedules) + [BuildOne(ps[p], chapters, schedules)]
    ensures ChapterIndexes(ps[..p + 1]) == ChapterIndexes(ps[..p]) + ps[p].chapterIndexes <= ChapterIndexes(ps)
    ensures ScheduleIndexes(ps[..p + 1]) == ScheduleIndexes(ps[..p]) + ps[p].scheduleIndexes <= ScheduleIndexes(ps)
  {
    hide BuildOne;
    IndexesAreParts(ps, p + 1);
    assert ps[..p + 1] != [] && ps[..p + 1][..p] == ps[..p];
  }

  lemma NextCode(ps: seq<Partition>, p: nat)
    requires p < |ps|
    ensures Coded(ps[..p]) ==> (Coded(ps[..p + 1]) <==> Strip(ps[p].code) != "")
    ensures Coded(ps) ==> Strip(ps[p].code) != ""
  {
    hide Strip;
    assert ps[..p + 1] == ps[..p] + [ps[p]];
  }

  lemma AllBuilt(ps: seq<Partition>, built: seq<InstrumentNode>, usedChapters: set<int>, usedSchedules: set<int>,
                 chapters: seq<Node>, schedules: seq<Node>)
    requires Progress(ps, |ps|, built, usedChapters, usedSchedules, chapters, schedules)
    ensures built == Build(ps, chapters, schedules) && Coded(ps)
    ensures Complete(ChapterIndexes(ps), |chapters|) <==> forall i :: 0 <= i < |chapters| ==> i in usedChapters
    ensures Complete(ScheduleIndexes(ps), |schedules|) <==> forall i :: 0 <= i < |schedules| ==> i in usedSchedules
    ensures InRange(ChapterIndexes(ps), |chapters|) && Distinct(ChapterIndexes(ps))
    ensures InRange(ScheduleIndexes(ps), |schedules|) && Distinct(ScheduleIndexes(ps))
  {
    hide Build;
    assert ps[..|ps|] == ps;
  }

  class Document {
    var instruments: seq<InstrumentNode>
    var chapters: seq<Node>
    var schedules: seq<Node>
    var instrumentsCount: Option<nat>

    /** `represent_compilation`: accepts exactly the partitions that assign every root
        once, and changes nothing when it refuses. */
    method Represent(ps: seq<Partition>) returns (r: Verdict)
      modifies this
      ensures r.Accepted? <==> old(instruments) == [] && Partitions(ps, old(|chapters|), old(|schedules|))
      ensures r.Accepted? ==> instruments == Build(ps, old(chapters), old(schedules))
                              && chapters == [] && schedules == [] && instrumentsCount == Some(|ps|)
      ensures r.Refused? ==> unchanged(this)
      ensures r.Refused? ==> Explains(r.reason, old(instruments), ps, old(|chapters|), old(|schedules|))
    {
      hide Build, InRange, Distinct, Complete, Coded, Strip, Pick, ChapterIndexes, ScheduleIndexes, Heading;
      if instruments != [] {
        return Refused(AlreadyPartitioned);
      }
      var built: seq<InstrumentNode> := [];
      var usedChapters: set<int>, usedSchedules: set<int> := {}, {};
      NothingBuilt(ps, chapters, schedules);
      for p := 0 to |ps|
        invariant unchanged(this)
        invariant Progress(ps, p, built, usedChapters, usedSchedules, chapters, schedules)
      {
        NextPartition(ps, p, chapters, schedules);
        NextCode(ps, p);
        if Strip(ps[p].code) == "" {
          return Refused(NoCode);
        }
        ghost var c, s := ChapterIndexes(ps[..p]), ScheduleIndexes(ps[..p]);
        FaultStays(c, ps[p].chapterIndexes, ChapterIndexes(ps), |chapters|);
        FaultStays(s, ps[p].scheduleIndexes, ScheduleIndexes(ps), |schedules|);
        var chosenChapters, chosenSchedules, problem;
        chosenChapters, usedChapters, problem := Selected(ps[p].chapterIndexes, chapters, usedChapters, c);
        if problem.Some? {
          return Refused(problem.value);
        }
        chosenSchedules, usedSchedules, problem := Selected(ps[p].scheduleIndexes, schedules, usedSchedules, s);
        if problem.Some? {
          return Refused(problem.value);
        }
        built := built + [InstrumentNode(Strip(ps[p].code), Heading(ps[p]), chosenChapters, chosenSchedules)];
      }
      AllBuilt(ps, built, usedChapters, usedSchedules, chapters, schedules);
      if built == [] {
        return Refused(NoInstrument);
      }
      if (exists i :: 0 <= i < |chapters| && i !in usedChapters)
          || (exists i :: 0 <= i < |schedules| && i !in usedSchedules) {
        return Refused(NotConserved);
      }
      instruments, chapters, schedules, instrumentsCount := built, [], [], Some(|ps|);
      r := Accepted;
    }
  }

  lemma NothingBuilt(ps: seq<Partition>, chapters: seq<Node>, schedules: seq<Node>)
    ensures Progress(ps, 0, [], {}, {}, chapters, schedules)
  {
    assert ps[..0] == [];
  }

  /** The indexes of the first partitions come first. */
  lemma {:induction false} IndexesAreParts(ps: seq<Partition>, p: nat)
    requires p <= |ps|
    ensures ChapterIndexes(ps[..p]) <= ChapterIndexes(ps) && ScheduleIndexes(ps[..p]) <= ScheduleIndexes(ps)
  {
    if p < |ps| {
      IndexesAreParts(ps[..|ps| - 1], p);
      assert ps[..|ps| - 1][..p] == ps[..p];
    } else {
      assert ps[..p] == ps;
    }
  }

  // ----- conservation ----------------------------------------------------------

  lemma {:induction false} ListCountSplits(kind: Kind, a: seq<Node>, b: seq<Node>, want: Kind)
    ensures ListCount(kind, a + b, want) == ListCount(kind, a, want) + ListCount(kind, b, want)
  {
    if a == [] {
      assert a + b == b;
    } else {
      ListCountSplits(kind, a[1..], b, want);
      assert (a + b)[1..] == a[1..] + b;
    }
  }

  lemma {:induction false} PickSplits(nodes: seq<Node>, a: seq<int>, b: seq<int>)
    ensures Pick(nodes, a + b) == Pick(nodes, a) + Pick(nodes, b)
  {
    if b == [] {
      assert a + b == a;
    } else {
      var front, last := b[..|b| - 1], if 0 <= b[|b| - 1] < |nodes| then [nodes[b[|b| - 1]]] else [];
      PickSplits(nodes, a, front);
      assert (a + b)[..|a| + |b| - 1] == a + front;
      assert Pick(nodes, a + b) == Pick(nodes, a + front) + last && Pick(nodes, b) == Pick(nodes, front) + last;
      hide Pick;
      assert (Pick(nodes, a) + Pick(nodes, front)) + last == Pick(nodes, a) + (Pick(nodes, front) + last);
    }
  }

  lemma {:induction false} PickIgnoresLast(nodes: seq<Node>, n: nat, idx: seq<int>)
    requires n <= |nodes| && InRange(idx, n)
    ensures Pick(nodes, idx) == Pick(nodes[..n], idx)
  {
    if idx != [] {
      PickIgnoresLast(nodes, n, idx[..|idx| - 1]);
    }
  }

  lemma RestPermutes(idx: seq<int>, j: nat, n: nat)
    requires j < |idx| && n > 0 && idx[j] == n - 1 && Permutes(idx, n)
    ensures Permutes(idx[..j] + idx[j + 1..], n - 1)
  {
    var rest := idx[..j] + idx[j + 1..];
    assert forall k :: 0 <= k < |rest| ==> rest[k] == idx[if k < j then k else k + 1];
    forall i | 0 <= i < n - 1
      ensures i in rest
    {
      assert i in idx;
      var k :| 0 <= k < |idx| && idx[k] == i;
      assert rest[if k < j then k else k - 1] == i;
    }
  }

  /** Nodes picked by a permutation count as the nodes themselves. */
  lemma {:induction false} PickCounts(nodes: seq<Node>, idx: seq<int>, kind: Kind, want: Kind)
    requires Permutes(idx, |nodes|)
    ensures ListCount(kind, Pick(nodes, idx), want) == ListCount(kind, nodes, want)
    decreases |nodes|
  {
    hide Permutes, ListCount;
    var n := |nodes|;
    if n == 0 {
      NothingToPick(idx);
    } else {
      var j := LastIsThere(idx, n);
      var front := nodes[..n - 1];
      RestPermutes(idx, j, n);
      PickCounts(front, idx[..j] + idx[j + 1..], kind, want);
      PickIgnoresLast(nodes, n - 1, idx[..j] + idx[j + 1..]) by { RestInRange(idx[..j] + idx[j + 1..], n - 1); }
      TakeOut(nodes, idx, j, kind, want);
      assert nodes == front + [nodes[n - 1]];
      ListCountSplits(kind, front, [nodes[n - 1]], want);
    }
  }

  lemma {:induction false} NothingToPick(idx: seq<int>)
    ensures Pick([], idx) == []
  {
    if idx != [] {
      NothingToPick(idx[..|idx| - 1]);
    }
  }

  lemma RestInRange(idx: seq<int>, n: nat)
    requires Permutes(idx, n)
    ensures InRange(idx, n)
  {
  }

  lemma LastIsThere(idx: seq<int>, n: nat) returns (j: nat)
    requires Permutes(idx, n) && n > 0
    ensures j < |idx| && idx[j] == n - 1
  {
    assert n - 1 in idx;
    j :| 0 <= j < |idx| && idx[j] == n - 1;
  }

  lemma TakeOut(nodes: seq<Node>, idx: seq<int>, j: nat, kind: Kind, want: Kind)
    requires j < |idx| && 0 <= idx[j] < |nodes|
    ensures ListCount(kind, Pick(nodes, idx), want)
            == ListCount(kind, Pick(nodes, idx[..j] + idx[j + 1..]), want) + ListCount(kind, [nodes[idx[j]]], want)
  {
    hide ListCount;
    var a, x, b := idx[..j], [idx[j]], idx[j + 1..];
    assert idx == a + (x + b);
    PickSplits(nodes, a, x + b);
    PickSplits(nodes, x, b);
    PickSplits(nodes, a, b);
    assert Pick(nodes, x) == [nodes[idx[j]]] by { assert x[..0] == []; }
    ListCountSplits(kind, Pick(nodes, a), Pick(nodes, x + b), want);
    ListCountSplits(kind, Pick(nodes, x), Pick(nodes, b), want);
    ListCountSplits(kind, Pick(nodes, a), Pick(nodes, b), want);
  }

  lemma {:induction false} RootsArePicked(ps: seq<Partition>, chapters: seq<Node>, schedules: seq<Node>)
    ensures ChapterRoots(Build(ps, chapters, schedules)) == Pick(chapters, ChapterIndexes(ps))
    ensures ScheduleRoots(Build(ps, chapters, schedules)) == Pick(schedules, ScheduleIndexes(ps))
  {
    if ps != [] {
      var front, last := ps[..|ps| - 1], ps[|ps| - 1];
      RootsArePicked(front, chapters, schedules);
      PickSplits(chapters, ChapterIndexes(front), last.chapterIndexes);
      PickSplits(schedules, ScheduleIndexes(front), last.scheduleIndexes);
      assert Build(ps, chapters, schedules)[..|ps| - 1] == Build(front, chapters, schedules);
    }
  }

  /** An accepted compilation has the counts of the flat tree in every field but the
      number of instruments. */
  lemma CountsAreKept(ps: seq<Partition>, chapters: seq<Node>, schedules: seq<Node>)
    requires Partitions(ps, |chapters|, |schedules|)
    ensures CountsOf(Build(ps, chapters, schedules), [], []) == CountsOf([], chapters, schedules).(instruments := |ps|)
  {
    RootsArePicked(ps, chapters, schedules);
    hide ListCount, Build, Permutes;
    assert [] + chapters == chapters && [] + schedules == schedules;
    var ch, sch := Pick(chapters, ChapterIndexes(ps)), Pick(schedules, ScheduleIndexes(ps));
    assert ch + [] == ch && sch + [] == sch;
    forall want
      ensures ListCount(Chapter, ch, want) == ListCount(Chapter, chapters, want)
      ensures ListCount(Schedule, sch, want) == ListCount(Schedule, schedules, want)
    {
      PickCounts(chapters, ChapterIndexes(ps), Chapter, want);
      PickCounts(schedules, ScheduleIndexes(ps), Schedule, want);
    }
  }
}

/** What the tree counts count, and what an accepted partition yields. */
module CompilationLaws {
  import opened Common
  import opened NodeKeys
  import opened Compilation

  // ----- counting by paths -----------------------------------------------------

  /** The child taken on the way down: its group and its place in it. */
  datatype Child = Child(group: nat, place: nat)

  type Path = seq<Child>

  /** The path leads from a node of this kind to one of kind `want`. */
  predicate Leads(kind: Kind, node: Node, path: Path, want: Kind)
    decreases |path|
  {
    if path == [] then kind == want
    else
      var s := path[0];
      && s.group < |node.groups| && s.place < |node.groups[s.group].nodes|
      && Leads(node.groups[s.group].kind, node.groups[s.group].nodes[s.place], path[1..], want)
  }

  ghost function Under(s: Child, paths: set<Path>): set<Path> { set p | p in paths :: [s] + p }

  lemma {:induction false} UnderCounts(s: Child, paths: set<Path>)
    ensures |Under(s, paths)| == |paths|
  {
    if paths == {} {
      assert Under(s, paths) == {};
    } else {
      var p :| p in paths;
      UnderCounts(s, paths - {p});
      assert Under(s, paths) == Under(s, paths - {p}) + {[s] + p};
      forall q: Path
        ensures [s] + q == [s] + p ==> q == p
      {
        assert ([s] + q)[1..] == q && ([s] + p)[1..] == p;
      }
      assert [s] + p !in Under(s, paths - {p});
    }
  }

  lemma UnderHas(s: Child, paths: set<Path>, p: Path)
    ensures p in Under(s, paths) <==> p != [] && p[0] == s && p[1..] in paths
  {
    if p != [] && p[0] == s && p[1..] in paths {
      assert p == [s] + p[1..];
    }
  }

  /** `paths` are those from the node itself to nodes of kind `want`. */
  ghost predicate FromNode(kind: Kind, node: Node, want: Kind, paths: set<Path>) {
    forall p: Path :: p in paths <==> Leads(kind, node, p, want)
  }

  /** ... those that start with one of the children from `i` on of group `g`. */
  ghost predicate FromList(kind: Kind, nodes: seq<Node>, g: nat, i: nat, want: Kind, paths: set<Path>) {
    forall p: Path :: p in paths <==>
      && p != [] && p[0].group == g && i <= p[0].place < i + |nodes|
      && Leads(kind, nodes[p[0].place - i], p[1..], want)
  }

  /** ... those that start with a child of one of the groups from `g` on. */
  ghost predicate FromLevel(level: Level, g: nat, want: Kind, paths: set<Path>) {
    forall p: Path :: p in paths <==>
      && p != [] && g <= p[0].group < g + |level|
      && p[0].place < |level[p[0].group - g].nodes|
      && Leads(level[p[0].group - g].kind, level[p[0].group - g].nodes[p[0].place], p[1..], want)
  }

  /** The count of a kind is the number of paths that lead to it. */
  lemma {:induction false} KindCountExactly(kind: Kind, node: Node, want: Kind) returns (paths: set<Path>)
    ensures FromNode(kind, node, want, paths) && |paths| == KindCount(kind, node, want)
    decreases node
  {
    var below := LevelPaths(node.groups, 0, want);
    paths := below + if kind == want then {[]} else {};
    assert [] !in below;
    forall p: Path
      ensures p in paths <==> Leads(kind, node, p, want)
    {
    }
  }

  lemma {:induction false} LevelPaths(level: Level, g: nat, want: Kind) returns (paths: set<Path>)
    ensures FromLevel(level, g, want, paths) && |paths| == LevelCount(level, want)
    decreases level
  {
    if level == [] {
      paths := {};
    } else {
      var first := ListPaths(level[0].kind, level[0].nodes, g, 0, want);
      var rest := LevelPaths(level[1..], g + 1, want);
      paths := first + rest;
      assert first !! rest;
      LevelJoins(level, g, want, first, rest);
    }
  }

  lemma LevelJoins(level: Level, g: nat, want: Kind, first: set<Path>, rest: set<Path>)
    requires level != [] && FromList(level[0].kind, level[0].nodes, g, 0, want, first)
    requires FromLevel(level[1..], g + 1, want, rest)
    ensures FromLevel(level, g, want, first + rest)
  {
    hide Leads;
    forall p: Path | p != [] && p[0].group != g
      ensures g < p[0].group < g + |level| ==> level[1..][p[0].group - (g + 1)] == level[p[0].group - g]
    {
    }
  }

  lemma {:induction false} ListPaths(kind: Kind, nodes: seq<Node>, g: nat, i: nat, want: Kind)
    returns (paths: set<Path>)
    ensures FromList(kind, nodes, g, i, want, paths) && |paths| == ListCount(kind, nodes, want)
    decreases nodes
  {
    if nodes == [] {
      paths := {};
    } else {
      var own := KindCountExactly(kind, nodes[0], want);
      var rest := ListPaths(kind, nodes[1..], g, i + 1, want);
      var first := Under(Child(g, i), own);
      UnderCounts(Child(g, i), own);
      paths := first + rest;
      ListJoins(kind, nodes, g, i, want, own, rest);
    }
  }

  lemma ListJoins(kind: Kind, nodes: seq<Node>, g: nat, i: nat, want: Kind, own: set<Path>, rest: set<Path>)
    requires nodes != [] && FromNode(kind, nodes[0], want, own)
    requires FromList(kind, nodes[1..], g, i + 1, want, rest)
    ensures Under(Child(g, i), own) !! rest
    ensures FromList(kind, nodes, g, i, want, Under(Child(g, i), own) + rest)
  {
    hide Leads, Under;
    forall p: Path
      ensures p in Under(Child(g, i), own) <==> p != [] && p[0] == Child(g, i) && p[1..] in own
    {
      UnderHas(Child(g, i), own, p);
    }
    forall p: Path | p != [] && i < p[0].place < i + |nodes|
      ensures nodes[1..][p[0].place - (i + 1)] == nodes[p[0].place - i]
    {
    }
  }

  /** The tree counts are the numbers of ways down from the roots: parts and divisions
      from all of them, sections apart under chapters and under schedules. */
  lemma {:induction false} TreeCountsExactly(instruments: seq<InstrumentNode>, chapters: seq<Node>,
                                             schedules: seq<Node>, want: Kind)
    returns (under: set<Path>, aside: set<Path>)
    ensures FromList(Chapter, ChapterRoots(instruments) + chapters, 0, 0, want, under)
    ensures FromList(Schedule, ScheduleRoots(instruments) + schedules, 0, 0, want, aside)
    ensures var c := CountsOf(instruments, chapters, schedules);
            && c.instruments == |instruments|
            && (want == Chapter ==> c.chapters == |under|) && (want == Schedule ==> c.schedules == |aside|)
            && (want == Part ==> c.parts == |under| + |aside|)
            && (want == Division ==> c.divisions == |under| + |aside|)
            && (want == Section ==> c.sections == |under| && c.scheduleSections == |aside|)
  {
    hide FromList, ListCount, ChapterRoots, ScheduleRoots;
    under := ListPaths(Chapter, ChapterRoots(instruments) + chapters, 0, 0, want);
    aside := ListPaths(Schedule, ScheduleRoots(instruments) + schedules, 0, 0, want);
  }

  // ----- an accepted partition -------------------------------------------------

  ghost predicate AllSpace(s: string) {
    forall i :: 0 <= i < |s| ==> s[i] == ' ' || '\t' <= s[i] <= '\r'
  }

  /** `r` is `s` without the whitespace at its ends. */
  ghost predicate Stripped(s: string, r: string) {
    && (r != "" ==> !AllSpace(r[..1]) && !AllSpace(r[|r| - 1..]))
    && exists i, j :: 0 <= i <= j <= |s| && r == s[i..j] && AllSpace(s[..i]) && AllSpace(s[j..])
  }

  lemma {:induction false} StripLeftExactly(s: string) returns (i: nat)
    ensures i <= |s| && StripLeft(s) == s[i..] && AllSpace(s[..i])
    ensures i < |s| ==> !AllSpace(s[i..i + 1])
  {
    i := 0;
    if s != "" && IsSpace(s[0]) {
      var k := StripLeftExactly(s[1..]);
      i := k + 1;
      assert s[1..][k..] == s[i..] && s[..i] == [s[0]] + s[1..][..k];
      assert i < |s| ==> s[i..i + 1] == s[1..][k..k + 1];
    } else if s != "" {
      assert s[0..1][0] == s[0];
    }
  }

  lemma {:induction false} StripRightExactly(s: string) returns (j: nat)
    ensures j <= |s| && StripRight(s) == s[..j] && AllSpace(s[j..])
    ensures 0 < j ==> !AllSpace(s[j - 1..j])
  {
    j := |s|;
    if s != "" && IsSpace(s[|s| - 1]) {
      var front := s[..|s| - 1];
      j := StripRightExactly(front);
      assert front[..j] == s[..j] && s[j..] == front[j..] + [s[|s| - 1]];
      assert 0 < j ==> s[j - 1..j] == front[j - 1..j];
    } else if s != "" {
      assert s[j - 1..j][0] == s[j - 1];
    }
  }

  lemma StripExactly(s: string)
    ensures Stripped(s, Strip(s))
  {
    var i := StripLeftExactly(s);
    var t := s[i..];
    var j := StripRightExactly(t);
    hide AllSpace, StripLeft, StripRight;
    var r := t[..j];
    assert r == s[i..i + j] && t[j..] == s[i + j..];
    if r != "" {
      assert r[..1] == s[i..i + 1] && r[|r| - 1..] == t[j - 1..j];
    }
  }

  /** `nodes` picked in the order of the indexes. */
  ghost predicate Picked(chosen: seq<Node>, nodes: seq<Node>, indexes: seq<int>) {
    && |chosen| == |indexes|
    && forall x :: 0 <= x < |indexes| ==> 0 <= indexes[x] < |nodes| && chosen[x] == nodes[indexes[x]]
  }

  lemma {:induction false} PickExactly(nodes: seq<Node>, indexes: seq<int>)
    requires InRange(indexes, |nodes|)
    ensures Picked(Pick(nodes, indexes), nodes, indexes)
  {
    if indexes != [] {
      PickExactly(nodes, indexes[..|indexes| - 1]);
    }
  }

  /** The instrument a partition becomes. */
  ghost predicate MadeOf(i: InstrumentNode, p: Partition, chapters: seq<Node>, schedules: seq<Node>) {
    && Stripped(p.code, i.code)
    && (i.heading.None? <==> AllSpace(p.heading))
    && (i.heading.Some? ==> i.heading.value != "" && Stripped(p.heading, i.heading.value))
    && Picked(i.chapters, chapters, p.chapterIndexes) && Picked(i.schedules, schedules, p.scheduleIndexes)
  }

  lemma MadeOne(p: Partition, chapters: seq<Node>, schedules: seq<Node>)
    requires InRange(p.chapterIndexes, |chapters|) && InRange(p.scheduleIndexes, |schedules|)
    ensures MadeOf(BuildOne(p, chapters, schedules), p, chapters, schedules)
  {
    StripExactly(p.code);
    StripExactly(p.heading);
    NothingLeft(p.heading);
    PickExactly(chapters, p.chapterIndexes);
    PickExactly(schedules, p.scheduleIndexes);
    hide Strip, Stripped, AllSpace, Pick, Picked;
  }

  lemma NothingLeft(s: string)
    ensures Strip(s) == "" <==> AllSpace(s)
  {
    StripExactly(s);
    var r := Strip(s);
    var i, j :| 0 <= i <= j <= |s| && r == s[i..j] && AllSpace(s[..i]) && AllSpace(s[j..]);
    if r == "" {
      assert s == s[..i] + s[j..];
    } else {
      assert r[..1][0] == s[i];
    }
  }

  lemma PartsInRange(front: seq<int>, own: seq<int>, n: nat)
    requires InRange(front + own, n)
    ensures InRange(front, n) && InRange(own, n)
  {
    assert forall x :: 0 <= x < |front| ==> (front + own)[x] == front[x];
    assert forall x :: 0 <= x < |own| ==> (front + own)[|front| + x] == own[x];
  }

  lemma {:induction false} IndexesInRange(ps: seq<Partition>, chapters: nat, schedules: nat, p: nat)
    requires p < |ps| && InRange(ChapterIndexes(ps), chapters) && InRange(ScheduleIndexes(ps), schedules)
    ensures InRange(ps[p].chapterIndexes, chapters) && InRange(ps[p].scheduleIndexes, schedules)
  {
    hide InRange;
    var n := |ps| - 1;
    PartsInRange(ChapterIndexes(ps[..n]), ps[n].chapterIndexes, chapters);
    PartsInRange(ScheduleIndexes(ps[..n]), ps[n].scheduleIndexes, schedules);
    if p < n {
      IndexesInRange(ps[..n], chapters, schedules, p);
    }
  }

  lemma {:induction false} BuiltEach(ps: seq<Partition>, chapters: seq<Node>, schedules: seq<Node>, p: nat)
    requires p < |ps|
    ensures Build(ps, chapters, schedules)[p] == BuildOne(ps[p], chapters, schedules)
  {
    hide BuildOne;
    if p < |ps| - 1 {
      BuiltEach(ps[..|ps| - 1], chapters, schedules, p);
    }
  }

  /** An accepted partition yields one instrument for each of its entries, in order,
      with its code and heading trimmed and just the roots it names. */
  lemma InstrumentsAsPartitioned(ps: seq<Partition>, chapters: seq<Node>, schedules: seq<Node>, p: nat)
    requires p < |ps| && Partitions(ps, |chapters|, |schedules|)
    ensures |Build(ps, chapters, schedules)| == |ps|
    ensures MadeOf(Build(ps, chapters, schedules)[p], ps[p], chapters, schedules)
    ensures Build(ps, chapters, schedules)[p].code != ""
  {
    hide MadeOf, InRange;
    IndexesInRange(ps, |chapters|, |schedules|, p);
    BuiltEach(ps, chapters, schedules, p);
    MadeOne(ps[p], chapters, schedules);
  }
}

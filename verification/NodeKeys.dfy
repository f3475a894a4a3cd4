/** Path-like node keys (`stamp_identity`, `stamp_document`). */
module NodeKeys {
  import opened Common
  import Decimals

  // A level of the tree is its child lists, one per kind.  A node carries the slug of
  // its code.

  datatype Kind = Instrument | Chapter | Part | Division | Schedule | Section

  function Abbrev(k: Kind): (s: string)
    ensures ':' !in s && '/' !in s
  {
    match k
    case Instrument => "inst"
    case Chapter => "ch"
    case Part => "pt"
    case Division => "dv"
    case Schedule => "sch"
    case Section => "s"
  }

  datatype Node = Node(slug: string, groups: seq<Group>)
  datatype Group = Group(kind: Kind, nodes: seq<Node>)

  type Level = seq<Group>

  // ----- stamping --------------------------------------------------------------

  /** How many of the first `n` siblings have this slug. */
  function SlugCount(nodes: seq<Node>, slug: string, n: nat): nat
    requires n <= |nodes|
  {
    if n == 0 then 0 else SlugCount(nodes, slug, n - 1) + if nodes[n - 1].slug == slug then 1 else 0
  }

  function Numbered(slug: string, n: nat): string {
    if n > 1 then slug + "~" + Decimals.Print(n) else slug
  }

  /** A sibling's slug, with an ordinal where an earlier sibling has the same. */
  function Label(nodes: seq<Node>, i: nat): string
    requires i < |nodes|
  {
    Numbered(nodes[i].slug, SlugCount(nodes, nodes[i].slug, i + 1))
  }

  function Segment(kind: Kind, nodes: seq<Node>, i: nat): string
    requires i < |nodes|
  {
    Abbrev(kind) + ":" + Label(nodes, i)
  }

  datatype Stamped = Stamped(kind: Kind, key: string, groups: seq<StampedGroup>)
  datatype StampedGroup = StampedGroup(nodes: seq<Stamped>)

  function StampNode(kind: Kind, prefix: string, nodes: seq<Node>, i: nat): Stamped
    requires i < |nodes|
    decreases nodes, 0
  {
    var key := prefix + Segment(kind, nodes, i);
    Stamped(kind, key, StampLevel(nodes[i].groups, key + "/"))
  }

  function StampList(g: Group, prefix: string): (r: StampedGroup)
    ensures |r.nodes| == |g.nodes|
    decreases g
  {
    StampedGroup(seq(|g.nodes|, i requires 0 <= i < |g.nodes| => StampNode(g.kind, prefix, g.nodes, i)))
  }

  /** The stamped tree below a prefix. */
  function StampLevel(level: Level, prefix: string): (r: seq<StampedGroup>)
    ensures |r| == |level|
    decreases level
  {
    seq(|level|, i requires 0 <= i < |level| => StampList(level[i], prefix))
  }

  /** `stamp_identity`: one pass over the siblings with a count per slug seen. */
  method StampIdentity(nodes: seq<Node>, kind: Kind, prefix: string) returns (stamped: seq<Stamped>)
    ensures |stamped| == |nodes|
    ensures forall i :: 0 <= i < |nodes| ==> stamped[i] == StampNode(kind, prefix, nodes, i)
    decreases nodes
  {
    stamped := [];
    var seen: map<string, nat> := map[];
    for i := 0 to |nodes|
      invariant |stamped| == i
      invariant forall k :: 0 <= k < i ==> stamped[k] == StampNode(kind, prefix, nodes, k)
      invariant forall s :: (if s in seen then seen[s] else 0) == SlugCount(nodes, s, i)
    {
      var slug := nodes[i].slug;
      seen := seen[slug := (if slug in seen then seen[slug] else 0) + 1];
      var code := if seen[slug] > 1 then slug + "~" + Decimals.Print(seen[slug]) else slug;
      var key := prefix + (Abbrev(kind) + ":" + code);
      var groups: seq<StampedGroup> := [];
      for g := 0 to |nodes[i].groups|
        invariant |groups| == g
        invariant forall k :: 0 <= k < g ==> groups[k] == StampList(nodes[i].groups[k], key + "/")
      {
        var below := StampIdentity(nodes[i].groups[g].nodes, nodes[i].groups[g].kind, key + "/");
        assert StampedGroup(below) == StampList(nodes[i].groups[g], key + "/");
        groups := groups + [StampedGroup(below)];
      }
      assert groups == StampLevel(nodes[i].groups, key + "/");
      stamped := stamped + [Stamped(kind, key, groups)];
    }
  }

  // ----- addresses -------------------------------------------------------------

  datatype Step = Step(group: nat, index: nat)

  ghost predicate Valid(level: Level, a: seq<Step>)
    decreases |a|
  {
    && |a| > 0 && a[0].group < |level| && a[0].index < |level[a[0].group].nodes|
    && (|a| > 1 ==> Valid(level[a[0].group].nodes[a[0].index].groups, a[1..]))
  }

  ghost function Below(level: Level, s: Step): Level
    requires s.group < |level| && s.index < |level[s.group].nodes|
  {
    level[s.group].nodes[s.index].groups
  }

  /** The segments of a node's ancestors and its own, root first. */
  ghost function Chain(level: Level, a: seq<Step>): (c: seq<string>)
    requires Valid(level, a)
    ensures |c| == |a|
    decreases |a|
  {
    var own := [Segment(level[a[0].group].kind, level[a[0].group].nodes, a[0].index)];
    if |a| == 1 then own else own + Chain(Below(level, a[0]), a[1..])
  }

  function Path(chain: seq<string>): string {
    if chain == [] then "" else if |chain| == 1 then chain[0] else chain[0] + "/" + Path(chain[1..])
  }

  /** The stamped node at an address. */
  ghost function StampedAt(groups: seq<StampedGroup>, a: seq<Step>): Option<Stamped>
    decreases |a|
  {
    if a == [] || a[0].group >= |groups| || a[0].index >= |groups[a[0].group].nodes| then None
    else
      var node := groups[a[0].group].nodes[a[0].index];
      if |a| == 1 then Some(node) else StampedAt(node.groups, a[1..])
  }

  /** Every node's key is the path of its ancestors' segments, by code and never by
      position. */
  lemma {:induction false} KeyIsPath(level: Level, prefix: string, a: seq<Step>)
    requires Valid(level, a)
    ensures StampedAt(StampLevel(level, prefix), a).Some?
    ensures StampedAt(StampLevel(level, prefix), a).value.key == prefix + Path(Chain(level, a))
    ensures StampedAt(StampLevel(level, prefix), a).value.kind == NodeKind(level, a)
    decreases |a|
  {
    var s := a[0];
    assert StampLevel(level, prefix)[s.group] == StampList(level[s.group], prefix);
    assert StampList(level[s.group], prefix).nodes[s.index] ==
        StampNode(level[s.group].kind, prefix, level[s.group].nodes, s.index);
    if |a| > 1 {
      var seg := Segment(level[a[0].group].kind, level[a[0].group].nodes, a[0].index);
      KeyIsPath(Below(level, a[0]), prefix + seg + "/", a[1..]);
      assert Chain(level, a)[1..] == Chain(Below(level, a[0]), a[1..]);
      assert prefix + seg + "/" + Path(Chain(Below(level, a[0]), a[1..])) == prefix + Path(Chain(level, a));
    }
  }

  ghost function NodeKind(level: Level, a: seq<Step>): Kind
    requires Valid(level, a)
    decreases |a|
  {
    if |a| == 1 then level[a[0].group].kind else NodeKind(Below(level, a[0]), a[1..])
  }

  // ----- siblings --------------------------------------------------------------

  /** Equal strings cut at the first `c` are cut at the same place. */
  lemma CutAtFirst(u: string, x: string, v: string, y: string, c: char)
    requires c !in u && c !in v && u + x == v + y
    requires x == "" || x[0] == c
    requires y == "" || y[0] == c
    ensures u == v && x == y
  {
    assert forall i :: 0 <= i < |u| ==> (u + x)[i] == u[i] && u[i] in u;
    assert forall i :: 0 <= i < |v| ==> (v + y)[i] == v[i] && v[i] in v;
    assert x != "" ==> (u + x)[|u|] == c;
    assert y != "" ==> (v + y)[|v|] == c;
    assert |u| == |v|;
    assert u == (u + x)[..|u|] && v == (v + y)[..|v|];
    assert x == (u + x)[|u|..] && y == (v + y)[|v|..];
  }

  /** Equal strings cut at the last `c` are cut at the same place. */
  lemma CutAtLast(u: string, x: string, v: string, y: string, c: char)
    requires c !in x && c !in y && u + [c] + x == v + [c] + y
    ensures u == v && x == y
  {
    var a, b := u + [c] + x, v + [c] + y;
    assert forall i :: |u| < i < |a| ==> a[i] == x[i - |u| - 1] && a[i] in x;
    assert forall i :: |v| < i < |b| ==> b[i] == y[i - |v| - 1] && b[i] in y;
    assert a[|u|] == c && b[|v|] == c;
    assert |u| == |v|;
    assert u == a[..|u|] && v == b[..|v|];
    assert x == a[|u| + 1..] && y == b[|v| + 1..];
  }

  /** No slug of the list is another one's with an ordinal the list comes to give. */
  ghost predicate NoClash(nodes: seq<Node>) {
    forall i, j, k :: 0 <= i < |nodes| && 0 <= j < |nodes| && 2 <= k <= SlugCount(nodes, nodes[i].slug, |nodes|) ==>
      nodes[j].slug != Numbered(nodes[i].slug, k)
  }

  ghost predicate LabelsDistinct(nodes: seq<Node>) {
    forall i, j :: 0 <= i < j < |nodes| ==> Label(nodes, i) != Label(nodes, j)
  }

  lemma {:induction false} CountGrows(nodes: seq<Node>, slug: string, i: nat, j: nat)
    requires i < j < |nodes| && nodes[j].slug == slug
    ensures SlugCount(nodes, slug, i + 1) < SlugCount(nodes, slug, j + 1)
    decreases j
  {
    CountMonotone(nodes, slug, i + 1, j);
  }

  lemma {:induction false} CountMonotone(nodes: seq<Node>, slug: string, i: nat, j: nat)
    requires i <= j <= |nodes|
    ensures SlugCount(nodes, slug, i) <= SlugCount(nodes, slug, j)
    decreases j
  {
    if i < j {
      CountMonotone(nodes, slug, i, j - 1);
    }
  }

  lemma CountsSelf(nodes: seq<Node>, i: nat)
    requires i < |nodes|
    ensures SlugCount(nodes, nodes[i].slug, i + 1) >= 1
  {}

  lemma PrintedOrdinals(m: nat, n: nat)
    ensures Decimals.Print(m) == Decimals.Print(n) ==> m == n
    ensures '~' !in Decimals.Print(m) && '~' !in Decimals.Print(n)
  {
    Decimals.ReadPrint(m);
    Decimals.ReadPrint(n);
    hide Decimals.Print, Decimals.Read;
  }

  /** Two numbered slugs are one string only where slug and number agree, or where one
      carries no number and is the other with its number. */
  lemma NumberedEqual(s: string, m: nat, t: string, n: nat)
    requires m >= 1 && n >= 1 && Numbered(s, m) == Numbered(t, n)
    ensures (s == t && m == n) || (m == 1 && n >= 2 && s == Numbered(t, n)) || (n == 1 && m >= 2 && t == Numbered(s, m))
  {
    PrintedOrdinals(m, n);
    hide Decimals.Print;
    if m >= 2 && n >= 2 {
      var x, y := Decimals.Print(m), Decimals.Print(n);
      assert s + ['~'] + x == s + "~" + x && t + ['~'] + y == t + "~" + y;
      CutAtLast(s, x, t, y, '~');
    }
  }

  lemma {:induction false} KthOccurrence(nodes: seq<Node>, slug: string, n: nat, k: nat) returns (i: nat)
    requires n <= |nodes| && 1 <= k <= SlugCount(nodes, slug, n)
    ensures i < n && nodes[i].slug == slug && SlugCount(nodes, slug, i + 1) == k
  {
    if k <= SlugCount(nodes, slug, n - 1) {
      i := KthOccurrence(nodes, slug, n - 1, k);
    } else {
      i := n - 1;
    }
  }

  /** Siblings' labels differ, however often a code repeats, if and only if no slug is
      another's with an ordinal the list gives. */
  lemma LabelsDiffer(nodes: seq<Node>)
    ensures LabelsDistinct(nodes) <==> NoClash(nodes)
  {
    hide Numbered;
    if NoClash(nodes) {
      forall i, j | 0 <= i < j < |nodes|
        ensures Label(nodes, i) != Label(nodes, j)
      {
        LabelsDifferAt(nodes, i, j);
      }
    }
    if LabelsDistinct(nodes) {
      forall i, j, k | 0 <= i < |nodes| && 0 <= j < |nodes| && 2 <= k <= SlugCount(nodes, nodes[i].slug, |nodes|)
        ensures nodes[j].slug != Numbered(nodes[i].slug, k)
      {
        OrdinalIsTaken(nodes, i, j, k);
      }
    }
  }

  lemma LabelsDifferAt(nodes: seq<Node>, i: nat, j: nat)
    requires NoClash(nodes) && i < j < |nodes|
    ensures Label(nodes, i) != Label(nodes, j)
  {
    hide Numbered;
    if Label(nodes, i) == Label(nodes, j) {
      var s, t := nodes[i].slug, nodes[j].slug;
      var m, n := SlugCount(nodes, s, i + 1), SlugCount(nodes, t, j + 1);
      CountsSelf(nodes, i);
      CountsSelf(nodes, j);
      CountMonotone(nodes, s, i + 1, |nodes|);
      CountMonotone(nodes, t, j + 1, |nodes|);
      NumberedEqual(s, m, t, n);
      assert s == t && m == n;
      CountGrows(nodes, t, i, j);
    }
  }

  lemma OrdinalIsTaken(nodes: seq<Node>, i: nat, j: nat, k: nat)
    requires LabelsDistinct(nodes) && i < |nodes| && j < |nodes| && 2 <= k <= SlugCount(nodes, nodes[i].slug, |nodes|)
    ensures nodes[j].slug != Numbered(nodes[i].slug, k)
  {
    var s, t := nodes[i].slug, nodes[j].slug;
    var x := KthOccurrence(nodes, s, |nodes|, k);
    CountsSelf(nodes, j);
    CountMonotone(nodes, t, j + 1, |nodes|);
    var y := KthOccurrence(nodes, t, |nodes|, 1);
    assert Label(nodes, x) == Numbered(s, k) && Label(nodes, y) == t;
    assert |Numbered(s, k)| > |s|;
  }

  // ----- paths -----------------------------------------------------------------

  /** What separates a child's segment from its parent's. */
  function Mark(k: Kind): (s: string)
    ensures |s| >= 3 && s[0] == '/' && s[|s| - 1] == ':' && forall i :: 1 <= i < |s| ==> s[i] != '/'
  {
    assert forall i :: 1 <= i < |Abbrev(k)| + 1 ==>
        ("/" + Abbrev(k) + ":")[i] == Abbrev(k)[i - 1] && Abbrev(k)[i - 1] in Abbrev(k);
    "/" + Abbrev(k) + ":"
  }

  ghost predicate MarkAt(s: string, i: nat, k: Kind) { i <= |s| && Mark(k) <= s[i..] }

  ghost predicate HoldsMark(s: string) { exists i, k :: MarkAt(s, i, k) }

  ghost predicate StartsWithMark(s: string) { exists k :: Mark(k) <= s }

  /** A segment starts with a kind and holds no mark. */
  ghost predicate IsSegment(s: string) {
    !HoldsMark(s) && exists k :: Abbrev(k) + ":" <= s
  }

  lemma MarkInside(u: string, x: string, v: string, y: string, k: Kind)
    requires u + x == v + y && |u| < |v| && Mark(k) <= x
    requires y == "" || StartsWithMark(y)
    ensures HoldsMark(v)
  {
    hide Mark;
    var w, n := u + x, |u| + |Mark(k)|;
    assert w[|u|..] == x;
    assert forall i :: |u| <= i < n ==> w[i] == x[i - |u|] == Mark(k)[i - |u|];
    assert forall i :: |u| < i < n ==> w[i] != '/';
    assert y != "" ==> w[|v|] == y[0] == '/';
    assert n <= |v|;
    assert v == w[..|v|];
    assert v[|u|..][..|Mark(k)|] == Mark(k);
    assert MarkAt(v, |u|, k);
  }

  /** Strings without a mark, followed by a mark or nothing, are cut in one place. */
  lemma CutAtMark(u: string, x: string, v: string, y: string)
    requires !HoldsMark(u) && !HoldsMark(v) && u + x == v + y
    requires (x == "" || StartsWithMark(x)) && (y == "" || StartsWithMark(y))
    ensures u == v && x == y
  {
    hide HoldsMark;
    if |u| < |v| {
      assert x != "";
      var k :| Mark(k) <= x;
      MarkInside(u, x, v, y, k);
    } else if |v| < |u| {
      assert y != "";
      var k :| Mark(k) <= y;
      MarkInside(v, y, u, x, k);
    }
    assert u == (u + x)[..|u|] && v == (v + y)[..|v|];
    assert x == (u + x)[|u|..] && y == (v + y)[|v|..];
  }

  lemma {:induction false} PathStarts(c: seq<string>)
    requires c != [] && IsSegment(c[0])
    ensures StartsWithMark("/" + Path(c))
  {
    hide HoldsMark;
    var k :| Abbrev(k) + ":" <= c[0];
    assert c[0] <= Path(c);
    assert Mark(k) == "/" + (Abbrev(k) + ":");
    assert Mark(k) <= "/" + Path(c);
  }

  function Tail(c: seq<string>): string
    requires c != []
  {
    if |c| == 1 then "" else "/" + Path(c[1..])
  }

  lemma {:induction false} PathHead(c: seq<string>)
    requires c != [] && forall i :: 0 <= i < |c| ==> IsSegment(c[i])
    ensures Path(c) == c[0] + Tail(c) && !HoldsMark(c[0])
    ensures Tail(c) == "" || StartsWithMark(Tail(c))
  {
    assert IsSegment(c[0]);
    SegmentUnmarked(c[0]);
    hide IsSegment, HoldsMark, StartsWithMark;
    if |c| > 1 {
      PathStarts(c[1..]);
    }
  }

  lemma SegmentUnmarked(s: string)
    requires IsSegment(s)
    ensures !HoldsMark(s)
  {
  }

  /** A path has one reading: it decodes to its segments. */
  lemma {:induction false} PathDecodes(c: seq<string>, d: seq<string>)
    requires c != [] && d != [] && Path(c) == Path(d)
    requires forall i :: 0 <= i < |c| ==> IsSegment(c[i])
    requires forall i :: 0 <= i < |d| ==> IsSegment(d[i])
    ensures c == d
  {
    hide IsSegment, HoldsMark, StartsWithMark, Path;
    PathHead(c);
    PathHead(d);
    CutAtMark(c[0], Tail(c), d[0], Tail(d));
    assert c == [c[0]] + c[1..] && d == [d[0]] + d[1..];
    if |c| > 1 {
      assert Tail(c)[1..] == Path(c[1..]);
      assert |d| > 1;
      assert Tail(d)[1..] == Path(d[1..]);
      PathDecodes(c[1..], d[1..]);
    } else {
      assert |d| == 1;
    }
  }

  // ----- keys are distinct -----------------------------------------------------

  /** Each level's lists differ in kind. */
  ghost predicate KindsDiffer(level: Level)
    decreases level
  {
    && (forall g, h :: 0 <= g < h < |level| ==> level[g].kind != level[h].kind)
    && (forall g, i :: 0 <= g < |level| && 0 <= i < |level[g].nodes| ==> KindsDiffer(level[g].nodes[i].groups))
  }

  /** No slug holds a "/" followed by a kind and a colon. */
  ghost predicate Unmarked(level: Level)
    decreases level
  {
    forall g, i :: 0 <= g < |level| && 0 <= i < |level[g].nodes| ==>
      !HoldsMark(level[g].nodes[i].slug) && Unmarked(level[g].nodes[i].groups)
  }

  /** No list of the document has a clash of ordinals. */
  ghost predicate Clashless(level: Level)
    decreases level
  {
    && (forall g :: 0 <= g < |level| ==> NoClash(level[g].nodes))
    && (forall g, i :: 0 <= g < |level| && 0 <= i < |level[g].nodes| ==> Clashless(level[g].nodes[i].groups))
  }

  ghost predicate ChainsDistinct(level: Level) {
    forall a, b :: Valid(level, a) && Valid(level, b) && a != b ==> Chain(level, a) != Chain(level, b)
  }

  /** The stamped key of the node at an address. */
  ghost function KeyOf(level: Level, a: seq<Step>): string
    requires Valid(level, a)
  {
    KeyIsPath(level, "", a);
    StampedAt(StampLevel(level, ""), a).value.key
  }

  /** No two nodes of the document share a key. */
  ghost predicate KeysDistinct(level: Level) {
    forall a, b :: Valid(level, a) && Valid(level, b) && a != b ==> KeyOf(level, a) != KeyOf(level, b)
  }

  lemma AbbrevInjective(k: Kind, l: Kind)
    requires Abbrev(k) == Abbrev(l)
    ensures k == l
  {}

  lemma SegmentShape(kind: Kind, nodes: seq<Node>, i: nat)
    requires i < |nodes| && !HoldsMark(nodes[i].slug)
    ensures IsSegment(Segment(kind, nodes, i))
  {
    var slug, seg := nodes[i].slug, Segment(kind, nodes, i);
    var head, n := Abbrev(kind) + ":", SlugCount(nodes, nodes[i].slug, i + 1);
    var tail := if n > 1 then "~" + Decimals.Print(n) else "";
    assert seg == head + slug + tail;
    assert head <= seg;
    hide Decimals.Print, Mark;
    forall j: nat, k | MarkAt(seg, j, k)
      ensures false
    {
      MarkInSlug(head, slug, tail, j, k);
    }
  }

  lemma MarkInSlug(head: string, slug: string, tail: string, j: nat, k: Kind)
    requires '/' !in head && ':' !in tail && MarkAt(head + slug + tail, j, k)
    ensures HoldsMark(slug)
  {
    hide Mark;
    var s, n := head + slug + tail, |Mark(k)|;
    assert forall i :: 0 <= i < n ==> s[j + i] == s[j..][i] == Mark(k)[i];
    assert s[j] == '/' && s[j + n - 1] == ':';
    assert forall i :: 0 <= i < |head| ==> s[i] == head[i] && s[i] in head;
    assert forall i :: |head| + |slug| <= i < |s| ==> s[i] == tail[i - |head| - |slug|] && s[i] in tail;
    assert |head| <= j && j + n <= |head| + |slug|;
    var at := j - |head|;
    forall i | 0 <= i < n
      ensures slug[at..][i] == Mark(k)[i]
    {
      assert slug[at..][i] == slug[at + i] == s[j + i];
    }
    assert slug[at..][..n] == Mark(k);
    assert MarkAt(slug, at, k);
  }

  lemma {:induction false} ChainSegments(level: Level, a: seq<Step>)
    requires Valid(level, a) && Unmarked(level)
    ensures forall i :: 0 <= i < |a| ==> IsSegment(Chain(level, a)[i])
    decreases |a|
  {
    hide IsSegment, HoldsMark;
    SegmentShape(level[a[0].group].kind, level[a[0].group].nodes, a[0].index);
    if |a| > 1 {
      ChainSegments(Below(level, a[0]), a[1..]);
    }
  }

  lemma SameKindSameGroup(level: Level, g: nat, h: nat)
    requires KindsDiffer(level) && g < |level| && h < |level| && level[g].kind == level[h].kind
    ensures g == h
  {}

  lemma SegmentsDiffer(level: Level, s: Step, t: Step)
    requires s.group < |level| && s.index < |level[s.group].nodes|
    requires t.group < |level| && t.index < |level[t.group].nodes|
    requires KindsDiffer(level) && NoClash(level[s.group].nodes) && s != t
    ensures Segment(level[s.group].kind, level[s.group].nodes, s.index)
         != Segment(level[t.group].kind, level[t.group].nodes, t.index)
  {
    hide KindsDiffer, NoClash, Label, Abbrev;
    var g, h := level[s.group], level[t.group];
    var u, v := Label(g.nodes, s.index), Label(h.nodes, t.index);
    if Segment(g.kind, g.nodes, s.index) == Segment(h.kind, h.nodes, t.index) {
      assert Segment(g.kind, g.nodes, s.index) == Abbrev(g.kind) + (":" + u);
      assert Segment(h.kind, h.nodes, t.index) == Abbrev(h.kind) + (":" + v);
      CutAtFirst(Abbrev(g.kind), ":" + u, Abbrev(h.kind), ":" + v, ':');
      assert u == (":" + u)[1..] && v == (":" + v)[1..];
      AbbrevInjective(g.kind, h.kind);
      SameKindSameGroup(level, s.group, t.group);
      if s.index < t.index {
        LabelsDifferAt(g.nodes, s.index, t.index);
      } else {
        LabelsDifferAt(g.nodes, t.index, s.index);
      }
    }
  }

  lemma {:induction false} ChainsDiffer(level: Level, a: seq<Step>, b: seq<Step>)
    requires Valid(level, a) && Valid(level, b) && KindsDiffer(level) && Clashless(level) && a != b
    ensures Chain(level, a) != Chain(level, b)
    decreases |a|
  {
    hide NoClash;
    if |a| == |b| {
      if a[0] != b[0] {
        SegmentsDiffer(level, a[0], b[0]);
        assert Chain(level, a)[0] != Chain(level, b)[0];
      } else {
        assert a == [a[0]] + a[1..] && b == [b[0]] + b[1..];
        ChainsDiffer(Below(level, a[0]), a[1..], b[1..]);
        assert Chain(level, a)[1..] == Chain(Below(level, a[0]), a[1..]);
        assert Chain(level, b)[1..] == Chain(Below(level, a[0]), b[1..]);
      }
    }
  }

  lemma LevelIsClashless(level: Level, g: nat)
    requires ChainsDistinct(level) && g < |level|
    ensures NoClash(level[g].nodes)
  {
    var nodes := level[g].nodes;
    forall i, j | 0 <= i < j < |nodes|
      ensures Label(nodes, i) != Label(nodes, j)
    {
      var a, b := [Step(g, i)], [Step(g, j)];
      assert Chain(level, a) == [Segment(level[g].kind, nodes, i)];
      assert Chain(level, b) == [Segment(level[g].kind, nodes, j)];
      assert a[0] != b[0];
    }
    LabelsDiffer(nodes);
  }

  lemma ChainsBelowDistinct(level: Level, s: Step)
    requires ChainsDistinct(level) && s.group < |level| && s.index < |level[s.group].nodes|
    ensures ChainsDistinct(Below(level, s))
  {
    forall a, b | Valid(Below(level, s), a) && Valid(Below(level, s), b) && a != b
      ensures Chain(Below(level, s), a) != Chain(Below(level, s), b)
    {
      var x, y := [s] + a, [s] + b;
      assert x[1..] == a && y[1..] == b;
      assert Chain(level, x) == [Chain(level, x)[0]] + Chain(Below(level, s), a);
      assert Chain(level, y) == [Chain(level, x)[0]] + Chain(Below(level, s), b);
    }
  }

  lemma {:induction false} DistinctIsClashless(level: Level)
    requires ChainsDistinct(level)
    ensures Clashless(level)
    decreases level
  {
    hide NoClash, ChainsDistinct;
    forall g | 0 <= g < |level|
      ensures NoClash(level[g].nodes)
    {
      LevelIsClashless(level, g);
    }
    forall g, i | 0 <= g < |level| && 0 <= i < |level[g].nodes|
      ensures Clashless(level[g].nodes[i].groups)
    {
      ChainsBelowDistinct(level, Step(g, i));
      DistinctIsClashless(level[g].nodes[i].groups);
    }
  }

  lemma SameKeySameChain(level: Level, a: seq<Step>, b: seq<Step>)
    requires Valid(level, a) && Valid(level, b) && Unmarked(level)
    ensures KeyOf(level, a) == KeyOf(level, b) <==> Chain(level, a) == Chain(level, b)
  {
    KeyIsPath(level, "", a);
    KeyIsPath(level, "", b);
    hide StampedAt, StampLevel;
    assert "" + Path(Chain(level, a)) == Path(Chain(level, a));
    assert "" + Path(Chain(level, b)) == Path(Chain(level, b));
    if Path(Chain(level, a)) == Path(Chain(level, b)) {
      ChainSegments(level, a);
      ChainSegments(level, b);
      hide IsSegment;
      PathDecodes(Chain(level, a), Chain(level, b));
    }
  }

  /** In a document whose slugs hold no mark, no two nodes share a key, whatever their
      depth, kind or number of namesakes, if and only if no list has a slug that is
      another's with an ordinal the list gives. */
  lemma KeysAreDistinct(level: Level)
    requires KindsDiffer(level) && Unmarked(level)
    ensures KeysDistinct(level) <==> Clashless(level)
  {
    hide Unmarked, KindsDiffer, Clashless, KeyOf, Chain;
    forall a, b | Valid(level, a) && Valid(level, b)
      ensures KeyOf(level, a) == KeyOf(level, b) <==> Chain(level, a) == Chain(level, b)
    {
      SameKeySameChain(level, a, b);
    }
    if Clashless(level) {
      forall a, b | Valid(level, a) && Valid(level, b) && a != b
        ensures Chain(level, a) != Chain(level, b)
      {
        ChainsDiffer(level, a, b);
      }
    }
    if KeysDistinct(level) {
      assert ChainsDistinct(level);
      DistinctIsClashless(level);
    }
  }

  /** An ordinal and a mark do collide: a "~2" with a namesake, a "/pt:" with a child. */
  lemma UncleanSlugsCollide()
    ensures var twins := [Node("a", []), Node("a", []), Node("a~2", [])];
            Label(twins, 1) == Label(twins, 2)
    ensures var child := [Group(Part, [Node("x", [])])];
            var level := [Group(Chapter, [Node("i", child), Node("i/pt:x", [])])];
            && Valid(level, [Step(0, 0), Step(0, 0)]) && Valid(level, [Step(0, 1)])
            && Path(Chain(level, [Step(0, 0), Step(0, 0)])) == Path(Chain(level, [Step(0, 1)]))
  {
    var twins := [Node("a", []), Node("a", []), Node("a~2", [])];
    assert SlugCount(twins, "a", 1) == 1 && SlugCount(twins, "a", 2) == 2;
    assert SlugCount(twins, "a~2", 2) == 0 && SlugCount(twins, "a~2", 3) == 1;
    assert Decimals.Print(2) == "2";
    var child := [Group(Part, [Node("x", [])])];
    var nodes := [Node("i", child), Node("i/pt:x", [])];
    var level := [Group(Chapter, nodes)];
    assert SlugCount(nodes, "i", 1) == 1 && SlugCount(nodes, "i/pt:x", 1) == 0 && SlugCount(nodes, "i/pt:x", 2) == 1;
    assert SlugCount(child[0].nodes, "x", 1) == 1;
    assert [Step(0, 0), Step(0, 0)][1..] == [Step(0, 0)];
    assert Label(nodes, 0) == "i" && Label(nodes, 1) == "i/pt:x" && Label(child[0].nodes, 0) == "x";
    assert Segment(Chapter, nodes, 0) == "ch:i" && Segment(Part, child[0].nodes, 0) == "pt:x";
    assert Segment(Chapter, nodes, 1) == "ch:i/pt:x";
    assert Chain(level, [Step(0, 0), Step(0, 0)]) == ["ch:i"] + ["pt:x"];
    assert Path(["pt:x"]) == "pt:x" && ["ch:i", "pt:x"][1..] == ["pt:x"];
    assert "ch:i" + "/" + "pt:x" == "ch:i/pt:x";
  }

  // ----- insertion -------------------------------------------------------------

  /** `node` put before index `at` of list `g`, at the level `path` leads to. */
  ghost function Inserted(level: Level, path: seq<Step>, g: nat, at: nat, node: Node): Level
    requires PathHolds(level, path, g, at)
    decreases |path|
  {
    if path == [] then
      level[g := level[g].(nodes := level[g].nodes[..at] + [node] + level[g].nodes[at..])]
    else
      var s := path[0];
      var nodes := level[s.group].nodes;
      var below := Inserted(Below(level, s), path[1..], g, at, node);
      level[s.group := level[s.group].(nodes := nodes[s.index := nodes[s.index].(groups := below)])]
  }

  ghost predicate PathHolds(level: Level, path: seq<Step>, g: nat, at: nat)
    decreases |path|
  {
    if path == [] then g < |level| && at <= |level[g].nodes|
    else
      && path[0].group < |level| && path[0].index < |level[path[0].group].nodes|
      && PathHolds(Below(level, path[0]), path[1..], g, at)
  }

  /** The node list that receives the insertion. */
  ghost function ListAt(level: Level, path: seq<Step>, g: nat, at: nat): seq<Node>
    requires PathHolds(level, path, g, at)
    decreases |path|
  {
    if path == [] then level[g].nodes else ListAt(Below(level, path[0]), path[1..], g, at)
  }

  ghost predicate NewSlug(nodes: seq<Node>, node: Node) {
    forall k :: 0 <= k < |nodes| ==> nodes[k].slug != node.slug
  }

  /** An old address in the new tree: shifted by one behind the inserted node. */
  ghost function Moved(a: seq<Step>, path: seq<Step>, g: nat, at: nat): seq<Step>
    decreases |path|
  {
    if a == [] then a
    else if path == [] then
      if a[0].group == g && a[0].index >= at then [Step(g, a[0].index + 1)] + a[1..] else a
    else if a[0] == path[0] then [a[0]] + Moved(a[1..], path[1..], g, at)
    else a
  }

  lemma {:induction false} CountAfterInsert(nodes: seq<Node>, at: nat, node: Node, slug: string, n: nat)
    requires at <= |nodes| && n <= |nodes| && node.slug != slug
    ensures var grown := nodes[..at] + [node] + nodes[at..];
            SlugCount(grown, slug, if n <= at then n else n + 1) == SlugCount(nodes, slug, n)
  {
    var grown := nodes[..at] + [node] + nodes[at..];
    if n > 0 {
      CountAfterInsert(nodes, at, node, slug, n - 1);
      if n == at + 1 {
        assert SlugCount(grown, slug, at + 1) == SlugCount(grown, slug, at);
      }
    }
  }

  /** Labels ignore a new sibling with a new slug. */
  lemma LabelAfterInsert(nodes: seq<Node>, at: nat, node: Node, i: nat)
    requires at <= |nodes| && i < |nodes| && forall k :: 0 <= k < |nodes| ==> nodes[k].slug != node.slug
    ensures var grown := nodes[..at] + [node] + nodes[at..];
            Label(grown, if i < at then i else i + 1) == Label(nodes, i)
  {
    CountAfterInsert(nodes, at, node, nodes[i].slug, i + 1);
  }

  lemma SegmentAfterInsert(kind: Kind, nodes: seq<Node>, at: nat, node: Node, i: nat)
    requires at <= |nodes| && i < |nodes| && NewSlug(nodes, node)
    ensures Segment(kind, nodes[..at] + [node] + nodes[at..], if i < at then i else i + 1) == Segment(kind, nodes, i)
  {
    LabelAfterInsert(nodes, at, node, i);
  }

  lemma {:induction false} SameSlugsSameLabels(a: seq<Node>, b: seq<Node>, slug: string, n: nat)
    requires |a| == |b| && n <= |a| && forall k :: 0 <= k < |a| ==> a[k].slug == b[k].slug
    ensures SlugCount(a, slug, n) == SlugCount(b, slug, n)
  {
    if n > 0 {
      SameSlugsSameLabels(a, b, slug, n - 1);
    }
  }

  lemma SameSlugsSameSegment(kind: Kind, a: seq<Node>, b: seq<Node>, i: nat)
    requires |a| == |b| && i < |a| && forall k :: 0 <= k < |a| ==> a[k].slug == b[k].slug
    ensures Segment(kind, a, i) == Segment(kind, b, i)
  {
    SameSlugsSameLabels(a, b, a[i].slug, i + 1);
  }

  /** The insertion's own level. */
  lemma InsertHereKeepsChain(level: Level, g: nat, at: nat, node: Node, a: seq<Step>)
    requires g < |level| && at <= |level[g].nodes| && Valid(level, a)
    requires NewSlug(level[g].nodes, node)
    ensures var next := Inserted(level, [], g, at, node);
            Valid(next, Moved(a, [], g, at)) && Chain(next, Moved(a, [], g, at)) == Chain(level, a)
  {
    hide Label, NewSlug;
    var next, b := Inserted(level, [], g, at, node), Moved(a, [], g, at);
    assert a == [a[0]] + a[1..] && b[1..] == a[1..];
    if a[0].group == g {
      SegmentAfterInsert(level[g].kind, level[g].nodes, at, node, a[0].index);
    }
    assert Below(next, b[0]) == Below(level, a[0]);
  }

  /** A node's key does not depend on its siblings' positions: inserting a node
      with a new slug, at any depth, changes no existing node's key anywhere. */
  lemma {:induction false} InsertionKeepsChain(level: Level, path: seq<Step>, g: nat, at: nat, node: Node, a: seq<Step>)
    requires PathHolds(level, path, g, at) && Valid(level, a)
    requires NewSlug(ListAt(level, path, g, at), node)
    ensures var next := Inserted(level, path, g, at, node);
            Valid(next, Moved(a, path, g, at)) && Chain(next, Moved(a, path, g, at)) == Chain(level, a)
    decreases |path|
  {
    if path == [] {
      InsertHereKeepsChain(level, g, at, node, a);
    } else {
      var s := path[0];
      var next, b := Inserted(level, path, g, at, node), Moved(a, path, g, at);
      assert b[0] == a[0] && a == [a[0]] + a[1..];
      SameSlugsSameSegment(level[a[0].group].kind, next[a[0].group].nodes, level[a[0].group].nodes, a[0].index);
      if a[0] == s {
        assert Below(next, s) == Inserted(Below(level, s), path[1..], g, at, node);
        if |a| > 1 {
          InsertionKeepsChain(Below(level, s), path[1..], g, at, node, a[1..]);
          assert b[1..] == Moved(a[1..], path[1..], g, at);
          MovedLength(a[1..], path[1..], g, at);
        } else {
          assert a[1..] == [] && Moved([], path[1..], g, at) == [];
        }
      } else {
        assert Below(next, a[0]) == Below(level, a[0]);
      }
    }
  }

  lemma {:induction false} MovedLength(a: seq<Step>, path: seq<Step>, g: nat, at: nat)
    ensures |Moved(a, path, g, at)| == |a|
    decreases |path|
  {
    if a != [] && path != [] && a[0] == path[0] {
      MovedLength(a[1..], path[1..], g, at);
    }
  }

  lemma InsertionKeepsKeys(level: Level, path: seq<Step>, g: nat, at: nat, node: Node, a: seq<Step>)
    requires PathHolds(level, path, g, at) && Valid(level, a)
    requires NewSlug(ListAt(level, path, g, at), node)
    ensures var before := StampedAt(StampLevel(level, ""), a);
            var after := StampedAt(StampLevel(Inserted(level, path, g, at, node), ""), Moved(a, path, g, at));
            before.Some? && after.Some? && after.value.key == before.value.key
  {
    InsertionKeepsChain(level, path, g, at, node, a);
    KeyIsPath(level, "", a);
    KeyIsPath(Inserted(level, path, g, at, node), "", Moved(a, path, g, at));
  }
}

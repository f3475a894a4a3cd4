/** Chapters and sections found in a body without contents. */
module Discovery {
  import opened Common
  import Decimals

  // ----- code keys -------------------------------------------------------------

  datatype Key = Key(number: nat, suffix: string)

  /** Python's order on strings. */
  predicate StringLess(a: string, b: string) {
    if b == "" then false
    else if a == "" then true
    else a[0] < b[0] || (a[0] == b[0] && StringLess(a[1..], b[1..]))
  }

  predicate Less(a: Key, b: Key) {
    a.number < b.number || (a.number == b.number && StringLess(a.suffix, b.suffix))
  }

  lemma {:induction false} StringLessTransitive(a: string, b: string, c: string)
    requires StringLess(a, b) && StringLess(b, c)
    ensures StringLess(a, c)
  {
    if a != "" && a[0] == b[0] && b[0] == c[0] {
      StringLessTransitive(a[1..], b[1..], c[1..]);
    }
  }

  lemma {:induction false} StringLessTotal(a: string, b: string)
    ensures StringLess(a, b) || a == b || StringLess(b, a)
    ensures !(StringLess(a, b) && StringLess(b, a)) && !StringLess(a, a)
  {
    if a != "" {
      if b != "" {
        StringLessTotal(a[1..], b[1..]);
        assert a == [a[0]] + a[1..] && b == [b[0]] + b[1..];
      }
      StringLessTotal(a[1..], a[1..]);
    }
  }

  lemma LessTransitive(a: Key, b: Key, c: Key)
    ensures Less(a, b) && Less(b, c) ==> Less(a, c)
    ensures !Less(b, a) && Less(b, c) ==> Less(a, c)
    ensures Less(a, b) && !Less(c, b) ==> Less(a, c)
  {
    if StringLess(a.suffix, b.suffix) && StringLess(b.suffix, c.suffix) {
      StringLessTransitive(a.suffix, b.suffix, c.suffix);
    }
    StringLessTotal(a.suffix, b.suffix);
    StringLessTotal(b.suffix, c.suffix);
  }

  predicate AllUpper(s: string) { forall i :: 0 <= i < |s| ==> 'A' <= s[i] <= 'Z' }

  function DigitCount(s: string, limit: nat): (n: nat)
    ensures n <= |s| && n <= limit && forall k :: 0 <= k < n ==> Decimals.IsDigit(s[k])
  {
    if limit == 0 || s == "" || !Decimals.IsDigit(s[0]) then 0
    else
      var n := DigitCount(s[1..], limit - 1);
      assert forall k :: 1 <= k < n + 1 ==> s[k] == s[1..][k - 1];
      n + 1
  }

  /** `code_sort_key`: one to three digits, up to three capitals, else (0, ""). */
  function CodeKey(code: string): Key {
    var n := DigitCount(code, 3);
    if n > 0 && |code| - n <= 3 && AllUpper(code[n..]) then Key(Decimals.Read(code[..n]), code[n..])
    else Key(0, "")
  }

  // ----- the body --------------------------------------------------------------

  datatype Level = ChapterLevel | PartLevel | DivisionLevel

  /** A code shape the line has, and whether its other gates pass. */
  datatype Opening = Opening(code: string, passes: bool)

  /** A section an omission note names; `late` where the note opens with its verb. */
  datatype Omission = Omission(code: string, late: bool)

  datatype Line = Line(
    isTable: bool,
    blank: bool,
    heading: Option<Level>,
    dotForm: Option<Opening>,       // "2. Definitions.-": bold, with a terminator
    bracketParen: Option<Opening>,  // "4 [(4AB) ...": its note confirms the insertion
    dotless: Option<Opening>,       // "1 [230E Directorate ..."
    notTitle: bool,                 // opens with a lowercase letter or "("
    omissions: seq<Omission>)       // of a brackets-only line, in marker order

  /** Containers are numbered in body order. */
  datatype Node = Node(level: Level, parent: Option<nat>, titleLines: nat)

  datatype Entry = Entry(pos: nat, code: string, container: Option<nat>, found: bool)

  // ----- pass 1 ----------------------------------------------------------------

  datatype State = State(
    nodes: seq<Node>,
    chapter: Option<nat>, part: Option<nat>, division: Option<nat>,
    pending: Option<nat>, pendingLeft: nat,
    reals: seq<Entry>,
    lastKey: Option<Key>,
    containerAt: seq<Option<nat>>)

  function Container(s: State): Option<nat> {
    if s.division.Some? then s.division else if s.part.Some? then s.part else s.chapter
  }

  predicate Beyond(key: Key, last: Option<Key>) { last.None? || Less(last.value, key) }

  /** The code of a section starting on this line, the cursor standing at `last`. */
  function StartCode(line: Line, last: Option<Key>): (r: Option<string>)
    ensures r.Some? ==> Beyond(CodeKey(r.value), last)
  {
    if line.dotForm.Some? && line.dotForm.value.passes && Beyond(CodeKey(line.dotForm.value.code), last) then
      Some(line.dotForm.value.code)
    else if line.bracketParen.Some? && line.bracketParen.value.passes && last.Some?
            && Less(last.value, CodeKey(line.bracketParen.value.code))
            && CodeKey(line.bracketParen.value.code).number == last.value.number then
      Some(line.bracketParen.value.code)
    else if line.dotless.Some? && line.dotless.value.passes && Beyond(CodeKey(line.dotless.value.code), last) then
      Some(line.dotless.value.code)
    else None
  }

  function OpenContainer(s: State, level: Level): State {
    var n := |s.nodes|;
    match level
    case ChapterLevel =>
      s.(nodes := s.nodes + [Node(level, None, 0)], chapter := Some(n), part := None, division := None,
         pending := Some(n), pendingLeft := 2)
    case PartLevel =>
      s.(nodes := s.nodes + [Node(level, s.chapter, 0)], part := Some(n), division := None,
         pending := Some(n), pendingLeft := 2)
    case DivisionLevel =>
      s.(nodes := s.nodes + [Node(level, if s.part.Some? then s.part else s.chapter, 0)], division := Some(n),
         pending := Some(n), pendingLeft := 2)
  }

  function NoPending(s: State): State { s.(pending := None, pendingLeft := 0) }

  function ReadLine(s0: State, line: Line): State {
    var idx := |s0.containerAt|;
    var s := s0.(containerAt := s0.containerAt + [Container(s0)]);
    if line.isTable then NoPending(s)
    else if line.blank then s
    else if line.heading.Some? then
      var t := OpenContainer(s, line.heading.value);
      t.(containerAt := t.containerAt[idx := Container(t)])
    else
      var code := StartCode(line, s.lastKey);
      if code.Some? then
        NoPending(s).(reals := s.reals + [Entry(idx, code.value, Container(s), true)],
                      lastKey := Some(CodeKey(code.value)))
      else if s.pending.Some? && s.pendingLeft > 0 && s.pending.value < |s.nodes| then
        if line.notTitle then NoPending(s)
        else
          var n := s.pending.value;
          s.(nodes := s.nodes[n := s.nodes[n].(titleLines := s.nodes[n].titleLines + 1)],
              pendingLeft := s.pendingLeft - 1)
      else s
  }

  function Start(): State { State([], None, None, None, None, 0, [], None, []) }

  function Scan(body: seq<Line>, n: nat): State
    requires n <= |body|
  {
    if n == 0 then Start() else ReadLine(Scan(body, n - 1), body[n - 1])
  }

  // ----- pass 2 ----------------------------------------------------------------

  /** How many real sections start before line `idx`: `bisect_left`. */
  function Bisect(reals: seq<Entry>, idx: nat, lo: nat, hi: nat): (r: nat)
    requires lo <= hi <= |reals|
    ensures lo <= r <= hi
    decreases hi - lo
  {
    if lo == hi then lo
    else
      var mid := (lo + hi) / 2;
      if reals[mid].pos < idx then Bisect(reals, idx, mid + 1, hi) else Bisect(reals, idx, lo, mid)
  }

  predicate FitsAt(reals: seq<Entry>, j: nat, key: Key)
    requires j <= |reals|
  {
    && (j > 0 ==> !Less(key, CodeKey(reals[j - 1].code)))
    && (j < |reals| ==> !Less(CodeKey(reals[j].code), key))
  }

  predicate Named(reals: seq<Entry>, o: Omission) {
    !o.late || forall i :: 0 <= i < |reals| ==> reals[i].code != o.code
  }

  predicate Admits(reals: seq<Entry>, idx: nat, admitted: seq<Entry>, o: Omission) {
    && Named(reals, o)
    && FitsAt(reals, Bisect(reals, idx, 0, |reals|), CodeKey(o.code))
    && NewCode(admitted, o.code)
  }

  predicate NewCode(entries: seq<Entry>, code: string) {
    forall i :: 0 <= i < |entries| ==> entries[i].code != code
  }

  function AdmitLine(reals: seq<Entry>, admitted: seq<Entry>, idx: nat, container: Option<nat>,
                     os: seq<Omission>): seq<Entry> {
    if os == [] then admitted
    else
      var before := AdmitLine(reals, admitted, idx, container, os[..|os| - 1]);
      var o := os[|os| - 1];
      if Admits(reals, idx, before, o) then before + [Entry(idx, o.code, container, false)] else before
  }

  function Placeholders(body: seq<Line>, s: State, n: nat): seq<Entry>
    requires n <= |body| == |s.containerAt|
  {
    if n == 0 then []
    else
      var before := Placeholders(body, s, n - 1);
      if body[n - 1].isTable || body[n - 1].blank then before
      else AdmitLine(s.reals, before, n - 1, s.containerAt[n - 1], body[n - 1].omissions)
  }

  lemma {:induction false} ScanLength(body: seq<Line>, n: nat)
    requires n <= |body|
    ensures |Scan(body, n).containerAt| == n
  {
    hide ReadLine;
    if n > 0 {
      ScanLength(body, n - 1);
      ReadLineShape(Scan(body, n - 1), body[n - 1]);
    }
  }

  predicate NotBelow(a: Entry, b: Entry) { a.pos <= b.pos }

  /** The stable sort of the merged entries by body line. */
  function SortEntries(entries: seq<Entry>): seq<Entry> { Sort(entries, NotBelow) }

  /** The chapters, by number, in body order. */
  function Chapters(nodes: seq<Node>): (r: seq<nat>)
    ensures forall i: nat :: i in r <==> i < |nodes| && nodes[i].level == ChapterLevel
    ensures forall k :: 0 <= k < |r| ==> r[k] < |nodes|
    ensures forall j, k :: 0 <= j < k < |r| ==> r[j] < r[k]
  {
    if nodes == [] then []
    else
      var before, n := Chapters(nodes[..|nodes| - 1]), |nodes| - 1;
      if nodes[n].level == ChapterLevel then before + [n] else before
  }

  /** `discover_structure`; what hangs under no chapter is in `nodes` alone. */
  method Discover(body: seq<Line>)
    returns (nodes: seq<Node>, chapters: seq<nat>, reals: seq<Entry>, placeholders: seq<Entry>, ordered: seq<Entry>)
    ensures |Scan(body, |body|).containerAt| == |body|
    ensures nodes == Scan(body, |body|).nodes && chapters == Chapters(nodes) && reals == Scan(body, |body|).reals
    ensures placeholders == Placeholders(body, Scan(body, |body|), |body|)
    ensures ordered == SortEntries(reals + placeholders)
  {
    hide ReadLine, AdmitLine;
    var s := Start();
    for i := 0 to |body|
      invariant s == Scan(body, i)
    {
      s := ReadLine(s, body[i]);
    }
    ScanLength(body, |body|);
    nodes, chapters, reals, placeholders := s.nodes, Chapters(s.nodes), s.reals, [];
    for i := 0 to |body|
      invariant placeholders == Placeholders(body, s, i)
    {
      if !body[i].isTable && !body[i].blank {
        placeholders := AdmitOmissions(reals, placeholders, i, s.containerAt[i], body[i].omissions);
      }
    }
    ordered := SortEntries(reals + placeholders);
  }

  method AdmitOmissions(reals: seq<Entry>, admitted0: seq<Entry>, idx: nat, container: Option<nat>, os: seq<Omission>)
    returns (admitted: seq<Entry>)
    ensures admitted == AdmitLine(reals, admitted0, idx, container, os)
  {
    hide Admits;
    admitted := admitted0;
    for k := 0 to |os|
      invariant admitted == AdmitLine(reals, admitted0, idx, container, os[..k])
    {
      assert os[..k + 1][..k] == os[..k];
      if Admits(reals, idx, admitted, os[k]) {
        admitted := admitted + [Entry(idx, os[k].code, container, false)];
      }
    }
    assert os[..|os|] == os;
  }

  // ----- pass 1 keeps order ----------------------------------------------------

  ghost predicate Rising(reals: seq<Entry>) {
    forall i, j :: 0 <= i < j < |reals| ==>
      reals[i].pos < reals[j].pos && Less(CodeKey(reals[i].code), CodeKey(reals[j].code))
  }

  ghost predicate CursorAt(reals: seq<Entry>, last: Option<Key>) {
    if reals == [] then last.None? else last == Some(CodeKey(reals[|reals| - 1].code))
  }

  /** Real sections stand in strictly rising code order, whatever look-alike lines
      the body holds. */
  lemma {:induction false} RealsRise(body: seq<Line>, n: nat)
    requires n <= |body|
    ensures Rising(Scan(body, n).reals) && CursorAt(Scan(body, n).reals, Scan(body, n).lastKey)
    ensures forall i :: 0 <= i < |Scan(body, n).reals| ==>
        Scan(body, n).reals[i].pos < n && Scan(body, n).reals[i].found
  {
    if n > 0 {
      RealsRise(body, n - 1);
      ScanLength(body, n - 1);
      ReadLineRises(Scan(body, n - 1), body[n - 1]);
    }
  }

  lemma ReadLineRises(s: State, line: Line)
    requires Rising(s.reals) && CursorAt(s.reals, s.lastKey)
    requires forall i :: 0 <= i < |s.reals| ==> s.reals[i].pos < |s.containerAt| && s.reals[i].found
    ensures var t := ReadLine(s, line);
            && Rising(t.reals) && CursorAt(t.reals, t.lastKey)
            && forall i :: 0 <= i < |t.reals| ==> t.reals[i].pos < |s.containerAt| + 1 && t.reals[i].found
  {
    hide CodeKey, Less, StartCode;
    var t := ReadLine(s, line);
    if |t.reals| > |s.reals| {
      var key := CodeKey(t.reals[|s.reals|].code);
      forall i | 0 <= i < |s.reals|
        ensures Less(CodeKey(s.reals[i].code), key)
      {
        LessTransitive(CodeKey(s.reals[i].code), CodeKey(s.reals[|s.reals| - 1].code), key);
      }
    }
  }

  // ----- containers ------------------------------------------------------------

  /** The open containers form a chain ending in the newest node. */
  ghost predicate Nested(s: State) {
    && (s.chapter.Some? ==> s.chapter.value < |s.nodes| && s.nodes[s.chapter.value].level == ChapterLevel)
    && (s.part.Some? ==> s.part.value < |s.nodes| && s.nodes[s.part.value].level == PartLevel
                         && s.nodes[s.part.value].parent == s.chapter)
    && (s.division.Some? ==> s.division.value < |s.nodes| && s.nodes[s.division.value].level == DivisionLevel
                             && s.nodes[s.division.value].parent == if s.part.Some? then s.part else s.chapter)
    && (if s.nodes == [] then Container(s).None? else Container(s) == Some(|s.nodes| - 1))
    && (s.pending.Some? ==> s.pending.value < |s.nodes|)
  }

  lemma OpenContainerNests(s: State, level: Level)
    requires Nested(s)
    ensures Nested(OpenContainer(s, level))
  {
    var t := OpenContainer(s, level);
    assert forall i :: 0 <= i < |s.nodes| ==> t.nodes[i] == s.nodes[i];
    assert |t.nodes| == |s.nodes| + 1 && Container(t) == Some(|s.nodes|);
  }

  /** The two states differ at most in titles, sections and the title capture. */
  ghost predicate SameTree(s: State, t: State) {
    && t.chapter == s.chapter && t.part == s.part && t.division == s.division && |t.nodes| == |s.nodes|
    && (forall i :: 0 <= i < |s.nodes| ==>
          t.nodes[i].level == s.nodes[i].level && t.nodes[i].parent == s.nodes[i].parent)
    && (t.pending == s.pending || t.pending.None?)
  }

  lemma SameTreeNests(s: State, t: State)
    requires Nested(s) && SameTree(s, t)
    ensures Nested(t)
  {
  }

  lemma ReadLineNests(s: State, line: Line)
    requires Nested(s)
    ensures Nested(ReadLine(s, line))
  {
    hide StartCode, OpenContainer, Nested;
    var next := s.(containerAt := s.containerAt + [Container(s)]);
    SameTreeNests(s, next);
    if !line.isTable && !line.blank && line.heading.Some? {
      var u := OpenContainer(next, line.heading.value);
      OpenContainerNests(next, line.heading.value);
      SameTreeNests(u, ReadLine(s, line));
    } else {
      SameTreeNests(s, ReadLine(s, line));
    }
  }

  /** A section belongs to the last heading printed above it: the innermost open
      container is always the newest node, under the part and chapter still open. */
  lemma {:induction false} ContainersNest(body: seq<Line>, n: nat)
    requires n <= |body|
    ensures Nested(Scan(body, n))
  {
    if n > 0 {
      ContainersNest(body, n - 1);
      ReadLineNests(Scan(body, n - 1), body[n - 1]);
    }
  }

  /** The line opens a container. */
  predicate Opens(line: Line) { !line.isTable && !line.blank && line.heading.Some? }

  function Headings(body: seq<Line>, n: nat): nat
    requires n <= |body|
  {
    if n == 0 then 0 else Headings(body, n - 1) + if Opens(body[n - 1]) then 1 else 0
  }

  /** The number of the last of the first `count` headings. */
  function LastOf(count: nat): Option<nat> { if count == 0 then None else Some(count - 1) }

  ghost predicate Owned(body: seq<Line>, s: State) {
    && |s.containerAt| <= |body| && |s.nodes| == Headings(body, |s.containerAt|)
    && (forall i :: 0 <= i < |s.containerAt| ==> s.containerAt[i] == LastOf(Headings(body, i + 1)))
    && (forall i :: 0 <= i < |s.reals| ==>
          s.reals[i].pos < |s.containerAt| && s.reals[i].container == LastOf(Headings(body, s.reals[i].pos + 1)))
  }

  /** Every section, and every line a placeholder may stand on, belongs to the last
      heading printed at or above it. */
  lemma {:induction false} LastHeadingOwns(body: seq<Line>, n: nat)
    requires n <= |body|
    ensures Owned(body, Scan(body, n)) && |Scan(body, n).containerAt| == n
  {
    hide Owned, Nested, ReadLine;
    if n == 0 {
      StartOwns(body);
    } else {
      LastHeadingOwns(body, n - 1);
      ContainersNest(body, n);
      ReadLineOwns(body, Scan(body, n - 1));
    }
  }

  lemma StartOwns(body: seq<Line>)
    ensures Owned(body, Start())
  {
  }

  lemma ReadLineShape(s: State, line: Line)
    ensures var t := ReadLine(s, line);
            && |t.nodes| == |s.nodes| + (if Opens(line) then 1 else 0)
            && t.containerAt == s.containerAt + [Container(t)]
            && |t.reals| <= |s.reals| + 1 && s.reals <= t.reals
            && (|t.reals| > |s.reals| ==>
                  t.reals[|s.reals|].pos == |s.containerAt| && t.reals[|s.reals|].container == Container(t))
  {
    hide StartCode;
  }

  lemma NewestIsLast(s: State)
    requires Nested(s)
    ensures Container(s) == LastOf(|s.nodes|)
  {
  }

  lemma ReadLineOwns(body: seq<Line>, s: State)
    requires Owned(body, s) && |s.containerAt| < |body| && Nested(ReadLine(s, body[|s.containerAt|]))
    ensures var t := ReadLine(s, body[|s.containerAt|]); Owned(body, t) && |t.containerAt| == |s.containerAt| + 1
  {
    hide ReadLine, Nested, Container, LastOf;
    var t := ReadLine(s, body[|s.containerAt|]);
    ReadLineShape(s, body[|s.containerAt|]);
    NewestIsLast(t);
  }

  // ----- which sections a chapter reaches --------------------------------------

  /** Only a part's or division's parent is given, and it stands earlier. */
  ghost predicate WellParented(nodes: seq<Node>) {
    forall i :: 0 <= i < |nodes| ==>
      && (nodes[i].level == ChapterLevel ==> nodes[i].parent.None?)
      && (nodes[i].parent.Some? ==> nodes[i].parent.value < i)
  }

  /** The top of a container's chain of parents. */
  function Root(nodes: seq<Node>, i: nat): (r: nat)
    requires i < |nodes| && WellParented(nodes)
    ensures r <= i && nodes[r].parent.None?
  {
    if nodes[i].parent.None? then i else Root(nodes, nodes[i].parent.value)
  }

  /** The tree of some returned chapter holds the container. */
  ghost predicate InATree(nodes: seq<Node>, container: Option<nat>)
    requires WellParented(nodes)
  {
    container.Some? && container.value < |nodes| && Root(nodes, container.value) in Chapters(nodes)
  }

  /** A CHAPTER heading stands on one of the first `n` lines. */
  ghost predicate ChapterAbove(body: seq<Line>, n: nat)
    requires n <= |body|
  {
    exists q :: 0 <= q < n && Opens(body[q]) && body[q].heading.value == ChapterLevel
  }

  lemma {:induction false} RootStays(a: seq<Node>, b: seq<Node>, i: nat)
    requires WellParented(a) && WellParented(b) && i < |a| <= |b|
    requires forall k :: 0 <= k < |a| ==> b[k].parent == a[k].parent && b[k].level == a[k].level
    ensures Root(b, i) == Root(a, i) && (Root(a, i) in Chapters(a) <==> Root(b, i) in Chapters(b))
  {
    if a[i].parent.Some? {
      RootStays(a, b, a[i].parent.value);
    }
  }

  /** With a chapter open the innermost container hangs under it; with none open it
      hangs under no chapter. */
  lemma OpenRoot(s: State)
    requires Nested(s) && WellParented(s.nodes)
    ensures InATree(s.nodes, Container(s)) <==> s.chapter.Some?
  {
    var top := if s.part.Some? then s.part else s.chapter;
    if s.part.Some? {
      assert Root(s.nodes, s.part.value) == if s.chapter.Some? then Root(s.nodes, s.chapter.value) else s.part.value;
    }
    if s.division.Some? {
      assert Root(s.nodes, s.division.value) == if top.Some? then Root(s.nodes, top.value) else s.division.value;
    }
  }

  ghost predicate Reached(body: seq<Line>, s: State) {
    && |s.containerAt| <= |body| && WellParented(s.nodes)
    && (s.chapter.Some? <==> ChapterAbove(body, |s.containerAt|))
    && (forall i :: 0 <= i < |s.containerAt| ==> (InATree(s.nodes, s.containerAt[i]) <==> ChapterAbove(body, i + 1)))
    && (forall i :: 0 <= i < |s.containerAt| && s.containerAt[i].Some? ==> s.containerAt[i].value < |s.nodes|)
  }

  lemma ReadLineTree(s: State, line: Line)
    requires Nested(s) && WellParented(s.nodes)
    ensures var t := ReadLine(s, line);
            && WellParented(t.nodes) && |s.nodes| <= |t.nodes|
            && (forall k :: 0 <= k < |s.nodes| ==>
                  t.nodes[k].parent == s.nodes[k].parent && t.nodes[k].level == s.nodes[k].level)
            && (t.chapter.Some? <==> s.chapter.Some? || (Opens(line) && line.heading.value == ChapterLevel))
  {
    hide StartCode, OpenContainer;
    if Opens(line) {
      OpenContainerTree(s.(containerAt := s.containerAt + [Container(s)]), line.heading.value);
    }
  }

  lemma OpenContainerTree(s: State, level: Level)
    requires Nested(s) && WellParented(s.nodes)
    ensures var t := OpenContainer(s, level);
            && WellParented(t.nodes) && |s.nodes| <= |t.nodes|
            && (forall k :: 0 <= k < |s.nodes| ==> t.nodes[k] == s.nodes[k])
            && (t.chapter.Some? <==> s.chapter.Some? || level == ChapterLevel)
  {
  }

  lemma ReadLineReaches(body: seq<Line>, s: State)
    requires Reached(body, s) && |s.containerAt| < |body| && Nested(s) && Nested(ReadLine(s, body[|s.containerAt|]))
    ensures Reached(body, ReadLine(s, body[|s.containerAt|]))
  {
    var n := |s.containerAt|;
    var line := body[n];
    var t := ReadLine(s, line);
    ReadLineTree(s, line);
    ReadLineShape(s, line);
    OpenRoot(t);
    NewestIsLast(t);
    hide ReadLine, Nested, Opens, InATree, ChapterAbove, Container;
    ChapterAboveStep(body, n);
    ReachedFrom(body, s, t);
  }

  lemma ReachedFrom(body: seq<Line>, s: State, t: State)
    requires Reached(body, s) && |s.containerAt| < |body| && t.containerAt == s.containerAt + [Container(t)]
    requires WellParented(t.nodes) && |s.nodes| <= |t.nodes|
    requires forall k :: 0 <= k < |s.nodes| ==>
               t.nodes[k].parent == s.nodes[k].parent && t.nodes[k].level == s.nodes[k].level
    requires t.chapter.Some? <==> ChapterAbove(body, |s.containerAt| + 1)
    requires InATree(t.nodes, Container(t)) <==> t.chapter.Some?
    requires Container(t).Some? ==> Container(t).value < |t.nodes|
    ensures Reached(body, t)
  {
    hide InATree, ChapterAbove, Container;
    forall i | 0 <= i < |s.containerAt|
      ensures InATree(t.nodes, t.containerAt[i]) <==> ChapterAbove(body, i + 1)
    {
      assert t.containerAt[i] == s.containerAt[i];
      StaysInTree(s.nodes, t.nodes, s.containerAt[i]);
    }
  }

  lemma StaysInTree(a: seq<Node>, b: seq<Node>, c: Option<nat>)
    requires WellParented(a) && WellParented(b) && |a| <= |b| && (c.Some? ==> c.value < |a|)
    requires forall k :: 0 <= k < |a| ==> b[k].parent == a[k].parent && b[k].level == a[k].level
    ensures InATree(b, c) <==> InATree(a, c)
  {
    hide Chapters;
    if c.Some? {
      RootStays(a, b, c.value);
    }
  }

  lemma ChapterAboveStep(body: seq<Line>, n: nat)
    requires n < |body|
    ensures ChapterAbove(body, n + 1) <==>
              ChapterAbove(body, n) || (Opens(body[n]) && body[n].heading.value == ChapterLevel)
  {
    hide Opens;
  }

  lemma {:induction false} ScanReaches(body: seq<Line>, n: nat)
    requires n <= |body|
    ensures Reached(body, Scan(body, n)) && |Scan(body, n).containerAt| == n
  {
    hide ReadLine, Nested, Reached;
    ScanLength(body, n);
    if n == 0 {
      StartReaches(body);
    } else {
      ScanReaches(body, n - 1);
      ContainersNest(body, n - 1);
      ContainersNest(body, n);
      ReadLineReaches(body, Scan(body, n - 1));
    }
  }

  lemma StartReaches(body: seq<Line>)
    ensures Reached(body, Start())
  {
  }

  /** A section, or the line of a placeholder, is in the tree of a returned chapter
      if and only if a CHAPTER heading stands at or above it. */
  lemma SectionsReachChapters(body: seq<Line>, p: nat)
    requires p < |body|
    ensures var s := Scan(body, |body|);
            && WellParented(s.nodes) && |s.containerAt| == |body|
            && (InATree(s.nodes, s.containerAt[p]) <==> ChapterAbove(body, p + 1))
            && forall e :: e in s.reals && e.pos == p ==> e.container == s.containerAt[p]
  {
    ScanReaches(body, |body|);
    LastHeadingOwns(body, |body|);
    hide InATree, ChapterAbove, Scan;
  }

  /** A section under a part printed before the first chapter has a container and is
      in no chapter's tree. */
  lemma PartBeforeChapter()
    ensures var blank := Line(false, false, None, None, None, None, false, []);
            var body := [blank.(heading := Some(PartLevel)), blank.(dotForm := Some(Opening("1", true)))];
            var s := Scan(body, 2);
            && s.reals == [Entry(1, "1", Some(0), true)]
            && WellParented(s.nodes) && !InATree(s.nodes, Some(0)) && Chapters(s.nodes) == []
  {
    hide CodeKey;
    var blank := Line(false, false, None, None, None, None, false, []);
    var body := [blank.(heading := Some(PartLevel)), blank.(dotForm := Some(Opening("1", true)))];
    assert Scan(body, 0) == Start();
    assert Scan(body, 1) == ReadLine(Start(), body[0]);
    assert Scan(body, 1).nodes == [Node(PartLevel, None, 0)];
    var s := Scan(body, 2);
    assert s == ReadLine(Scan(body, 1), body[1]);
    assert s.nodes == [Node(PartLevel, None, 0)];
    assert s.nodes[..0] == [];
    assert Chapters(s.nodes[..0]) == [];
  }

  // ----- pass 2 keeps order ----------------------------------------------------

  ghost predicate PositionsRise(reals: seq<Entry>) {
    forall i, j :: 0 <= i < j < |reals| ==> reals[i].pos < reals[j].pos
  }

  /** The bisection point splits the starts at the line. */
  lemma {:induction false} BisectFinds(reals: seq<Entry>, idx: nat, lo: nat, hi: nat, k: nat)
    requires lo <= k < hi <= |reals| && PositionsRise(reals)
    ensures k < Bisect(reals, idx, lo, hi) <==> reals[k].pos < idx
    decreases hi - lo
  {
    var mid := (lo + hi) / 2;
    assert k < mid ==> reals[k].pos < reals[mid].pos;
    assert mid < k ==> reals[mid].pos < reals[k].pos;
    if reals[mid].pos < idx {
      if mid < k {
        BisectFinds(reals, idx, mid + 1, hi, k);
      }
    } else if k < mid {
      BisectFinds(reals, idx, lo, mid, k);
    }
  }

  /** Fitting between two real neighbours is fitting between all the real sections
      before the line and all those from it on. */
  ghost predicate FitsEverywhere(reals: seq<Entry>, idx: nat, key: Key) {
    && (forall i :: 0 <= i < |reals| && reals[i].pos < idx ==> !Less(key, CodeKey(reals[i].code)))
    && (forall i :: 0 <= i < |reals| && reals[i].pos >= idx ==> !Less(CodeKey(reals[i].code), key))
  }

  lemma NeighboursDecide(reals: seq<Entry>, idx: nat, key: Key)
    requires Rising(reals)
    ensures FitsAt(reals, Bisect(reals, idx, 0, |reals|), key) <==> FitsEverywhere(reals, idx, key)
  {
    hide CodeKey, Less;
    assert PositionsRise(reals);
    forall k | 0 <= k < |reals|
      ensures k < Bisect(reals, idx, 0, |reals|) <==> reals[k].pos < idx
    {
      BisectFinds(reals, idx, 0, |reals|, k);
    }
    var j := Bisect(reals, idx, 0, |reals|);
    if FitsAt(reals, j, key) {
      forall i | 0 <= i < |reals| && reals[i].pos < idx
        ensures !Less(key, CodeKey(reals[i].code))
      {
        if i < j - 1 {
          LessTransitive(key, CodeKey(reals[i].code), CodeKey(reals[j - 1].code));
        }
      }
      forall i | 0 <= i < |reals| && reals[i].pos >= idx
        ensures !Less(CodeKey(reals[i].code), key)
      {
        if i > j {
          LessTransitive(CodeKey(reals[j].code), CodeKey(reals[i].code), key);
        }
      }
    }
  }

  ghost predicate Placed(reals: seq<Entry>, ps: seq<Entry>) {
    && (forall i :: 0 <= i < |ps| ==> !ps[i].found && FitsEverywhere(reals, ps[i].pos, CodeKey(ps[i].code)))
    && (forall i, j :: 0 <= i < j < |ps| ==> ps[i].code != ps[j].code && ps[i].pos <= ps[j].pos)
  }

  lemma {:induction false} AdmitLinePlaces(reals: seq<Entry>, admitted: seq<Entry>, idx: nat, container: Option<nat>,
                                           os: seq<Omission>)
    requires Rising(reals) && Placed(reals, admitted) && forall i :: 0 <= i < |admitted| ==> admitted[i].pos <= idx
    ensures var r := AdmitLine(reals, admitted, idx, container, os);
            Placed(reals, r) && forall i :: 0 <= i < |r| ==> r[i].pos <= idx
  {
    hide Placed, Rising, Admits;
    if os != [] {
      AdmitLinePlaces(reals, admitted, idx, container, os[..|os| - 1]);
      var before, o := AdmitLine(reals, admitted, idx, container, os[..|os| - 1]), os[|os| - 1];
      if Admits(reals, idx, before, o) {
        OneMoreIsPlaced(reals, before, idx, container, o);
      }
    }
  }

  lemma OneMoreIsPlaced(reals: seq<Entry>, before: seq<Entry>, idx: nat, container: Option<nat>, o: Omission)
    requires Rising(reals) && Placed(reals, before) && Admits(reals, idx, before, o)
    requires forall i :: 0 <= i < |before| ==> before[i].pos <= idx
    ensures Placed(reals, before + [Entry(idx, o.code, container, false)])
  {
    hide FitsEverywhere, FitsAt, Rising, Named, CodeKey;
    NeighboursDecide(reals, idx, CodeKey(o.code));
  }

  /** Every admitted placeholder has a code of its own and a key between the keys
      of all real sections before its line and all those after it. */
  lemma {:induction false} PlaceholdersFit(body: seq<Line>, n: nat)
    requires n <= |body| && |Scan(body, |body|).containerAt| == |body|
    ensures Placed(Scan(body, |body|).reals, Placeholders(body, Scan(body, |body|), n))
  {
    RealsRise(body, |body|);
    PlaceholdersFitScan(body, Scan(body, |body|), n);
  }

  lemma {:induction false} PlaceholdersFitScan(body: seq<Line>, s: State, n: nat)
    requires n <= |body| == |s.containerAt| && Rising(s.reals)
    ensures Placed(s.reals, Placeholders(body, s, n))
    ensures forall i :: 0 <= i < |Placeholders(body, s, n)| ==> Placeholders(body, s, n)[i].pos < n
  {
    hide Placed, Rising, AdmitLine;
    if n == 0 {
      NoneIsPlaced(s.reals);
    } else {
      PlaceholdersFitScan(body, s, n - 1);
      AdmitLinePlaces(s.reals, Placeholders(body, s, n - 1), n - 1, s.containerAt[n - 1], body[n - 1].omissions);
    }
  }

  lemma NoneIsPlaced(reals: seq<Entry>)
    ensures Placed(reals, [])
  {
  }

  // ----- the merged order ------------------------------------------------------

  ghost predicate ByPos(entries: seq<Entry>) {
    forall i, j :: 0 <= i < j < |entries| ==> entries[i].pos <= entries[j].pos
  }

  /** The merged list is the entries in body order, each as often as it was. */
  lemma SortEntriesSorts(entries: seq<Entry>)
    ensures ByPos(SortEntries(entries))
    ensures multiset(SortEntries(entries)) == multiset(entries)
    ensures forall x :: x in SortEntries(entries) <==> x in entries
  {
    SortSorts(entries, NotBelow);
    SortedMembers(entries, NotBelow);
    var r := SortEntries(entries);
    forall i, j | 0 <= i < j < |r|
      ensures r[i].pos <= r[j].pos
    {
      assert NotBelow(r[i], r[j]);
    }
  }

  /** In the section list no entry is out of order with a real section: of two
      entries on different lines, one of them real, the earlier has no larger key. */
  lemma OrderedAroundReals(body: seq<Line>, i: nat, j: nat)
    requires |Scan(body, |body|).containerAt| == |body|
    requires var s := Scan(body, |body|);
             var ordered := SortEntries(s.reals + Placeholders(body, s, |body|));
             i < j < |ordered| && ordered[i].pos < ordered[j].pos && (ordered[i].found || ordered[j].found)
    ensures var s := Scan(body, |body|);
            var ordered := SortEntries(s.reals + Placeholders(body, s, |body|));
            !Less(CodeKey(ordered[j].code), CodeKey(ordered[i].code))
  {
    RealsRise(body, |body|);
    PlaceholdersFit(body, |body|);
    var s := Scan(body, |body|);
    var ps := Placeholders(body, s, |body|);
    hide CodeKey, Less, Scan, Placeholders;
    SortEntriesSorts(s.reals + ps);
    var ordered := SortEntries(s.reals + ps);
    var a, b := ordered[i], ordered[j];
    assert a in s.reals + ps && b in s.reals + ps;
    OneRealOrders(s.reals, ps, a, b);
  }

  lemma OneRealOrders(reals: seq<Entry>, ps: seq<Entry>, a: Entry, b: Entry)
    requires Rising(reals) && Placed(reals, ps) && forall i :: 0 <= i < |reals| ==> reals[i].found
    requires a in reals + ps && b in reals + ps && a.pos < b.pos && (a.found || b.found)
    ensures !Less(CodeKey(b.code), CodeKey(a.code))
  {
    hide CodeKey;
    StringLessTotal(CodeKey(a.code).suffix, CodeKey(b.code).suffix);
    if a.found && b.found {
      assert a in reals && b in reals;
    } else if a.found {
      assert a in reals && b in ps;
      assert FitsEverywhere(reals, b.pos, CodeKey(b.code));
    } else {
      assert a in ps && b in reals;
      assert FitsEverywhere(reals, a.pos, CodeKey(a.code));
    }
  }

  /** The later entry has no smaller code. */
  predicate NoDescent(a: Entry, b: Entry) { !Less(CodeKey(b.code), CodeKey(a.code)) }

  /** A list read in code order. */
  ghost predicate InCodeOrder(entries: seq<Entry>) { Pairwise(entries, NoDescent) }

  /** No real section starts from the one line up to the other. */
  ghost predicate OneGap(reals: seq<Entry>, from: nat, to: nat) {
    forall r :: r in reals ==> !(from <= r.pos < to)
  }

  /** Placeholders of one gap are printed in code order. */
  ghost predicate GapsInOrder(reals: seq<Entry>, ps: seq<Entry>) {
    forall i, j :: 0 <= i < j < |ps| && OneGap(reals, ps[i].pos, ps[j].pos) ==> NoDescent(ps[i], ps[j])
  }

  /** No placeholder stands on the line of a real section with a larger code. */
  ghost predicate LinesInOrder(reals: seq<Entry>, ps: seq<Entry>) {
    forall r, p :: r in reals && p in ps && r.pos == p.pos ==> NoDescent(r, p)
  }

  lemma RealsAroundOrder(reals: seq<Entry>, ps: seq<Entry>, i: nat, j: nat)
    requires Rising(reals) && Placed(reals, ps) && i < j < |ps| && !OneGap(reals, ps[i].pos, ps[j].pos)
    ensures NoDescent(ps[i], ps[j])
  {
    hide CodeKey, Less;
    var r :| r in reals && ps[i].pos <= r.pos < ps[j].pos;
    var k :| 0 <= k < |reals| && reals[k] == r;
    assert FitsEverywhere(reals, ps[i].pos, CodeKey(ps[i].code))
        && FitsEverywhere(reals, ps[j].pos, CodeKey(ps[j].code));
    NotLessChains(CodeKey(ps[i].code), CodeKey(r.code), CodeKey(ps[j].code));
  }

  lemma NotLessChains(a: Key, b: Key, c: Key)
    requires !Less(b, a) && !Less(c, b)
    ensures !Less(c, a)
  {
    StringLessTotal(b.suffix, c.suffix);
    if b != c {
      LessTransitive(b, c, a);
    }
  }

  lemma RealBeforePlaceholder(reals: seq<Entry>, ps: seq<Entry>, r: Entry, p: Entry)
    requires Rising(reals) && Placed(reals, ps) && r in reals && p in ps
    ensures r.pos < p.pos ==> NoDescent(r, p)
    ensures p.pos <= r.pos ==> NoDescent(p, r)
  {
    hide CodeKey, Less;
    assert FitsEverywhere(reals, p.pos, CodeKey(p.code));
  }

  lemma RealsInOrder(reals: seq<Entry>, i: nat, j: nat)
    requires Rising(reals) && i < j < |reals|
    ensures NoDescent(reals[i], reals[j])
  {
    hide CodeKey;
    StringLessTotal(CodeKey(reals[i].code).suffix, CodeKey(reals[j].code).suffix);
  }

  /** What the merge asks of the `i`-th and `j`-th of real sections and placeholders
      written one after the other. */
  lemma MergePair(reals: seq<Entry>, ps: seq<Entry>, i: nat, j: nat)
    requires Rising(reals) && Placed(reals, ps) && i < j < |reals + ps|
    ensures var all := reals + ps;
            Arranged(NotBelow, NoDescent, all[i], all[j]) <==>
              if i >= |reals| then NoDescent(all[i], all[j])
              else j >= |reals| && all[i].pos == all[j].pos ==> NoDescent(all[i], all[j])
  {
    var all := reals + ps;
    if j < |reals| {
      RealsInOrder(reals, i, j);
      assert all[i] == reals[i] && all[j] == reals[j];
      assert all[i].pos < all[j].pos;
    } else if i < |reals| {
      RealBeforePlaceholder(reals, ps, reals[i], ps[j - |reals|]);
    } else {
      assert all[i] == ps[i - |reals|] && all[j] == ps[j - |reals|];
    }
  }

  lemma MergeWhenInOrder(reals: seq<Entry>, ps: seq<Entry>)
    requires Rising(reals) && Placed(reals, ps) && GapsInOrder(reals, ps) && LinesInOrder(reals, ps)
    ensures AllArranged(reals + ps, NotBelow, NoDescent)
  {
    hide NoDescent, NotBelow, Rising, Placed, Arranged, OneGap, GapsInOrder, LinesInOrder;
    var all := reals + ps;
    forall i, j | 0 <= i < j < |all|
      ensures Arranged(NotBelow, NoDescent, all[i], all[j])
    {
      MergePair(reals, ps, i, j);
      if i >= |reals| {
        InGap(reals, ps, i - |reals|, j - |reals|);
      } else if j >= |reals| && all[i].pos == all[j].pos {
        OnLine(reals, ps, all[i], all[j]);
      }
    }
  }

  lemma InGap(reals: seq<Entry>, ps: seq<Entry>, i: nat, j: nat)
    requires Rising(reals) && Placed(reals, ps) && GapsInOrder(reals, ps) && i < j < |ps|
    ensures NoDescent(ps[i], ps[j])
  {
    hide NoDescent, Rising, Placed, OneGap;
    if !OneGap(reals, ps[i].pos, ps[j].pos) {
      RealsAroundOrder(reals, ps, i, j);
    }
  }

  lemma OnLine(reals: seq<Entry>, ps: seq<Entry>, r: Entry, p: Entry)
    requires LinesInOrder(reals, ps) && r in reals && p in ps && r.pos == p.pos
    ensures NoDescent(r, p)
  {
    hide NoDescent;
  }

  lemma OrderedWhenMerged(reals: seq<Entry>, ps: seq<Entry>)
    requires Rising(reals) && Placed(reals, ps)
    requires AllArranged(reals + ps, NotBelow, NoDescent)
    ensures GapsInOrder(reals, ps) && LinesInOrder(reals, ps)
  {
    hide NoDescent, NotBelow, Rising, Placed, Arranged, OneGap;
    var all := reals + ps;
    forall i, j | 0 <= i < j < |ps|
      ensures NoDescent(ps[i], ps[j])
    {
      MergePair(reals, ps, |reals| + i, |reals| + j);
      assert all[|reals| + i] == ps[i] && all[|reals| + j] == ps[j];
    }
    forall r, p | r in reals && p in ps && r.pos == p.pos
      ensures NoDescent(r, p)
    {
      var i :| 0 <= i < |reals| && reals[i] == r;
      var j :| 0 <= j < |ps| && ps[j] == p;
      MergePair(reals, ps, i, |reals| + j);
      assert all[i] == r && all[|reals| + j] == p;
    }
  }

  lemma MergeInOrder(reals: seq<Entry>, ps: seq<Entry>)
    requires Rising(reals) && Placed(reals, ps)
    ensures InCodeOrder(SortEntries(reals + ps)) <==> GapsInOrder(reals, ps) && LinesInOrder(reals, ps)
  {
    var all := reals + ps;
    SortPairs(all, NotBelow, NoDescent);
    hide NoDescent, NotBelow, Rising, Placed, AllArranged, Sort, GapsInOrder, LinesInOrder;
    if GapsInOrder(reals, ps) && LinesInOrder(reals, ps) {
      MergeWhenInOrder(reals, ps);
    }
    if AllArranged(all, NotBelow, NoDescent) {
      OrderedWhenMerged(reals, ps);
    }
  }

  /** The section list is in code order if and only if the placeholders of each gap
      between real sections are printed in code order, and none shares the line of a
      real section with a larger code. */
  lemma MergedInCodeOrder(body: seq<Line>)
    ensures |Scan(body, |body|).containerAt| == |body|
    ensures var s := Scan(body, |body|);
            var ps := Placeholders(body, s, |body|);
            InCodeOrder(SortEntries(s.reals + ps)) <==> GapsInOrder(s.reals, ps) && LinesInOrder(s.reals, ps)
  {
    ScanLength(body, |body|);
    RealsRise(body, |body|);
    PlaceholdersFit(body, |body|);
    hide Scan, Placeholders;
    MergeInOrder(Scan(body, |body|).reals, Placeholders(body, Scan(body, |body|), |body|));
  }

  /** The notes of a line that fit between the real sections around it. */
  function Fitting(reals: seq<Entry>, idx: nat, container: Option<nat>, os: seq<Omission>): seq<Entry> {
    if os == [] then []
    else
      var before, o := Fitting(reals, idx, container, os[..|os| - 1]), os[|os| - 1];
      if Named(reals, o) && FitsAt(reals, Bisect(reals, idx, 0, |reals|), CodeKey(o.code)) then
        before + [Entry(idx, o.code, container, false)]
      else before
  }

  function Candidates(body: seq<Line>, s: State, n: nat): seq<Entry>
    requires n <= |body| == |s.containerAt|
  {
    if n == 0 then []
    else
      Candidates(body, s, n - 1)
      + if body[n - 1].isTable || body[n - 1].blank then []
        else Fitting(s.reals, n - 1, s.containerAt[n - 1], body[n - 1].omissions)
  }

  /** Each code's first entry. */
  function Firsts(entries: seq<Entry>): seq<Entry> {
    if entries == [] then []
    else
      var before, e := Firsts(entries[..|entries| - 1]), entries[|entries| - 1];
      if NewCode(before, e.code) then before + [e] else before
  }

  lemma {:induction false} FirstsOfLine(reals: seq<Entry>, before: seq<Entry>, idx: nat, container: Option<nat>,
                                        os: seq<Omission>)
    ensures Firsts(before + Fitting(reals, idx, container, os)) == AdmitLine(reals, Firsts(before), idx, container, os)
  {
    hide Named, FitsAt, CodeKey, NewCode, Firsts;
    if os == [] {
      assert before + [] == before;
    } else {
      FirstsOfLine(reals, before, idx, container, os[..|os| - 1]);
      var f := Fitting(reals, idx, container, os[..|os| - 1]);
      var e := Entry(idx, os[|os| - 1].code, container, false);
      assert before + (f + [e]) == (before + f) + [e];
      FirstsOneMore(before + f, e);
    }
  }

  lemma FirstsOneMore(entries: seq<Entry>, e: Entry)
    ensures Firsts(entries + [e]) == if NewCode(Firsts(entries), e.code) then Firsts(entries) + [e] else Firsts(entries)
  {
    hide NewCode;
    assert (entries + [e])[..|entries|] == entries;
  }

  /** Of the omission notes that fit where they stand, the first of each code gives a
      placeholder. */
  lemma {:induction false} PlaceholdersAreFirsts(body: seq<Line>, s: State, n: nat)
    requires n <= |body| == |s.containerAt|
    ensures Placeholders(body, s, n) == Firsts(Candidates(body, s, n))
  {
    hide AdmitLine, Fitting, Firsts;
    if n == 0 {
      NoFirsts();
    } else {
      PlaceholdersAreFirsts(body, s, n - 1);
      var before := Candidates(body, s, n - 1);
      assert before + [] == before;
      FirstsOfLine(s.reals, before, n - 1, s.containerAt[n - 1], body[n - 1].omissions);
    }
  }

  lemma NoFirsts()
    ensures Firsts([]) == []
  {
  }

  /** Two notes of one gap that the body prints against the code order. */
  lemma PlaceholdersCanDescend()
    ensures var blank := Line(false, false, None, None, None, None, false, []);
            var body := [blank.(omissions := [Omission("9", false)]), blank.(omissions := [Omission("8", false)])];
            && |Scan(body, 2).containerAt| == 2
            && Placeholders(body, Scan(body, 2), 2) == [Entry(0, "9", None, false), Entry(1, "8", None, false)]
            && Less(CodeKey("8"), CodeKey("9"))
  {
    hide CodeKey, Less, AdmitLine;
    var blank := Line(false, false, None, None, None, None, false, []);
    var one, two := [Omission("9", false)], [Omission("8", false)];
    var body := [blank.(omissions := one), blank.(omissions := two)];
    var s := Scan(body, 2);
    assert Scan(body, 0) == Start();
    assert Scan(body, 1) == ReadLine(Start(), body[0]) && s == ReadLine(Scan(body, 1), body[1]);
    assert Scan(body, 1) == Start().(containerAt := [None]);
    assert s == Start().(containerAt := [None, None]);
    OneOmission([], 0, "9");
    assert Placeholders(body, s, 0) == [];
    assert Placeholders(body, s, 1) == [] + [Entry(0, "9", None, false)] == [Entry(0, "9", None, false)];
    OneOmission([Entry(0, "9", None, false)], 1, "8");
    EightBeforeNine();
  }

  lemma OneOmission(admitted: seq<Entry>, idx: nat, code: string)
    requires forall i :: 0 <= i < |admitted| ==> admitted[i].code != code
    ensures AdmitLine([], admitted, idx, None, [Omission(code, false)]) == admitted + [Entry(idx, code, None, false)]
  {
    hide CodeKey, Less;
    var os := [Omission(code, false)];
    assert AdmitLine([], admitted, idx, None, os[..0]) == admitted;
  }

  lemma EightBeforeNine()
    ensures Less(CodeKey("8"), CodeKey("9"))
  {
    assert "8"[..1] == "8" && "9"[..1] == "9" && "8"[1..] == "" && "9"[1..] == "";
    assert "8"[..0] == "" && "9"[..0] == "";
  }
}

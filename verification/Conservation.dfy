/** Which section keeps which line. */
module Conservation {
  import opened Common
  import opened Placement
  import Containers

  ghost predicate Increasing(s: seq<nat>, n: nat) {
    && (forall i, j :: 0 <= i < j < |s| ==> s[i] < s[j])
    && (forall i :: 0 <= i < |s| ==> s[i] < n)
  }

  // ----- pull-back -------------------------------------------------------------

  predicate IsPrefix(body: seq<Line>, pos: nat, i: nat)
    requires pos < |body| && i < |body|
  {
    !body[i].blank && body[i].page == body[pos].page && body[i].bracketPrefix
  }

  /** `r` is the top of the bracket prefix above `pos`, blanks skipped, never
      reaching `floor`; the prefix extends no further. */
  ghost predicate IsPrefixStart(body: seq<Line>, pos: nat, floor: int, r: nat)
    requires pos < |body|
  {
    && floor < r <= pos
    && (r < pos ==> OnTop(body, pos, r))
    && (forall i :: r <= i < pos ==> body[i].blank || OnTop(body, pos, i))
    && (forall i :: 0 <= i < r && floor < i && OnTop(body, pos, i) ==>
          exists j :: i < j < r && !body[j].blank && !OnTop(body, pos, j))
  }

  /** A bracket line on the page of line `pos`. */
  ghost predicate OnTop(body: seq<Line>, pos: nat, i: nat)
    requires pos < |body| && i < |body|
  {
    body[i].bracketPrefix && !body[i].blank && body[i].page == body[pos].page
  }

  method OwnHeadingPrefixStart(body: seq<Line>, pos: nat, floor: int) returns (start: nat)
    requires -1 <= floor < pos < |body|
    ensures IsPrefixStart(body, pos, floor, start)
  {
    start := pos;
    var i := pos - 1;
    while i > floor
      invariant floor <= i < start <= pos
      invariant start < pos ==> OnTop(body, pos, start)
      invariant forall k :: i < k < pos ==> body[k].blank || OnTop(body, pos, k)
      invariant forall k :: i < k < start ==> body[k].blank
    {
      if body[i].blank {
        i := i - 1;
      } else if IsPrefix(body, pos, i) {
        start := i;
        i := i - 1;
      } else {
        break;
      }
    }
  }

  function Floor(starts: seq<nat>, k: nat): int
    requires k <= |starts|
  {
    if k == 0 then -1 else starts[k - 1]
  }

  /** `starts[k]` is `placed[k]` pulled back, never to the start before it. */
  ghost predicate PulledBack(body: seq<Line>, placed: seq<nat>, starts: seq<nat>, k: nat)
    requires k < |placed| && k < |starts|
  {
    placed[k] < |body| && IsPrefixStart(body, placed[k], if k > 0 then starts[k - 1] else -1, starts[k])
  }

  method PullBack(body: seq<Line>, placed: seq<nat>) returns (starts: seq<nat>)
    requires Increasing(placed, |body|)
    ensures |starts| == |placed| && Increasing(starts, |body|)
    ensures forall k :: 0 <= k < |starts| ==> PulledBack(body, placed, starts, k)
  {
    hide IsPrefixStart;
    starts := placed;
    for k := 0 to |placed|
      invariant |starts| == |placed|
      invariant forall i :: k <= i < |placed| ==> starts[i] == placed[i]
      invariant Increasing(starts, |body|)
      invariant forall i :: 0 <= i < k ==> PulledBack(body, placed, starts, i)
    {
      var start := OwnHeadingPrefixStart(body, placed[k], Floor(starts, k));
      ghost var before := starts;
      starts := starts[k := start];
      assert forall i :: 0 <= i < k ==> PulledBack(body, placed, before, i) ==> PulledBack(body, placed, starts, i);
    }
  }

  // ----- hand-off --------------------------------------------------------------

  /** The first structural boundary in [i, hi), or `hi`. */
  function FirstBoundary(body: seq<Line>, codes: set<string>, i: nat, hi: nat): (r: nat)
    requires hi <= |body|
    ensures i <= hi ==> i <= r <= hi
    ensures i <= r < hi ==> IsBoundary(body[r], codes)
    ensures forall k :: i <= k < r && k < hi ==> !IsBoundary(body[k], codes)
    decreases hi - i
  {
    if i >= hi then hi
    else if IsBoundary(body[i], codes) then i
    else FirstBoundary(body, codes, i + 1, hi)
  }

  function SkipBlank(body: seq<Line>, j: nat, hi: nat): (r: nat)
    requires j <= hi <= |body|
    ensures j <= r <= hi
    ensures forall k :: j <= k < r ==> body[k].blank
    decreases hi - j
  {
    if j < hi && body[j].blank then SkipBlank(body, j + 1, hi) else j
  }

  predicate TitleOfSubChapter(line: Line, codes: set<string>) {
    !(line.dotCode.Some? || line.isTable || IsBoundary(line, codes))
  }

  /** The line after a sub-chapter caption and its title. */
  function PastSubChapter(body: seq<Line>, codes: set<string>, j: nat, hi: nat): (r: nat)
    requires j < hi <= |body|
    ensures j < r <= hi
  {
    var t := SkipBlank(body, j + 1, hi);
    if t < hi && TitleOfSubChapter(body[t], codes) then t + 1 else t
  }

  /** Past the heading, the lines a container already holds. */
  function PastFurniture(body: seq<Line>, codes: set<string>, j: nat, hi: nat, pending: nat): (r: nat)
    requires j <= hi <= |body|
    ensures j <= r <= hi
    decreases hi - j
  {
    if j == hi || pending == 0 then j
    else if body[j].blank then PastFurniture(body, codes, j + 1, hi, pending)
    else if body[j].subChapter then PastFurniture(body, codes, PastSubChapter(body, codes, j, hi), hi, 2)
    else if IsBoundary(body[j], codes) then PastFurniture(body, codes, j + 1, hi, 2)
    else if body[j].held then PastFurniture(body, codes, j + 1, hi, pending - 1)
    else j
  }

  /** Where the next section starts once it is handed the text behind the first
      heading in (lo, hi). */
  function Handed(body: seq<Line>, codes: set<string>, lo: nat, hi: nat): (r: nat)
    requires lo < hi <= |body|
    ensures lo < r <= hi
  {
    var b := FirstBoundary(body, codes, lo + 1, hi);
    if b == hi then hi else PastFurniture(body, codes, b + 1, hi, 2)
  }

  ghost predicate HandedStep(body: seq<Line>, scopes: seq<set<string>>, pulled: seq<nat>, starts: seq<nat>, k: nat)
    requires k + 1 < |starts| == |pulled| == |scopes|
  {
    && starts[k] < pulled[k + 1] <= |body|
    && starts[k + 1] == Handed(body, scopes[k + 1], starts[k], pulled[k + 1])
  }

  /** `starts` after the hand-off of `pulled`, section by section. */
  ghost predicate HandedOff(body: seq<Line>, scopes: seq<set<string>>, pulled: seq<nat>, starts: seq<nat>) {
    && Increasing(pulled, |body|) && Increasing(starts, |body|)
    && |starts| == |pulled| == |scopes|
    && (|starts| > 0 ==> starts[0] == pulled[0])
    && (forall k :: 0 <= k < |starts| - 1 ==> HandedStep(body, scopes, pulled, starts, k))
  }

  method WalkFurniture(body: seq<Line>, codes: set<string>, from: nat, hi: nat) returns (j: nat)
    requires from <= hi <= |body|
    ensures j == PastFurniture(body, codes, from, hi, 2)
  {
    hide IsBoundary;
    j := from;
    var pending := 2;
    while j < hi && pending != 0
      invariant from <= j <= hi && 0 <= pending <= 2
      invariant PastFurniture(body, codes, from, hi, 2) == PastFurniture(body, codes, j, hi, pending)
      decreases hi - j
    {
      if body[j].blank {
        j := j + 1;
      } else if body[j].subChapter {
        ghost var caption := j;
        j := j + 1;
        while j < hi && body[j].blank
          invariant caption < j <= hi
          invariant SkipBlank(body, caption + 1, hi) == SkipBlank(body, j, hi)
        {
          j := j + 1;
        }
        if j < hi && !(body[j].dotCode.Some? || body[j].isTable || IsBoundary(body[j], codes)) {
          j := j + 1;
        }
        pending := 2;
        assert j == PastSubChapter(body, codes, caption, hi);
      } else if IsBoundary(body[j], codes) {
        j, pending := j + 1, 2;
      } else if body[j].held {
        j, pending := j + 1, pending - 1;
      } else {
        return;
      }
    }
  }

  method HandOver(body: seq<Line>, codes: set<string>, lo: nat, hi: nat) returns (j: nat)
    requires lo < hi <= |body|
    ensures j == Handed(body, codes, lo, hi)
  {
    hide PastFurniture;
    var b := lo + 1;
    while b < hi && !IsBoundary(body[b], codes)
      invariant lo < b <= hi
      invariant FirstBoundary(body, codes, lo + 1, hi) == FirstBoundary(body, codes, b, hi)
    {
      b := b + 1;
    }
    if b == hi { return hi; }
    j := WalkFurniture(body, codes, b + 1, hi);
  }

  method HandOff(body: seq<Line>, scopes: seq<set<string>>, pulled: seq<nat>) returns (starts: seq<nat>)
    requires Increasing(pulled, |body|) && |scopes| == |pulled|
    ensures HandedOff(body, scopes, pulled, starts)
    ensures |starts| == |pulled| && Increasing(starts, |body|)
  {
    hide Handed;
    starts := pulled;
    var k := 0;
    while k < |starts| - 1
      invariant |starts| == |pulled| && 0 <= k
      invariant k == 0 || k < |starts|
      invariant |starts| > 0 ==> starts[0] == pulled[0]
      invariant Increasing(starts, |body|)
      invariant forall i :: k < i < |starts| ==> starts[i] == pulled[i]
      invariant forall i :: 0 <= i < k ==> HandedStep(body, scopes, pulled, starts, i)
    {
      var j := HandOver(body, scopes[k + 1], starts[k], starts[k + 1]);
      ghost var before := starts;
      if j < starts[k + 1] {
        starts := starts[k + 1 := j];
      }
      assert forall i :: 0 <= i < k ==>
               HandedStep(body, scopes, pulled, before, i) ==> HandedStep(body, scopes, pulled, starts, i);
      assert HandedStep(body, scopes, pulled, starts, k);
      k := k + 1;
    }
  }

  // ----- how far the walk goes -------------------------------------------------

  /** A sub-chapter caption on line `j` and what goes with it end before `r`: blanks
      and, unless it opens a section, a table or a container, the line behind them. */
  ghost predicate CaptionTo(body: seq<Line>, codes: set<string>, j: nat, hi: nat, r: nat) {
    j < hi <= |body| && body[j].subChapter
    && exists t: nat :: EndsBlanks(body, j, t, hi)
         && r == if t < hi && body[t].dotCode.None? && !body[t].isTable && !IsBoundary(body[t], codes) then t + 1 else t
  }

  /** `t` is the first line behind `j` that is not blank. */
  ghost predicate EndsBlanks(body: seq<Line>, j: nat, t: nat, hi: nat)
    requires hi <= |body|
  {
    j < t <= hi && (forall i :: j < i < t ==> body[i].blank) && (t < hi ==> !body[t].blank)
  }

  /** The walk behind the heading on line `b` counts anew from `r`: behind that heading,
      another one, or a caption. */
  ghost predicate CountsFrom(body: seq<Line>, codes: set<string>, b: nat, hi: nat, r: nat) {
    hi <= |body|
    && (r == b + 1 || (b + 1 < r <= hi && IsBoundary(body[r - 1], codes))
        || exists j: nat :: b < j < r && CaptionTo(body, codes, j, hi, r))
  }

  ghost predicate OnlyHeld(body: seq<Line>, codes: set<string>, r: nat, e: nat)
    requires e <= |body|
  {
    forall i :: r <= i < e ==> body[i].blank || (!body[i].subChapter && !IsBoundary(body[i], codes) && body[i].held)
  }

  ghost function HeldLines(body: seq<Line>, r: nat, e: nat): nat
    requires e <= |body|
  {
    if e <= r then 0 else HeldLines(body, r, e - 1) + if !body[e - 1].blank && body[e - 1].held then 1 else 0
  }

  /** The walk is to stop at line `e`: since it last counted anew it has passed two held
      lines, or it has passed fewer and the line is none of the furniture. */
  ghost predicate StopsAt(body: seq<Line>, codes: set<string>, b: nat, hi: nat, e: nat)
    requires e < |body|
  {
    exists r: nat :: r <= e && CountsFrom(body, codes, b, hi, r) && OnlyHeld(body, codes, r, e)
      && (HeldLines(body, r, e) == 2
          || (HeldLines(body, r, e) < 2 && !body[e].blank && !body[e].subChapter
              && !IsBoundary(body[e], codes) && !body[e].held))
  }

  /** The walk may pass line `i`: it goes with a caption, or it is furniture and fewer
      than two held lines were passed since the walk last counted anew. */
  ghost predicate MayPass(body: seq<Line>, codes: set<string>, b: nat, hi: nat, i: nat)
    requires i < |body|
  {
    || (exists j: nat, r: nat :: b < j < i < r && CaptionTo(body, codes, j, hi, r))
    || ((body[i].blank || body[i].subChapter || IsBoundary(body[i], codes) || body[i].held)
        && exists r: nat :: r <= i && CountsFrom(body, codes, b, hi, r) && OnlyHeld(body, codes, r, i)
             && HeldLines(body, r, i) < 2)
  }

  lemma SkipBlankEnds(body: seq<Line>, j: nat, i: nat, hi: nat)
    requires j < i <= hi <= |body| && forall x :: j < x < i ==> body[x].blank
    ensures EndsBlanks(body, j, SkipBlank(body, i, hi), hi)
    decreases hi - i
  {
    if i < hi && body[i].blank {
      SkipBlankEnds(body, j, i + 1, hi);
    }
  }

  lemma PastCaption(body: seq<Line>, codes: set<string>, j: nat, hi: nat)
    requires j < hi <= |body| && body[j].subChapter
    ensures CaptionTo(body, codes, j, hi, PastSubChapter(body, codes, j, hi))
  {
    SkipBlankEnds(body, j, j + 1, hi);
    hide SkipBlank, EndsBlanks;
  }

  lemma {:induction false} WalkStopsFrom(body: seq<Line>, codes: set<string>, b: nat, r: nat, j: nat, hi: nat,
                                         pending: nat)
    requires b < r <= j <= hi <= |body| && CountsFrom(body, codes, b, hi, r) && OnlyHeld(body, codes, r, j)
    requires HeldLines(body, r, j) + pending == 2
    ensures var e := PastFurniture(body, codes, j, hi, pending); e == hi || StopsAt(body, codes, b, hi, e)
    decreases hi - j
  {
    hide CountsFrom, IsBoundary, CaptionTo, PastSubChapter;
    if j == hi || pending == 0 {
    } else if body[j].blank {
      WalkStopsFrom(body, codes, b, r, j + 1, hi, pending);
    } else if body[j].subChapter {
      var t := PastSubChapter(body, codes, j, hi);
      PastCaption(body, codes, j, hi);
      AnewBehindCaption(body, codes, b, hi, j, t);
      WalkStopsFrom(body, codes, b, t, t, hi, 2);
    } else if IsBoundary(body[j], codes) {
      AnewBehindHeading(body, codes, b, hi, j);
      WalkStopsFrom(body, codes, b, j + 1, j + 1, hi, 2);
    } else if body[j].held {
      WalkStopsFrom(body, codes, b, r, j + 1, hi, pending - 1);
    }
  }

  lemma {:induction false} WalkPassesFrom(body: seq<Line>, codes: set<string>, b: nat, r: nat, j: nat, hi: nat,
                                          pending: nat)
    requires b < r <= j <= hi <= |body| && CountsFrom(body, codes, b, hi, r) && OnlyHeld(body, codes, r, j)
    requires HeldLines(body, r, j) + pending == 2
    ensures forall i :: j <= i < PastFurniture(body, codes, j, hi, pending) ==> MayPass(body, codes, b, hi, i)
    decreases hi - j
  {
    hide CountsFrom, IsBoundary, CaptionTo, PastSubChapter, MayPass;
    if j < hi && pending > 0 {
      PassesHere(body, codes, b, r, j, hi);
      if body[j].blank {
        WalkPassesFrom(body, codes, b, r, j + 1, hi, pending);
      } else if body[j].subChapter {
        var t := PastSubChapter(body, codes, j, hi);
        PastCaption(body, codes, j, hi);
        AnewBehindCaption(body, codes, b, hi, j, t);
        WalkPassesFrom(body, codes, b, t, t, hi, 2);
        forall i | j < i < t
          ensures MayPass(body, codes, b, hi, i)
        {
          PassesWithCaption(body, codes, b, hi, j, t, i);
        }
      } else if IsBoundary(body[j], codes) {
        AnewBehindHeading(body, codes, b, hi, j);
        WalkPassesFrom(body, codes, b, j + 1, j + 1, hi, 2);
      } else if body[j].held {
        WalkPassesFrom(body, codes, b, r, j + 1, hi, pending - 1);
      }
    }
  }

  lemma PassesHere(body: seq<Line>, codes: set<string>, b: nat, r: nat, j: nat, hi: nat)
    requires b < r <= j < hi <= |body| && CountsFrom(body, codes, b, hi, r) && OnlyHeld(body, codes, r, j)
    requires HeldLines(body, r, j) < 2
    ensures body[j].blank || body[j].subChapter || IsBoundary(body[j], codes) || body[j].held ==>
              MayPass(body, codes, b, hi, j)
  {
    hide CountsFrom, IsBoundary, CaptionTo, OnlyHeld, HeldLines;
  }

  lemma PassesWithCaption(body: seq<Line>, codes: set<string>, b: nat, hi: nat, j: nat, r: nat, i: nat)
    requires b < j < i < r <= |body| && CaptionTo(body, codes, j, hi, r)
    ensures MayPass(body, codes, b, hi, i)
  {
    hide CaptionTo, CountsFrom, IsBoundary;
  }

  lemma AnewBehindCaption(body: seq<Line>, codes: set<string>, b: nat, hi: nat, j: nat, r: nat)
    requires hi <= |body| && b < j < r && CaptionTo(body, codes, j, hi, r)
    ensures CountsFrom(body, codes, b, hi, r)
  {
    hide CaptionTo;
  }

  lemma AnewBehindHeading(body: seq<Line>, codes: set<string>, b: nat, hi: nat, j: nat)
    requires b < j < hi <= |body| && IsBoundary(body[j], codes)
    ensures CountsFrom(body, codes, b, hi, j + 1)
  {
  }

  /** A moved start stands behind the first heading, every line between may be passed,
      and the line it stands on is where the walk is to stop. */
  lemma HandedStopsAt(body: seq<Line>, codes: set<string>, lo: nat, hi: nat)
    requires lo < hi <= |body|
    ensures var b, e := FirstBoundary(body, codes, lo + 1, hi), Handed(body, codes, lo, hi);
            && (b < hi ==> b < e)
            && (forall i :: b < i < e ==> MayPass(body, codes, b, hi, i))
            && (e < hi ==> StopsAt(body, codes, b, hi, e))
  {
    var b := FirstBoundary(body, codes, lo + 1, hi);
    if b < hi {
      hide IsBoundary, OnlyHeld, StopsAt, MayPass;
      assert CountsFrom(body, codes, b, hi, b + 1);
      NothingHeld(body, codes, b + 1);
      WalkStopsFrom(body, codes, b, b + 1, b + 1, hi, 2);
      WalkPassesFrom(body, codes, b, b + 1, b + 1, hi, 2);
    }
  }

  lemma NothingHeld(body: seq<Line>, codes: set<string>, r: nat)
    requires r <= |body|
    ensures OnlyHeld(body, codes, r, r) && HeldLines(body, r, r) == 0
  {
  }

  /** The first two held lines behind a heading never open the next section. */
  lemma {:induction false} TwoHeldArePassed(body: seq<Line>, codes: set<string>, j: nat, hi: nat, pending: nat, i: nat)
    requires j <= i < hi <= |body| && OnlyHeld(body, codes, j, i + 1) && HeldLines(body, j, i + 1) <= pending
    requires !body[i].blank
    ensures PastFurniture(body, codes, j, hi, pending) > i
    decreases hi - j
  {
    hide IsBoundary;
    HeldFromFront(body, j, i + 1);
    if j < i {
      if body[j].blank {
        TwoHeldArePassed(body, codes, j + 1, hi, pending, i);
      } else {
        HeldAfter(body, j + 1, i);
        TwoHeldArePassed(body, codes, j + 1, hi, pending - 1, i);
      }
    }
  }

  lemma {:induction false} HeldFromFront(body: seq<Line>, j: nat, e: nat)
    requires j < e <= |body|
    ensures HeldLines(body, j, e) == (if !body[j].blank && body[j].held then 1 else 0) + HeldLines(body, j + 1, e)
    decreases e
  {
    if j + 1 < e {
      HeldFromFront(body, j, e - 1);
    }
  }

  lemma HeldAfter(body: seq<Line>, j: nat, i: nat)
    requires j <= i < |body| && !body[i].blank && body[i].held
    ensures HeldLines(body, j, i + 1) >= 1
  {
  }

  // ----- the cut ---------------------------------------------------------------

  /** Section `k` reaches to the next section's start, or to the end. */
  function EndOf(body: seq<Line>, starts: seq<nat>, k: nat): nat
    requires k < |starts|
  {
    if k + 1 < |starts| then starts[k + 1] else |body|
  }

  /** Section `k` keeps [starts[k], CutOf): up to the first heading its own
      containers vouch for, except that the last section is not cut. */
  function CutOf(body: seq<Line>, scopes: seq<set<string>>, starts: seq<nat>, k: nat): (r: nat)
    requires k < |starts| == |scopes| && Increasing(starts, |body|)
    ensures starts[k] < r <= EndOf(body, starts, k)
  {
    if k + 1 == |starts| then |body|
    else FirstBoundary(body, scopes[k], starts[k] + 1, starts[k + 1])
  }

  method BuildSegments(body: seq<Line>, scopes: seq<set<string>>, starts: seq<nat>)
    returns (kept: seq<(nat, nat)>)
    requires |scopes| == |starts| && Increasing(starts, |body|)
    ensures |kept| == |starts|
    ensures forall k :: 0 <= k < |kept| ==> kept[k] == (starts[k], CutOf(body, scopes, starts, k))
  {
    kept := [];
    for k := 0 to |starts|
      invariant |kept| == k
      invariant forall i :: 0 <= i < k ==> kept[i] == (starts[i], CutOf(body, scopes, starts, i))
    {
      var end := EndOf(body, starts, k);
      var cut := end;
      if k + 1 < |starts| {
        var i := starts[k] + 1;
        while i < end && !IsBoundary(body[i], scopes[k])
          invariant starts[k] < i <= end
          invariant FirstBoundary(body, scopes[k], starts[k] + 1, end) == FirstBoundary(body, scopes[k], i, end)
        {
          i := i + 1;
        }
        cut := i;
      }
      kept := kept + [(starts[k], cut)];
    }
  }

  lemma StepFacts(body: seq<Line>, scopes: seq<set<string>>, pulled: seq<nat>, starts: seq<nat>, k: nat)
    requires HandedOff(body, scopes, pulled, starts) && k + 1 < |starts|
    ensures starts[k] < starts[k + 1] <= pulled[k + 1] < |body|
    ensures starts[k + 1] == Handed(body, scopes[k + 1], starts[k], pulled[k + 1])
  {
    assert HandedStep(body, scopes, pulled, starts, k);
  }

  // ----- where the next section starts -----------------------------------------

  /** A section's start is where its predecessor's hand-off leaves it: where it was, or
      behind the first heading between them, past what may be passed and no line more. */
  lemma HandOffReaches(body: seq<Line>, scopes: seq<set<string>>, pulled: seq<nat>, starts: seq<nat>, k: nat)
    requires HandedOff(body, scopes, pulled, starts) && k + 1 < |starts|
    ensures var codes, hi, e := scopes[k + 1], pulled[k + 1], starts[k + 1];
            var b := FirstBoundary(body, codes, starts[k] + 1, hi);
            && (if b == hi then e == hi else b < e)
            && (forall i :: b < i < e ==> MayPass(body, codes, b, hi, i))
            && (e < hi ==> StopsAt(body, codes, b, hi, e))
  {
    StepFacts(body, scopes, pulled, starts, k);
    hide StopsAt, MayPass;
    HandedStopsAt(body, scopes[k + 1], starts[k], pulled[k + 1]);
  }

  /** The first two lines behind the heading that a container already holds, blanks
      between them or not, never open the next section. */
  lemma HeldTitlesStayOut(body: seq<Line>, scopes: seq<set<string>>, pulled: seq<nat>, starts: seq<nat>, k: nat, i: nat)
    requires HandedOff(body, scopes, pulled, starts) && k + 1 < |starts|
    requires var b := FirstBoundary(body, scopes[k + 1], starts[k] + 1, pulled[k + 1]);
             b < i < pulled[k + 1] && !body[i].blank
             && OnlyHeld(body, scopes[k + 1], b + 1, i + 1) && HeldLines(body, b + 1, i + 1) <= 2
    ensures starts[k + 1] > i
  {
    StepFacts(body, scopes, pulled, starts, k);
    var b := FirstBoundary(body, scopes[k + 1], starts[k] + 1, pulled[k + 1]);
    TwoHeldArePassed(body, scopes[k + 1], b + 1, pulled[k + 1], 2, i);
  }

  // ----- conservation ----------------------------------------------------------

  ghost predicate KeptBy(body: seq<Line>, scopes: seq<set<string>>, starts: seq<nat>, k: nat, i: nat)
    requires k < |starts| == |scopes| && Increasing(starts, |body|)
  {
    starts[k] <= i < CutOf(body, scopes, starts, k)
  }

  /** Line `i` is in the furniture passed over between sections `k` and `k + 1`. */
  ghost predicate PassedAfter(body: seq<Line>, scopes: seq<set<string>>, pulled: seq<nat>, starts: seq<nat>, k: nat,
                              i: nat)
    requires HandedOff(body, scopes, pulled, starts) && k + 1 < |starts|
  {
    FirstBoundary(body, scopes[k + 1], starts[k] + 1, pulled[k + 1]) <= i < starts[k + 1]
  }

  /** What the furniture is: a heading, a blank, a sub-chapter caption or the
      title line under one, or text a container already holds. */
  ghost predicate IsFurniture(body: seq<Line>, codes: set<string>, i: nat)
    requires i < |body|
  {
    || body[i].blank || body[i].subChapter || IsBoundary(body[i], codes) || body[i].held
    || (TitleOfSubChapter(body[i], codes)
        && exists c :: 0 <= c < i && body[c].subChapter && forall m :: c < m < i ==> body[m].blank)
  }

  lemma {:induction false} PastFurnitureIsFurniture(body: seq<Line>, codes: set<string>, j: nat, hi: nat, pending: nat)
    requires j <= hi <= |body|
    ensures forall i :: j <= i < PastFurniture(body, codes, j, hi, pending) ==> IsFurniture(body, codes, i)
    decreases hi - j
  {
    if j == hi || pending == 0 {
    } else if body[j].blank {
      PastFurnitureIsFurniture(body, codes, j + 1, hi, pending);
    } else if body[j].subChapter {
      var t := SkipBlank(body, j + 1, hi);
      PastFurnitureIsFurniture(body, codes, PastSubChapter(body, codes, j, hi), hi, 2);
      assert forall i :: j < i < t ==> IsFurniture(body, codes, i);
      if t < hi && TitleOfSubChapter(body[t], codes) {
        assert IsFurniture(body, codes, t);
      }
    } else if IsBoundary(body[j], codes) {
      PastFurnitureIsFurniture(body, codes, j + 1, hi, 2);
    } else if body[j].held {
      PastFurnitureIsFurniture(body, codes, j + 1, hi, pending - 1);
    }
  }

  lemma HeadingIsFurniture(body: seq<Line>, codes: set<string>, i: nat)
    requires i < |body| && IsBoundary(body[i], codes)
    ensures IsFurniture(body, codes, i)
  {}

  /** Nothing but furniture is passed over, however far the walk goes. */
  lemma PassedIsFurniture(body: seq<Line>, scopes: seq<set<string>>, pulled: seq<nat>, starts: seq<nat>, k: nat, i: nat)
    requires HandedOff(body, scopes, pulled, starts) && k + 1 < |starts|
    requires PassedAfter(body, scopes, pulled, starts, k, i)
    ensures IsFurniture(body, scopes[k + 1], i)
  {
    hide PastFurniture, IsFurniture, FirstBoundary, IsBoundary;
    StepFacts(body, scopes, pulled, starts, k);
    var b := FirstBoundary(body, scopes[k + 1], starts[k] + 1, pulled[k + 1]);
    if i == b {
      HeadingIsFurniture(body, scopes[k + 1], b);
    }
    PastFurnitureIsFurniture(body, scopes[k + 1], b + 1, pulled[k + 1], 2);
  }

  /** Where the cut of section `k` and the hand-off to section `k + 1` see their
      first heading in the same stretch of lines. */
  ghost function CutReading(body: seq<Line>, scopes: seq<set<string>>, pulled: seq<nat>, starts: seq<nat>, k: nat): nat
    requires HandedOff(body, scopes, pulled, starts) && k + 1 < |starts|
  {
    FirstBoundary(body, scopes[k], starts[k] + 1, pulled[k + 1])
  }

  ghost function HandOffReading(body: seq<Line>, scopes: seq<set<string>>, pulled: seq<nat>, starts: seq<nat>,
                                k: nat): nat
    requires HandedOff(body, scopes, pulled, starts) && k + 1 < |starts|
  {
    FirstBoundary(body, scopes[k + 1], starts[k] + 1, pulled[k + 1])
  }

  ghost predicate Reached(body: seq<Line>, scopes: seq<set<string>>, pulled: seq<nat>, starts: seq<nat>, i: nat)
    requires HandedOff(body, scopes, pulled, starts)
  {
    || (exists k :: 0 <= k < |starts| && KeptBy(body, scopes, starts, k, i))
    || (exists k :: 0 <= k < |starts| - 1 && PassedAfter(body, scopes, pulled, starts, k, i))
  }

  ghost predicate NothingLost(body: seq<Line>, scopes: seq<set<string>>, pulled: seq<nat>, starts: seq<nat>)
    requires HandedOff(body, scopes, pulled, starts) && |starts| > 0
  {
    forall i :: starts[0] <= i < |body| ==> Reached(body, scopes, pulled, starts, i)
  }

  /** A shorter stretch answers the same, until it runs out. */
  lemma {:induction false} FirstBoundaryShorter(body: seq<Line>, codes: set<string>, i: nat, hi: nat, end: nat)
    requires i <= end <= hi <= |body|
    ensures FirstBoundary(body, codes, i, end) == Min(FirstBoundary(body, codes, i, hi), end)
    decreases end - i
  {
    if i < end && !IsBoundary(body[i], codes) {
      FirstBoundaryShorter(body, codes, i + 1, hi, end);
    }
  }

  /** The cut of section `k` is the cut's reading, unless the next section now
      starts before it. */
  lemma CutFromReading(body: seq<Line>, scopes: seq<set<string>>, pulled: seq<nat>, starts: seq<nat>, k: nat)
    requires HandedOff(body, scopes, pulled, starts) && k + 1 < |starts|
    ensures CutOf(body, scopes, starts, k) == Min(CutReading(body, scopes, pulled, starts, k), starts[k + 1])
  {
    StepFacts(body, scopes, pulled, starts, k);
    FirstBoundaryShorter(body, scopes[k], starts[k] + 1, pulled[k + 1], starts[k + 1]);
  }

  /** The section whose stretch line `i` falls in. */
  lemma {:induction false} StretchOf(body: seq<Line>, starts: seq<nat>, i: nat, n: nat) returns (k: nat)
    requires Increasing(starts, |body|) && 0 < n <= |starts|
    requires starts[0] <= i < EndOf(body, starts, n - 1)
    ensures k < n && starts[k] <= i < EndOf(body, starts, k)
  {
    if starts[n - 1] <= i {
      k := n - 1;
    } else {
      k := StretchOf(body, starts, i, n - 1);
    }
  }

  lemma Apart(body: seq<Line>, starts: seq<nat>, j: nat, k: nat)
    requires Increasing(starts, |body|) && j < |starts| && k < |starts|
    ensures j < k ==> EndOf(body, starts, j) <= starts[k]
    ensures k < j ==> EndOf(body, starts, k) <= starts[j]
  {}

  /** Stretches do not overlap, so a line has at most one section. */
  lemma OneSectionAtMost(body: seq<Line>, scopes: seq<set<string>>, starts: seq<nat>, j: nat, k: nat, i: nat)
    requires |scopes| == |starts| && Increasing(starts, |body|) && j < |starts| && k < |starts|
    requires KeptBy(body, scopes, starts, j, i) && KeptBy(body, scopes, starts, k, i)
    ensures j == k
  {
    Apart(body, starts, j, k);
  }

  lemma PassedStaysInStretch(body: seq<Line>, scopes: seq<set<string>>, pulled: seq<nat>, starts: seq<nat>, j: nat,
                             k: nat, i: nat)
    requires HandedOff(body, scopes, pulled, starts) && j + 1 < |starts| && k < |starts|
    requires PassedAfter(body, scopes, pulled, starts, j, i)
    requires starts[k] <= i < EndOf(body, starts, k)
    ensures j == k
  {
    StepFacts(body, scopes, pulled, starts, j);
    Apart(body, starts, j, k);
  }

  /** Body conservation, with its exact condition: every line from the first
      start on is in a section or is passed-over furniture, if and only if no
      section's cut sees a heading before the hand-off behind it does. */
  lemma ConservationIff(body: seq<Line>, scopes: seq<set<string>>, pulled: seq<nat>, starts: seq<nat>)
    requires HandedOff(body, scopes, pulled, starts) && |starts| > 0
    ensures NothingLost(body, scopes, pulled, starts) <==>
            forall k :: 0 <= k < |starts| - 1 ==>
              CutReading(body, scopes, pulled, starts, k) >= HandOffReading(body, scopes, pulled, starts, k)
  {
    if forall k :: 0 <= k < |starts| - 1 ==>
         CutReading(body, scopes, pulled, starts, k) >= HandOffReading(body, scopes, pulled, starts, k) {
      forall i | starts[0] <= i < |body|
        ensures Reached(body, scopes, pulled, starts, i)
      {
        var k := StretchOf(body, starts, i, |starts|);
        if k + 1 == |starts| {
          assert KeptBy(body, scopes, starts, k, i);
        } else if !KeptBy(body, scopes, starts, k, i) {
          CutFromReading(body, scopes, pulled, starts, k);
          assert PassedAfter(body, scopes, pulled, starts, k, i);
        }
      }
    }
    forall k | 0 <= k < |starts| - 1
               && CutReading(body, scopes, pulled, starts, k) < HandOffReading(body, scopes, pulled, starts, k)
      ensures !NothingLost(body, scopes, pulled, starts)
    {
      LostAtTheCut(body, scopes, pulled, starts, k);
    }
  }

  /** Where the cut sees the earlier heading, that heading's line is lost. */
  lemma LostAtTheCut(body: seq<Line>, scopes: seq<set<string>>, pulled: seq<nat>, starts: seq<nat>, k: nat)
    requires HandedOff(body, scopes, pulled, starts) && k + 1 < |starts|
    requires CutReading(body, scopes, pulled, starts, k) < HandOffReading(body, scopes, pulled, starts, k)
    ensures !Reached(body, scopes, pulled, starts, CutReading(body, scopes, pulled, starts, k))
    ensures !NothingLost(body, scopes, pulled, starts)
  {
    var i := CutReading(body, scopes, pulled, starts, k);
    StepFacts(body, scopes, pulled, starts, k);
    CutFromReading(body, scopes, pulled, starts, k);
    assert starts[0] <= starts[k] && starts[k] <= i < EndOf(body, starts, k);
    forall j | 0 <= j < |starts| && KeptBy(body, scopes, starts, j, i)
      ensures false
    {
      Apart(body, starts, j, k);
    }
    forall j | 0 <= j < |starts| - 1 && PassedAfter(body, scopes, pulled, starts, j, i)
      ensures false
    {
      PassedStaysInStretch(body, scopes, pulled, starts, j, k, i);
    }
  }

  /** When the two readings coincide, conservation is exact: each line is in one
      section's text or is furniture, never both. */
  lemma ExactlyOnce(body: seq<Line>, scopes: seq<set<string>>, pulled: seq<nat>, starts: seq<nat>, i: nat)
    requires HandedOff(body, scopes, pulled, starts) && |starts| > 0 && starts[0] <= i < |body|
    requires forall k :: 0 <= k < |starts| - 1 ==>
               CutReading(body, scopes, pulled, starts, k) == HandOffReading(body, scopes, pulled, starts, k)
    ensures (exists k :: 0 <= k < |starts| && KeptBy(body, scopes, starts, k, i)) <==>
            !(exists k :: 0 <= k < |starts| - 1 && PassedAfter(body, scopes, pulled, starts, k, i))
  {
    ConservationIff(body, scopes, pulled, starts);
    assert Reached(body, scopes, pulled, starts, i);
    forall j, k | 0 <= j < |starts| - 1 && PassedAfter(body, scopes, pulled, starts, j, i)
                  && 0 <= k < |starts| && KeptBy(body, scopes, starts, k, i)
      ensures false
    {
      PassedStaysInStretch(body, scopes, pulled, starts, j, k, i);
      CutFromReading(body, scopes, pulled, starts, k);
    }
  }

  // ----- whose heading it is ---------------------------------------------------

  /** What a section keeps, line by line: its stretch up to the first heading its own
      containers vouch for, and the last section all of it. */
  lemma KeptIff(body: seq<Line>, scopes: seq<set<string>>, starts: seq<nat>, k: nat, i: nat)
    requires k < |starts| == |scopes| && Increasing(starts, |body|) && i < |body|
    ensures KeptBy(body, scopes, starts, k, i) <==>
              && starts[k] <= i < EndOf(body, starts, k)
              && (k + 1 == |starts| || forall j :: starts[k] < j <= i ==> !IsBoundary(body[j], scopes[k]))
  {
  }

  /** Exactly when a section keeps a line of its own, its heading included: always for
      the last section; else when the next one does not start at or before it, and no
      heading its containers vouch for stands between the section's start and it. */
  lemma OwnLineStays(body: seq<Line>, scopes: seq<set<string>>, pulled: seq<nat>, starts: seq<nat>, k: nat, h: nat)
    requires HandedOff(body, scopes, pulled, starts) && k < |starts| && pulled[k] <= h < |body|
    ensures KeptBy(body, scopes, starts, k, h) <==>
              || k + 1 == |starts|
              || (h < starts[k + 1] && forall i :: starts[k] < i <= h ==> !IsBoundary(body[i], scopes[k]))
  {
    if k > 0 {
      StepFacts(body, scopes, pulled, starts, k - 1);
    }
    KeptIff(body, scopes, starts, k, h);
  }

  /** Under one scope the second half decides alone, for every line down to the next
      section's own start: the section keeps its heading if and only if no other
      heading was left between the text handed to it and that line. */
  lemma OwnLineStaysInOneScope(body: seq<Line>, scopes: seq<set<string>>, pulled: seq<nat>, starts: seq<nat>, k: nat,
                               h: nat)
    requires HandedOff(body, scopes, pulled, starts) && k + 1 < |starts| && scopes[k] == scopes[k + 1]
    requires pulled[k] <= h < pulled[k + 1]
    ensures KeptBy(body, scopes, starts, k, h) <==> forall i :: starts[k] < i <= h ==> !IsBoundary(body[i], scopes[k])
  {
    StepFacts(body, scopes, pulled, starts, k);
    OwnLineStays(body, scopes, pulled, starts, k, h);
    var b := FirstBoundary(body, scopes[k + 1], starts[k] + 1, pulled[k + 1]);
    assert b < pulled[k + 1] ==> b < starts[k + 1] <= pulled[k + 1];
    if k > 0 {
      StepFacts(body, scopes, pulled, starts, k - 1);
    }
  }

  // ----- when the readings agree -----------------------------------------------

  /** A wider scope sees its first heading no later. */
  lemma {:induction false} WiderSeesEarlier(body: seq<Line>, narrow: set<string>, wide: set<string>, i: nat, hi: nat)
    requires narrow <= wide && i <= hi <= |body|
    ensures FirstBoundary(body, wide, i, hi) <= FirstBoundary(body, narrow, i, hi)
    decreases hi - i
  {
    if i < hi && !IsBoundary(body[i], wide) {
      WiderSeesEarlier(body, narrow, wide, i + 1, hi);
    }
  }

  /** Every part-holding container of section `k` is one of section `k + 1` too. */
  ghost predicate SharesParts(f: Containers.Forest, parent: map<nat, nat>, containers: seq<Option<nat>>, k: nat)
    requires Containers.Valid(f) && k + 1 < |containers|
  {
    forall a: nat :: Containers.HoldsParts(f, parent, containers[k], a) ==>
        Containers.HoldsParts(f, parent, containers[k + 1], a)
  }

  /** Text is conserved across every pair of neighbours whose part-holding
      containers the second shares: within a container, into a nested one, from one
      part of a chapter to the next, and from no container into any. */
  lemma SharedContainersConserve(
      body: seq<Line>, f: Containers.Forest, parent: map<nat, nat>, containers: seq<Option<nat>>,
      scopes: seq<set<string>>, pulled: seq<nat>, starts: seq<nat>)
    requires HandedOff(body, scopes, pulled, starts) && |starts| > 0
    requires Containers.Valid(f) && |containers| == |scopes|
    requires forall k :: 0 <= k < |scopes| ==> scopes[k] == Containers.InScope(f, parent, containers[k])
    requires forall k :: 0 <= k < |containers| - 1 ==> SharesParts(f, parent, containers, k)
    ensures NothingLost(body, scopes, pulled, starts)
  {
    forall k | 0 <= k < |starts| - 1
      ensures CutReading(body, scopes, pulled, starts, k) >= HandOffReading(body, scopes, pulled, starts, k)
    {
      StepFacts(body, scopes, pulled, starts, k);
      assert SharesParts(f, parent, containers, k);
      Containers.ScopeWidens(f, parent, containers[k], containers[k + 1]);
      WiderSeesEarlier(body, scopes[k], scopes[k + 1], starts[k] + 1, pulled[k + 1]);
    }
    ConservationIff(body, scopes, pulled, starts);
  }

  // ----- the builder -----------------------------------------------------------

  function PositionsOf(order: seq<Start>): (r: seq<nat>)
    ensures |r| == |order| && forall k :: 0 <= k < |r| ==> r[k] == order[k].pos
  {
    seq(|order|, k requires 0 <= k < |order| => order[k].pos)
  }

  /** The stages of `build_sections` before the cut, each from the one before it. */
  ghost predicate Built(d: Doc, f: Containers.Forest, parent: map<nat, nat>, container: seq<Option<nat>>,
                        order: seq<Start>, scopes: seq<set<string>>, pulled: seq<nat>, starts: seq<nat>)
    requires d.Valid() && Containers.Valid(f)
  {
    && Lists(order, Placed(d)) && InContentsOrder(order)
    && Containers.IsParentMap(f, |f|, parent) && |order| == |scopes|
    && (forall k :: 0 <= k < |order| ==>
          order[k].entry < |container| && scopes[k] == Containers.InScope(f, parent, container[order[k].entry]))
    && HandedOff(d.body, scopes, pulled, starts)
    && (forall k :: 0 <= k < |order| ==> PulledBack(d.body, PositionsOf(order), pulled, k))
  }

  /** `build_sections`: placement, pull-back, hand-off, cut.  `container[e]` is
      the container contents entry `e` sits in. */
  method BuildSections(d: Doc, f: Containers.Forest, container: seq<Option<nat>>)
    returns (order: seq<Start>, scopes: seq<set<string>>, pulled: seq<nat>, starts: seq<nat>, kept: seq<(nat, nat)>)
    requires d.Valid() && Containers.Valid(f) && |container| == |d.entries|
    requires forall e :: 0 <= e < |container| && container[e].Some? ==> container[e].value < |f|
    ensures exists parent :: Built(d, f, parent, container, order, scopes, pulled, starts)
    ensures |kept| == |starts|
    ensures forall k :: 0 <= k < |kept| ==> kept[k] == (starts[k], CutOf(d.body, scopes, starts, k))
  {
    hide Placed, Lists, PulledBack, CutOf, HandedOff, Containers.InScope, Containers.IsParentMap;
    order := BuildStarts(d);
    assert forall k :: 0 <= k < |order| ==> order[k] in order;
    var parent, codes := Containers.PartCodesInScope(f, container);
    scopes := seq(|order|, k requires 0 <= k < |order| => codes[order[k].entry]);
    pulled := PullBack(d.body, PositionsOf(order));
    starts := HandOff(d.body, scopes, pulled);
    kept := BuildSegments(d.body, scopes, starts);
    assert Built(d, f, parent, container, order, scopes, pulled, starts);
  }

  // ----- what the builder does not promise -------------------------------------

  function Plain(): Line {
    Line(1, false, false, None, None, None, NoHeading, false, false, false, false, false, [])
  }

  function AnchoredAt(line: nat): Entry { Entry("", 0, At(line), []) }

  function Anchors(lines: seq<nat>): seq<Entry> {
    if lines == [] then [] else Anchors(lines[..|lines| - 1]) + [AnchoredAt(lines[|lines| - 1])]
  }

  function OrderAt(lines: seq<nat>): (r: seq<Start>)
    ensures |r| == |lines| && forall k :: 0 <= k < |r| ==> r[k] == Start(lines[k], k)
  {
    seq(|lines|, k requires 0 <= k < |lines| => Start(lines[k], k))
  }

  lemma {:induction false} AnchorsAre(lines: seq<nat>, k: nat)
    requires k < |lines|
    ensures |Anchors(lines)| == |lines| && Anchors(lines)[k] == AnchoredAt(lines[k])
  {
    if |lines| > 1 {
      AnchorsAre(lines[..|lines| - 1], if k < |lines| - 1 then k else 0);
    }
  }

  lemma {:induction false} AnchorsPlace(d: Doc, lines: seq<nat>, n: nat)
    requires Increasing(lines, |d.body|) && d.entries == Anchors(lines) && |Anchors(lines)| == |lines| && n <= |lines|
    requires d.Valid()
    ensures PrimaryPass(d, n).last == if n == 0 then -1 else lines[n - 1]
    ensures forall k: nat :: k in PrimaryPass(d, n).matched <==> k < n
    ensures forall k: nat :: k < n ==> PrimaryPass(d, n).matched[k] == lines[k]
  {
    hide Anchored, Anchors, LastFive;
    if n > 0 {
      AnchorsPlace(d, lines, n - 1);
      AnchorsAre(lines, n - 1);
      var c := PrimaryPass(d, n - 1);
      AnchorIsTaken(d, n - 1, c.last, c.window, lines[n - 1]);
    }
  }

  lemma AnchorIsTaken(d: Doc, k: nat, last: int, window: seq<int>, line: nat)
    requires d.Valid() && k < |d.entries| && d.entries[k] == AnchoredAt(line) && last < line < |d.body|
    ensures Anchored(d, k, last, window) == Some(line)
  {
  }

  lemma {:induction false} NothingToFill(d: Doc, m: Matched, n: nat)
    requires n <= |d.entries| && forall k: nat :: k < |d.entries| ==> k in m
    ensures GapFill(d, m, n) == m && TitleFill(d, m, n) == m
  {
    hide GapChoice, TitleChoice;
    if n > 0 {
      NothingToFill(d, m, n - 1);
    }
  }

  /** A body whose every entry is anchored is placed at its anchors. */
  lemma AnchorsAreListed(d: Doc, lines: seq<nat>)
    requires Increasing(lines, |d.body|) && d.entries == Anchors(lines) && d.Valid()
    ensures Lists(OrderAt(lines), Placed(d)) && InContentsOrder(OrderAt(lines)) && PositionsOf(OrderAt(lines)) == lines
  {
    AnchorsLength(lines);
    AnchorsPlace(d, lines, |lines|);
    NothingToFill(d, PrimaryPass(d, |lines|).matched, |lines|);
  }

  lemma {:induction false} AnchorsLength(lines: seq<nat>)
    ensures |Anchors(lines)| == |lines|
  {
    if lines != [] {
      AnchorsLength(lines[..|lines| - 1]);
    }
  }

  /** Where no bracket prefix stands above any start, the pull-back moves nothing. */
  lemma NothingPulled(body: seq<Line>, lines: seq<nat>)
    requires Increasing(lines, |body|) && forall i :: 0 <= i < |body| ==> !body[i].bracketPrefix && !body[i].blank
    ensures forall k :: 0 <= k < |lines| ==> PulledBack(body, lines, lines, k)
  {
  }

  /** An anchored body without bracket prefixes: what its run comes to. */
  lemma BuiltAtAnchors(d: Doc, f: Containers.Forest, parent: map<nat, nat>, container: seq<Option<nat>>,
                       lines: seq<nat>,
                       scopes: seq<set<string>>, starts: seq<nat>)
    requires d.Valid() && d.entries == Anchors(lines) && Increasing(lines, |d.body|)
    requires forall i :: 0 <= i < |d.body| ==> !d.body[i].bracketPrefix && !d.body[i].blank
    requires Containers.Valid(f) && Containers.IsParentMap(f, |f|, parent) && |scopes| == |container| == |lines|
    requires forall k :: 0 <= k < |lines| ==> scopes[k] == Containers.InScope(f, parent, container[k])
    requires HandedOff(d.body, scopes, lines, starts)
    ensures Built(d, f, parent, container, OrderAt(lines), scopes, lines, starts)
  {
    hide PulledBack, Lists, InContentsOrder, Placed;
    hide HandedOff, Containers.InScope, Containers.IsParentMap, Anchors, Containers.Valid;
    AnchorsAreListed(d, lines);
    NothingPulled(d.body, lines);
  }

  /** CHAPTER I holding PART I, and CHAPTER II without parts. */
  function TwoChapters(): Containers.Forest {
    [Containers.Node("CHAPTER I", [1], []), Containers.Node("PART I", [], []), Containers.Node("CHAPTER II", [], [])]
  }

  /** The first section sits in CHAPTER I and prints a form's "PART-I" line with a line
      of form under it; the second sits in CHAPTER II. */
  function FormBody(): Doc {
    Doc([Plain(), Plain().(heading := Guarded("PART I")), Plain(), Plain()], Anchors([0, 3]), map[], 0)
  }

  lemma TwoChaptersCodes()
    ensures Containers.Valid(TwoChapters()) && Containers.IsParentMap(TwoChapters(), 3, map[1 := 0])
    ensures forall n: nat :: n < 3 ==> Containers.PartCodes(TwoChapters(), n) == if n == 0 then {"PART I"} else {}
  {
    var f := TwoChapters();
    assert Containers.Kids(f, 0) == [1] && Containers.Kids(f, 1) == [] && Containers.Kids(f, 2) == [];
    assert f[1].code == "PART I" && 1 in f[0].parts;
  }

  lemma TwoChaptersScopes()
    ensures Containers.Valid(TwoChapters())
    ensures Containers.InScope(TwoChapters(), map[1 := 0], Some(0)) == {"PART I"}
    ensures Containers.InScope(TwoChapters(), map[1 := 0], Some(2)) == {}
  {
    hide TwoChapters, Containers.PartCodes, Containers.InScope, Containers.Valid;
    var f, parent := TwoChapters(), map[1 := 0];
    TwoChaptersCodes();
    assert |f| == 3 by { ThreeNodes(); }
    assert Containers.Up(parent, 0, 0) == Some(0);
    forall x: nat, y: nat | x in {0, 2} && Containers.Reaches(parent, x, y)
      ensures y == x
    {
      Containers.RootReachesItself(parent, x, y);
    }
    assert Containers.Reaches(parent, 0, 0) && "PART I" in Containers.PartCodes(f, 0);
    assert Containers.VouchedBy(f, parent, 0, "PART I");
  }

  lemma ThreeNodes()
    ensures |TwoChapters()| == 3
  {
  }

  lemma FormHandedOff()
    ensures HandedOff(FormBody().body, [{"PART I"}, {}], [0, 3], [0, 3])
  {
    assert FirstBoundary(FormBody().body, {}, 2, 3) == 3;
    assert FirstBoundary(FormBody().body, {}, 1, 3) == 3;
  }

  /** Text can be lost: on this body the first section's cut sees the form's heading, the
      hand-off to the second does not, and the line under it reaches no section. */
  lemma LeavingAChapterWithPartsCanLoseText()
    ensures FormBody().Valid() && Containers.Valid(TwoChapters())
    ensures Built(FormBody(), TwoChapters(), map[1 := 0], [Some(0), Some(2)], OrderAt([0, 3]), [{"PART I"}, {}],
        [0, 3], [0, 3])
    ensures !Reached(FormBody().body, [{"PART I"}, {}], [0, 3], [0, 3], 2)
  {
    FormIsBuilt();
    FormHandedOff();
    FormLineIsLost();
  }

  lemma FormLineIsLost()
    requires HandedOff(FormBody().body, [{"PART I"}, {}], [0, 3], [0, 3])
    ensures !Reached(FormBody().body, [{"PART I"}, {}], [0, 3], [0, 3], 2)
  {
    var body := FormBody().body;
    assert FirstBoundary(body, {}, 2, 3) == 3;
    assert FirstBoundary(body, {}, 1, 3) == 3;
    assert FirstBoundary(body, {"PART I"}, 1, 3) == 1;
    assert |body| == 4;
    hide HandedOff, FormBody, PastFurniture, FirstBoundary;
  }

  lemma FormFacts()
    ensures var d := FormBody();
            && d.Valid() && d.entries == Anchors([0, 3]) && |d.body| == 4
            && forall i :: 0 <= i < 4 ==> !d.body[i].bracketPrefix && !d.body[i].blank
  {
    AnchorsOfTwo(0, 3);
    hide Anchors;
  }

  lemma FormIsBuilt()
    ensures FormBody().Valid() && Containers.Valid(TwoChapters())
    ensures Built(FormBody(), TwoChapters(), map[1 := 0], [Some(0), Some(2)], OrderAt([0, 3]), [{"PART I"}, {}],
        [0, 3], [0, 3])
  {
    FormFacts();
    TwoChaptersCodes();
    hide FormBody, Built, HandedOff, Containers.InScope, Containers.IsParentMap, Anchors, Containers.Valid;
    assert |TwoChapters()| == 3;
    hide TwoChapters;
    TwoChaptersScopes();
    FormHandedOff();
    BuiltAtAnchors(FormBody(), TwoChapters(), map[1 := 0], [Some(0), Some(2)], [0, 3], [{"PART I"}, {}], [0, 3]);
  }

  lemma AnchorsOfTwo(a: nat, b: nat)
    ensures Anchors([a, b]) == [AnchoredAt(a), AnchoredAt(b)]
  {
    assert [a, b][..1] == [a] && [a][..0] == [];
    assert Anchors([a]) == [AnchoredAt(a)];
  }

  lemma AnchorsOfThree(a: nat, b: nat, c: nat)
    ensures Anchors([a, b, c]) == [AnchoredAt(a), AnchoredAt(b), AnchoredAt(c)]
  {
    AnchorsOfTwo(a, b);
    assert [a, b, c][..2] == [a, b];
  }

  /** Two chapter headings stand between the first section and the second. */
  function TwoHeadings(): Doc {
    var chapter := Plain().(heading := Accepted);
    Doc([Plain(), chapter, Plain(), chapter, Plain(), Plain()], Anchors([0, 4, 5]), map[], 0)
  }

  lemma TwoHeadingsHandedOff()
    ensures HandedOff(TwoHeadings().body, [{}, {}, {}], [0, 4, 5], [0, 2, 4])
  {
    var body := TwoHeadings().body;
    assert FirstBoundary(body, {}, 1, 4) == 1;
    assert PastFurniture(body, {}, 2, 4, 2) == 2;
    assert FirstBoundary(body, {}, 3, 5) == 3;
    assert PastFurniture(body, {}, 4, 5, 2) == 4;
  }

  lemma NoContainerNoScope()
    ensures Containers.Valid([]) && Containers.InScope([], map[], None) == {}
  {
  }

  lemma TwoHeadingsIsBuilt()
    ensures TwoHeadings().Valid() && Containers.Valid([])
    ensures Built(TwoHeadings(), [], map[], [None, None, None], OrderAt([0, 4, 5]), [{}, {}, {}], [0, 4, 5], [0, 2, 4])
  {
    assert Containers.IsParentMap([], 0, map[]);
    NoContainerNoScope();
    hide TwoHeadings, Built, HandedOff, Containers.IsParentMap, Anchors, Containers.InScope;
    TwoHeadingsFacts();
    TwoHeadingsHandedOff();
    BuiltAtAnchors(TwoHeadings(), [], map[], [None, None, None], [0, 4, 5], [{}, {}, {}], [0, 2, 4]);
  }

  lemma TwoHeadingsFacts()
    ensures var d := TwoHeadings();
            && d.Valid() && d.entries == Anchors([0, 4, 5]) && |d.body| == 6
            && forall i :: 0 <= i < 6 ==> !d.body[i].bracketPrefix && !d.body[i].blank
  {
    AnchorsOfThree(0, 4, 5);
    hide Anchors;
  }

  /** Conservation is not ownership: on this body the second section is handed the text
      behind the first heading, is cut at the second, and its own heading line passes to
      the third section. */
  lemma OwnHeadingCanPassOn()
    ensures TwoHeadings().Valid() && Containers.Valid([])
    ensures Built(TwoHeadings(), [], map[], [None, None, None], OrderAt([0, 4, 5]), [{}, {}, {}], [0, 4, 5], [0, 2, 4])
    ensures KeptBy(TwoHeadings().body, [{}, {}, {}], [0, 2, 4], 2, 4)
    ensures !KeptBy(TwoHeadings().body, [{}, {}, {}], [0, 2, 4], 1, 4)
  {
    TwoHeadingsIsBuilt();
    hide Built, FirstBoundary, PulledBack;
    assert |TwoHeadings().body| == 6;
  }
}

/** Where sections start in the body. */
module Placement {
  import opened Common

  // A body line is what the text recognisers say about it; an entry is a row of the
  // table of contents.  `matched` maps an entry's index to the index of its first
  // body line.

  /** A whole-line CHAPTER/PART/Division heading.  `Guarded` is the PART form
      that counts only where its code is among the enclosing container's parts. */
  datatype Heading = NoHeading | Accepted | Guarded(code: string)

  datatype Line = Line(
    page: int,
    blank: bool,
    isTable: bool,
    dotCode: Option<string>,      // section code the line opens with
    dotlessCode: Option<string>,  // section code printed without its dot
    splitCode: Option<string>,    // code whose bracket closed on the line above
    heading: Heading,
    subChapter: bool,             // a SUB-CHAPTER caption
    held: bool,                   // text a container already holds as code or title
    bracketPrefix: bool,          // brackets only, every marker an anonymous note
    headingDash: bool,
    bold: bool,
    stems: seq<string>)

  predicate IsBoundary(line: Line, codes: set<string>) {
    match line.heading
    case NoHeading => false
    case Accepted => true
    case Guarded(code) => code in codes
  }

  /** How a contents row names its heading line: not at all, by a line of the
      body, or by a line the body no longer holds. */
  datatype Anchor = NoAnchor | At(line: nat) | Lost

  datatype Entry = Entry(
    code: string,
    printedPage: int,
    anchor: Anchor,
    stems: seq<string>)

  datatype Doc = Doc(body: seq<Line>, entries: seq<Entry>, pageOfPrinted: map<int, int>, pageOffset: int)
  {
    ghost predicate Valid() {
      forall e :: e in entries && e.anchor.At? ==> e.anchor.line < |body|
    }

    function Expected(e: Entry): int {
      if e.printedPage in pageOfPrinted then pageOfPrinted[e.printedPage]
      else e.printedPage + pageOffset
    }
  }

  type Matched = map<nat, nat>

  // ----- the code index ------------------------------------------------------

  /** The code line `i` opens and the line its section would start on. */
  function Opening(body: seq<Line>, i: nat): (r: Option<(string, nat)>)
    requires i < |body|
    ensures r.Some? ==> r.value.1 == i || r.value.1 + 1 == i
  {
    var own := if body[i].dotCode.Some? then body[i].dotCode else body[i].dotlessCode;
    if own.Some? then Some((own.value, i))
    else if i > 0 && body[i - 1].page == body[i].page && body[i].splitCode.Some? then
      Some((body[i].splitCode.value, i - 1))
    else None
  }

  function PositionsUpTo(body: seq<Line>, code: string, n: nat): (r: seq<nat>)
    requires n <= |body|
    ensures forall p :: p in r ==> p < |body|
  {
    if n == 0 then []
    else
      var rest := PositionsUpTo(body, code, n - 1);
      var o := Opening(body, n - 1);
      if o.Some? && o.value.0 == code then rest + [o.value.1] else rest
  }

  function Positions(body: seq<Line>, code: string): (r: seq<nat>)
    ensures forall p :: p in r ==> p < |body|
  {
    PositionsUpTo(body, code, |body|)
  }

  function Lookup(index: map<string, seq<nat>>, code: string): seq<nat> {
    if code in index then index[code] else []
  }

  method IndexCodes(body: seq<Line>) returns (index: map<string, seq<nat>>)
    ensures forall code :: Lookup(index, code) == Positions(body, code)
  {
    index := map[];
    for i := 0 to |body|
      invariant forall code :: Lookup(index, code) == PositionsUpTo(body, code, i)
    {
      var o := Opening(body, i);
      if o.Some? {
        var (code, start) := o.value;
        index := index[code := Lookup(index, code) + [start]];
      }
    }
  }

  // ----- choosing one candidate ----------------------------------------------

  function Distance(d: Doc, expected: int, p: nat): nat
    requires p < |d.body|
  {
    Abs(d.body[p].page - expected)
  }

  predicate Closer(d: Doc, expected: int, p: nat, q: nat)
    requires p < |d.body| && q < |d.body|
  {
    || Distance(d, expected, p) < Distance(d, expected, q)
    || (Distance(d, expected, p) == Distance(d, expected, q) && p < q)
  }

  ghost predicate IsClosest(d: Doc, expected: int, candidates: seq<nat>, p: nat)
    requires forall q :: q in candidates ==> q < |d.body|
  {
    p in candidates && forall q :: q in candidates ==> !Closer(d, expected, q, p)
  }

  /** `min` by page distance, then document order. */
  function Closest(d: Doc, expected: int, candidates: seq<nat>): (r: Option<nat>)
    requires forall q :: q in candidates ==> q < |d.body|
    ensures r.None? <==> candidates == []
    ensures r.Some? ==> IsClosest(d, expected, candidates, r.value)
  {
    if candidates == [] then None
    else
      var front, last := candidates[..|candidates| - 1], candidates[|candidates| - 1];
      FrontAndLast(candidates);
      assert forall q :: q in front ==> q in candidates;
      assert last in candidates;
      var best := Closest(d, expected, front);
      if best.Some? && !Closer(d, expected, last, best.value) then best else Some(last)
  }

  function Within(d: Doc, expected: int, candidates: seq<nat>, tol: nat): seq<nat>
    requires forall q :: q in candidates ==> q < |d.body|
  {
    Filter(candidates, (p: nat) => p < |d.body| && Distance(d, expected, p) <= tol)
  }

  /** The ladder of tolerances 2, 4, 8.  However it climbs, it answers with the
      closest candidate of all, provided that one lies within 8 pages. */
  function Ladder(d: Doc, expected: int, candidates: seq<nat>): (r: Option<nat>)
    requires forall q :: q in candidates ==> q < |d.body|
    ensures r.None? <==> forall q :: q in candidates ==> Distance(d, expected, q) > 8
    ensures r.Some? ==> IsClosest(d, expected, candidates, r.value) && Distance(d, expected, r.value) <= 8
  {
    var near2 := Within(d, expected, candidates, 2);
    if near2 != [] then Closest(d, expected, near2)
    else
      var near4 := Within(d, expected, candidates, 4);
      if near4 != [] then Closest(d, expected, near4)
      else
        var near8 := Within(d, expected, candidates, 8);
        assert near8 == [] ==> forall q :: q in candidates ==> q !in near8;
        if near8 != [] then Closest(d, expected, near8) else None
  }

  // ----- pass 1: page anchor with a drift window -----------------------------

  /** `int(median(window))` once three placements are known. */
  function Drift(window: seq<int>): int {
    if |window| < 3 then 0
    else
      var s := SortInts(window);
      if |s| % 2 == 1 then s[|s| / 2]
      else
        var twice := s[|s| / 2 - 1] + s[|s| / 2];
        if twice >= 0 then twice / 2 else -((-twice) / 2)
  }

  function NextPaged(d: Doc, k: nat): (r: Option<Entry>)
    decreases |d.entries| - k
  {
    if k >= |d.entries| then None
    else if d.entries[k].printedPage != 0 then Some(d.entries[k])
    else NextPaged(d, k + 1)
  }

  function Viable(d: Doc, positions: seq<nat>, next: Option<Entry>): (r: seq<nat>)
    ensures forall p :: p in r ==> p in positions
    ensures r == [] <==> positions == []
  {
    if next.None? || |positions| <= 1 then positions
    else
      var after := Positions(d.body, next.value.code);
      var viable := Filter(positions, (p: nat) => exists q | q in after :: q > p);
      if viable != [] then viable else positions
  }

  /** The page lies more than 8 pages past where the next paged entry is expected. */
  predicate Overshoots(d: Doc, k: nat, drift: int, page: int) {
    var next := NextPaged(d, k + 1);
    next.Some? && page > d.Expected(next.value) + drift + 8
  }

  /** A later entry with the same code expects its heading nearer to the page. */
  predicate TwinIsNearer(d: Doc, k: nat, drift: int, page: int)
    requires k < |d.entries|
  {
    exists k2 | k < k2 < |d.entries| ::
      && d.entries[k2].code == d.entries[k].code
      && Abs(page - d.Expected(d.entries[k2]) - drift) < Abs(page - d.Expected(d.entries[k]) - drift)
  }

  /** Lines behind the cursor that open with the entry's code and leave a line for the
      next entry's, where any does. */
  function Openings(d: Doc, k: nat, last: int): (r: seq<nat>)
    requires k < |d.entries|
    ensures forall p :: p in r ==> p in Positions(d.body, d.entries[k].code) && p > last
  {
    Viable(d, Filter(Positions(d.body, d.entries[k].code), (p: nat) => p > last), NextPaged(d, k + 1))
  }

  /** The line pass 1 gives entry `k`, the cursor standing at `last`. */
  function Anchored(d: Doc, k: nat, last: int, window: seq<int>): (r: Option<nat>)
    requires d.Valid() && k < |d.entries|
    ensures r.Some? ==> last < r.value < |d.body|
    ensures r.Some? ==>
              var e := d.entries[k];
              || e.anchor == At(r.value)
              || (e.anchor.NoAnchor? && r.value in Positions(d.body, e.code)
                  && Distance(d, d.Expected(e) + Drift(window), r.value) <= 8)
  {
    match d.entries[k].anchor
    case At(p) => if p > last then Some(p) else None
    case Lost => None
    case NoAnchor =>
      var drift := Drift(window);
      var chosen := Ladder(d, d.Expected(d.entries[k]) + drift, Openings(d, k, last));
      if chosen.None? then None
      else if Overshoots(d, k, drift, d.body[chosen.value].page)
          || TwinIsNearer(d, k, drift, d.body[chosen.value].page) then None
      else chosen
  }

  /** The line is what the guards of pass 1 ask for. */
  ghost predicate Suits(d: Doc, k: nat, last: int, drift: int, p: nat)
    requires k < |d.entries|
  {
    && IsClosest(d, d.Expected(d.entries[k]) + drift, Openings(d, k, last), p)
    && Distance(d, d.Expected(d.entries[k]) + drift, p) <= 8
    && !Overshoots(d, k, drift, d.body[p].page) && !TwinIsNearer(d, k, drift, d.body[p].page)
  }

  lemma OneClosest(d: Doc, expected: int, candidates: seq<nat>, p: nat, q: nat)
    requires forall x :: x in candidates ==> x < |d.body|
    requires IsClosest(d, expected, candidates, p) && IsClosest(d, expected, candidates, q)
    ensures p == q
  {
    hide Distance;
    assert !Closer(d, expected, q, p) && !Closer(d, expected, p, q);
  }

  /** Pass 1 gives an entry without an anchor the closest of its openings, in document
      order on ties, if it lies within 8 pages of the drifted page, does not overshoot
      the next entry and has no nearer twin. */
  lemma SuitsExactly(d: Doc, k: nat, last: int, window: seq<int>, p: nat)
    requires d.Valid() && k < |d.entries| && d.entries[k].anchor.NoAnchor?
    ensures Anchored(d, k, last, window) == Some(p) <==> p < |d.body| && Suits(d, k, last, Drift(window), p)
  {
    hide Distance, Overshoots, TwinIsNearer, IsClosest, Drift, Openings, Positions;
    var e, drift := d.Expected(d.entries[k]) + Drift(window), Drift(window);
    var chosen := Ladder(d, e, Openings(d, k, last));
    hide Ladder;
    if p < |d.body| && Suits(d, k, last, drift, p) {
      ClosestIsCandidate(d, e, Openings(d, k, last), p);
      OneClosest(d, e, Openings(d, k, last), p, chosen.value);
    }
  }

  lemma ClosestIsCandidate(d: Doc, expected: int, candidates: seq<nat>, p: nat)
    requires (forall x :: x in candidates ==> x < |d.body|) && IsClosest(d, expected, candidates, p)
    ensures p in candidates
  {
  }

  datatype Cursor = Cursor(matched: Matched, last: int, window: seq<int>)

  function LastFive(window: seq<int>): seq<int> {
    if |window| <= 5 then window else window[|window| - 5..]
  }

  function PrimaryPass(d: Doc, n: nat): (c: Cursor)
    requires d.Valid() && n <= |d.entries|
  {
    if n == 0 then Cursor(map[], -1, [])
    else
      var c := PrimaryPass(d, n - 1);
      var r := Anchored(d, n - 1, c.last, c.window);
      if r.None? then c
      else
        var e := d.entries[n - 1];
        var window := if e.anchor.NoAnchor?
                      then LastFive(c.window + [d.body[r.value].page - d.Expected(e)])
                      else c.window;
        Cursor(c.matched[n - 1 := r.value], r.value, window)
  }

  // ----- the gap between placed neighbours -----------------------------------

  function Below(m: Matched, k: nat): int
  {
    if k == 0 then -1 else if k - 1 in m then m[k - 1] else Below(m, k - 1)
  }

  function Above(d: Doc, m: Matched, k: nat): int
    decreases |d.entries| - k
  {
    if k + 1 >= |d.entries| then |d.body|
    else if k + 1 in m then m[k + 1]
    else Above(d, m, k + 1)
  }

  /** Placed entries stand in the body in contents order. */
  ghost predicate InOrder(d: Doc, m: Matched) {
    && (forall k :: k in m ==> k < |d.entries| && m[k] < |d.body|)
    && (forall j, k :: j in m && k in m && j < k ==> m[j] < m[k])
  }

  lemma BelowBounds(d: Doc, m: Matched, k: nat)
    requires InOrder(d, m)
    ensures forall j :: j in m && j < k ==> m[j] <= Below(m, k)
    ensures -1 <= Below(m, k) < |d.body|
    ensures Below(m, k) >= 0 ==> exists j :: j in m && j < k && m[j] == Below(m, k)
  {}

  lemma AboveBounds(d: Doc, m: Matched, k: nat)
    requires InOrder(d, m)
    ensures forall j :: j in m && k < j ==> Above(d, m, k) <= m[j]
    ensures 0 <= Above(d, m, k) <= |d.body|
    ensures Above(d, m, k) < |d.body| ==> exists j :: j in m && k < j && m[j] == Above(d, m, k)
    decreases |d.entries| - k
  {}

  /** A line strictly between the placed neighbours can be given to `k`. */
  lemma GapKeepsOrder(d: Doc, m: Matched, k: nat, p: nat)
    requires InOrder(d, m) && k !in m && k < |d.entries|
    requires Below(m, k) < p < Above(d, m, k)
    ensures InOrder(d, m[k := p])
    ensures p !in m.Values
  {
    BelowBounds(d, m, k);
    AboveBounds(d, m, k);
  }

  // ----- pass 2: gap fill ------------------------------------------------------

  function GapCandidates(d: Doc, m: Matched, k: nat): (r: seq<nat>)
    requires k < |d.entries|
    ensures forall p :: p in r <==> p in Positions(d.body, d.entries[k].code)
                                    && Below(m, k) < p < Above(d, m, k) && p !in m.Values
  {
    Filter(Positions(d.body, d.entries[k].code),
           (p: nat) => Below(m, k) < p < Above(d, m, k) && p !in m.Values)
  }

  function GapChoice(d: Doc, m: Matched, k: nat): (r: Option<nat>)
    requires k < |d.entries|
    ensures r.None? ==> GapCandidates(d, m, k) == []
    ensures r.Some? ==> Below(m, k) < r.value < Above(d, m, k) && r.value in Positions(d.body, d.entries[k].code)
  {
    Closest(d, d.Expected(d.entries[k]), GapCandidates(d, m, k))
  }

  function GapFill(d: Doc, m: Matched, n: nat): (r: Matched)
    requires n <= |d.entries|
  {
    if n == 0 then m
    else
      var m' := GapFill(d, m, n - 1);
      if n - 1 in m' || GapChoice(d, m', n - 1).None? then m'
      else m'[n - 1 := GapChoice(d, m', n - 1).value]
  }

  // ----- pass 3: title match ---------------------------------------------------

  function Mismatches(want: seq<string>, got: seq<string>, n: nat): nat
    requires n <= |want| && n <= |got|
  {
    if n == 0 then 0
    else Mismatches(want, got, n - 1) + (if want[n - 1] != got[n - 1] then 1 else 0)
  }

  predicate TitlePrefixMatches(want: seq<string>, got: seq<string>) {
    var n := Min(Min(|want|, |got|), 6);
    n >= 4 && Mismatches(want, got, n) <= 1
  }

  predicate TitleLine(d: Doc, k: nat, p: nat)
    requires k < |d.entries| && p < |d.body|
  {
    var line := d.body[p];
    && !line.isTable && line.headingDash
    && line.dotCode.None? && line.dotlessCode.None?
    && line.bold
    && TitlePrefixMatches(d.entries[k].stems, line.stems)
  }

  /** `bisect_left`: the first index in [lo, hi) whose page is not below `x`. */
  function BisectLeft(pages: seq<int>, x: int, lo: nat, hi: nat): (r: nat)
    requires lo <= hi <= |pages|
    ensures lo <= r <= hi
    decreases hi - lo
  {
    if lo == hi then lo
    else
      var mid := (lo + hi) / 2;
      if pages[mid] < x then BisectLeft(pages, x, mid + 1, hi) else BisectLeft(pages, x, lo, mid)
  }

  lemma InAscent(pages: seq<int>, i: nat, j: nat)
    requires Ascending(pages) && i <= j < |pages|
    ensures pages[i] <= pages[j]
  {
  }

  lemma {:induction false} BisectLeftFinds(pages: seq<int>, x: int, lo: nat, hi: nat)
    requires lo <= hi <= |pages|
    requires Ascending(pages)
    ensures var r := BisectLeft(pages, x, lo, hi);
            && (forall i :: lo <= i < r ==> pages[i] < x)
            && (forall i :: r <= i < hi ==> pages[i] >= x)
    decreases hi - lo
  {
    hide Ascending;
    if lo < hi {
      var mid := (lo + hi) / 2;
      if pages[mid] < x {
        BisectLeftFinds(pages, x, mid + 1, hi);
        forall i | lo <= i <= mid
          ensures pages[i] < x
        {
          InAscent(pages, i, mid);
        }
      } else {
        BisectLeftFinds(pages, x, lo, mid);
        forall i | mid <= i < hi
          ensures pages[i] >= x
        {
          InAscent(pages, mid, i);
        }
      }
    }
  }

  function Pages(body: seq<Line>): (r: seq<int>)
    ensures |r| == |body| && forall i :: 0 <= i < |r| ==> r[i] == body[i].page
  {
    seq(|body|, i requires 0 <= i < |body| => body[i].page)
  }

  /** Whole pages, so `bisect_right(c + 2)` is `bisect_left(c + 3)`. */
  function PageWindow(body: seq<Line>, centre: int): (r: (nat, nat))
    ensures r.0 <= |body| && r.1 <= |body|
  {
    var pages := Pages(body);
    (BisectLeft(pages, centre - 2, 0, |pages|), BisectLeft(pages, centre + 3, 0, |pages|))
  }

  /** On a body in page order the bisected window is exactly the page filter
      it replaced. */
  lemma PageWindowIsPageFilter(body: seq<Line>, centre: int, p: nat)
    requires p < |body| && Ascending(Pages(body))
    ensures var (lo, hi) := PageWindow(body, centre);
            lo <= p < hi <==> Abs(body[p].page - centre) <= 2
  {
    var pages := Pages(body);
    BisectLeftFinds(pages, centre - 2, 0, |pages|);
    BisectLeftFinds(pages, centre + 3, 0, |pages|);
    assert pages[p] == body[p].page;
  }

  function TitleCandidates(d: Doc, m: Matched, k: nat): (r: seq<nat>)
    requires k < |d.entries|
    ensures forall p :: p in r ==> p < |d.body| && Below(m, k) < p < Above(d, m, k)
                                   && p !in m.Values && TitleLine(d, k, p)
  {
    var (wlo, whi) := PageWindow(d.body, d.Expected(d.entries[k]));
    Filter(Range(Max(Max(Below(m, k) + 1, wlo), 0), Max(Min(Min(Above(d, m, k), whi), |d.body|), 0)),
           (p: nat) => p < |d.body| && p !in m.Values && TitleLine(d, k, p))
  }

  function TitleChoice(d: Doc, m: Matched, k: nat): (r: Option<nat>)
    requires k < |d.entries|
    ensures r.Some? ==>
              && r.value < |d.body| && Below(m, k) < r.value < Above(d, m, k)
              && Positions(d.body, d.entries[k].code) == [] && TitleLine(d, k, r.value)
  {
    if Positions(d.body, d.entries[k].code) != [] || |d.entries[k].stems| < 3 then None
    else Closest(d, d.Expected(d.entries[k]), TitleCandidates(d, m, k))
  }

  function TitleFill(d: Doc, m: Matched, n: nat): (r: Matched)
    requires n <= |d.entries|
  {
    if n == 0 then m
    else
      var m' := TitleFill(d, m, n - 1);
      if n - 1 in m' || TitleChoice(d, m', n - 1).None? then m'
      else m'[n - 1 := TitleChoice(d, m', n - 1).value]
  }

  /** The outcome of the three passes. */
  function Placed(d: Doc): Matched
    requires d.Valid()
  {
    var n := |d.entries|;
    TitleFill(d, GapFill(d, PrimaryPass(d, n).matched, n), n)
  }

  // ----- what the passes keep --------------------------------------------------

  ghost predicate Extends(m: Matched, m': Matched) {
    forall k :: k in m ==> k in m' && m'[k] == m[k]
  }

  lemma {:induction false} PrimaryInOrder(d: Doc, n: nat)
    requires d.Valid() && n <= |d.entries|
    ensures var c := PrimaryPass(d, n);
            && InOrder(d, c.matched)
            && -1 <= c.last
            && (forall k :: k in c.matched ==> k < n && c.matched[k] <= c.last)
  {
    hide Anchored, Positions, Drift;
    if n > 0 {
      PrimaryInOrder(d, n - 1);
    }
  }

  lemma {:induction false} GapFillInOrder(d: Doc, m: Matched, n: nat)
    requires InOrder(d, m) && n <= |d.entries|
    ensures InOrder(d, GapFill(d, m, n)) && Extends(m, GapFill(d, m, n))
  {
    hide GapChoice, Below, Above;
    if n > 0 {
      GapFillInOrder(d, m, n - 1);
      var m' := GapFill(d, m, n - 1);
      if n - 1 !in m' && GapChoice(d, m', n - 1).Some? {
        GapKeepsOrder(d, m', n - 1, GapChoice(d, m', n - 1).value);
      }
    }
  }

  lemma {:induction false} TitleFillInOrder(d: Doc, m: Matched, n: nat)
    requires InOrder(d, m) && n <= |d.entries|
    ensures InOrder(d, TitleFill(d, m, n)) && Extends(m, TitleFill(d, m, n))
  {
    hide TitleChoice, Below, Above;
    if n > 0 {
      TitleFillInOrder(d, m, n - 1);
      var m' := TitleFill(d, m, n - 1);
      if n - 1 !in m' && TitleChoice(d, m', n - 1).Some? {
        GapKeepsOrder(d, m', n - 1, TitleChoice(d, m', n - 1).value);
      }
    }
  }

  /** Whatever mixture of anchors, page matches, gap fills and title matches
      placed them, the sections stand strictly in contents order, and no pass
      moves a section an earlier pass placed. */
  lemma PlacedInOrder(d: Doc)
    requires d.Valid()
    ensures InOrder(d, Placed(d))
    ensures Extends(PrimaryPass(d, |d.entries|).matched, Placed(d))
  {
    var n := |d.entries|;
    PrimaryInOrder(d, n);
    GapFillInOrder(d, PrimaryPass(d, n).matched, n);
    TitleFillInOrder(d, GapFill(d, PrimaryPass(d, n).matched, n), n);
  }

  /** A neighbour gap only narrows as more entries are placed. */
  lemma GapNarrows(d: Doc, m: Matched, m': Matched, k: nat)
    requires InOrder(d, m) && InOrder(d, m') && Extends(m, m')
    ensures Below(m, k) <= Below(m', k)
    ensures Above(d, m', k) <= Above(d, m, k)
  {
    BelowBounds(d, m, k);
    BelowBounds(d, m', k);
    AboveBounds(d, m, k);
    AboveBounds(d, m', k);
  }

  /** Gap fill is complete: an entry it leaves unplaced has no line opening with
      its code anywhere between its neighbours as the pass leaves them. */
  lemma {:induction false} GapFillComplete(d: Doc, m: Matched, n: nat, k: nat, p: nat)
    requires InOrder(d, m) && k < n <= |d.entries|
    requires k !in GapFill(d, m, n)
    requires p in Positions(d.body, d.entries[k].code)
    ensures !(Below(GapFill(d, m, n), k) < p < Above(d, GapFill(d, m, n), k))
  {
    hide Below, Above, GapChoice, InOrder;
    var before, after := GapFill(d, m, n - 1), GapFill(d, m, n);
    GapFillInOrder(d, m, n - 1);
    GapFillInOrder(d, m, n);
    if k < n - 1 {
      assert Extends(before, after);
      GapNarrows(d, before, after, k);
      GapFillComplete(d, m, n - 1, k, p);
    } else {
      assert after == before;
      NoCandidateNoLine(d, before, k, p);
    }
  }

  /** An entry no pass places has no line opening with its code anywhere between the
      neighbours it ends up with. */
  lemma PlacedComplete(d: Doc, k: nat, p: nat)
    requires d.Valid() && k < |d.entries| && k !in Placed(d) && p in Positions(d.body, d.entries[k].code)
    ensures !(Below(Placed(d), k) < p < Above(d, Placed(d), k))
  {
    hide Below, Above, PrimaryPass, GapFill, TitleFill, InOrder, Positions;
    var n := |d.entries|;
    var m := PrimaryPass(d, n).matched;
    var filled := GapFill(d, m, n);
    PrimaryInOrder(d, n);
    GapFillInOrder(d, m, n);
    TitleFillInOrder(d, filled, n);
    GapNarrows(d, filled, Placed(d), k);
    GapFillComplete(d, m, n, k, p);
  }

  lemma NoCandidateNoLine(d: Doc, m: Matched, k: nat, p: nat)
    requires InOrder(d, m) && k < |d.entries| && k !in m
    requires GapChoice(d, m, k).None?
    requires p in Positions(d.body, d.entries[k].code)
    ensures !(Below(m, k) < p < Above(d, m, k))
  {
    hide Below, Above, GapChoice;
    BelowBounds(d, m, k);
    AboveBounds(d, m, k);
    assert p !in GapCandidates(d, m, k);
  }

  ghost predicate Justified(d: Doc, k: nat, p: nat)
    requires k < |d.entries|
  {
    || d.entries[k].anchor == At(p)
    || p in Positions(d.body, d.entries[k].code)
    || (Positions(d.body, d.entries[k].code) == [] && p < |d.body| && TitleLine(d, k, p))
  }

  /** No section starts on a line nothing ties it to: the line is its own anchor,
      opens with its code, or prints its title while its code opens no line. */
  lemma PlacedJustified(d: Doc, k: nat)
    requires d.Valid() && k in Placed(d)
    ensures k < |d.entries| && Justified(d, k, Placed(d)[k])
  {
    PlacedInOrder(d);
    var n := |d.entries|;
    PrimaryInOrder(d, n);
    GapFillInOrder(d, PrimaryPass(d, n).matched, n);
    PrimaryJustified(d, n);
    GapFillJustified(d, PrimaryPass(d, n).matched, n);
    TitleFillJustified(d, GapFill(d, PrimaryPass(d, n).matched, n), n);
  }

  ghost predicate AllJustified(d: Doc, m: Matched) {
    forall k :: k in m ==> k < |d.entries| && Justified(d, k, m[k])
  }

  lemma {:induction false} PrimaryJustified(d: Doc, n: nat)
    requires d.Valid() && n <= |d.entries|
    ensures AllJustified(d, PrimaryPass(d, n).matched)
  {
    hide Anchored, TitleLine, Positions;
    if n > 0 {
      PrimaryJustified(d, n - 1);
    }
  }

  lemma {:induction false} GapFillJustified(d: Doc, m: Matched, n: nat)
    requires AllJustified(d, m) && n <= |d.entries|
    ensures AllJustified(d, GapFill(d, m, n))
  {
    hide GapChoice, TitleLine, Positions, Below, Above;
    if n > 0 {
      GapFillJustified(d, m, n - 1);
    }
  }

  lemma {:induction false} TitleFillJustified(d: Doc, m: Matched, n: nat)
    requires AllJustified(d, m) && n <= |d.entries|
    ensures AllJustified(d, TitleFill(d, m, n))
  {
    hide TitleChoice, TitleLine, Positions, Below, Above;
    if n > 0 {
      TitleFillJustified(d, m, n - 1);
    }
  }

  // ----- the imperative passes -------------------------------------------------

  datatype Start = Start(pos: nat, entry: nat)

  predicate NotBehind(a: Start, b: Start) { a.pos <= b.pos }

  /** `list.sort` by position. */
  function SortStarts(starts: seq<Start>): seq<Start>
  {
    Sort(starts, NotBehind)
  }

  /** `starts` lists `m`, each placed entry once. */
  ghost predicate Lists(starts: seq<Start>, m: Matched) {
    && (forall s :: s in starts ==> s.entry in m && m[s.entry] == s.pos)
    && (forall k :: k in m ==> Start(m[k], k) in starts)
    && (forall i, j :: 0 <= i < j < |starts| ==> starts[i].entry != starts[j].entry)
  }

  ghost predicate InContentsOrder(starts: seq<Start>) {
    forall i, j :: 0 <= i < j < |starts| ==> starts[i].pos < starts[j].pos && starts[i].entry < starts[j].entry
  }

  predicate OtherPos(a: Start, b: Start) { a.pos != b.pos }

  lemma SortStartsOrders(starts: seq<Start>)
    requires forall i, j :: 0 <= i < j < |starts| ==> starts[i].pos != starts[j].pos
    ensures var r := SortStarts(starts);
            && (forall i, j :: 0 <= i < j < |r| ==> r[i].pos < r[j].pos)
            && (forall t :: t in r <==> t in starts)
  {
    SortSorts(starts, NotBehind);
    SortKeepsPairs(starts, NotBehind, OtherPos);
    SortedMembers(starts, NotBehind);
    var r := SortStarts(starts);
    forall i, j | 0 <= i < j < |r|
      ensures r[i].pos < r[j].pos
    {
      assert NotBehind(r[i], r[j]) && OtherPos(r[i], r[j]);
    }
  }

  /** Sorting placements by position puts them in contents order. */
  lemma SortedIsContentsOrder(d: Doc, m: Matched, starts: seq<Start>)
    requires InOrder(d, m) && Lists(starts, m)
    ensures InContentsOrder(SortStarts(starts)) && Lists(SortStarts(starts), m)
  {
    forall i, j | 0 <= i < j < |starts|
      ensures starts[i].pos != starts[j].pos
    {
      assert starts[i] in starts && starts[j] in starts;
    }
    SortStartsOrders(starts);
    var r := SortStarts(starts);
    forall i, j | 0 <= i < j < |r|
      ensures r[i].entry < r[j].entry
    {
      assert r[i] in starts && r[j] in starts;
      assert m[r[i].entry] < m[r[j].entry];
    }
  }

  lemma EmptyLists()
    ensures Lists([], map[])
  {}

  lemma ListsOneMore(starts: seq<Start>, m: Matched, k: nat, p: nat)
    requires Lists(starts, m) && k !in m
    ensures Lists(starts + [Start(p, k)], m[k := p])
  {}

  /** Pass 1: the monotonic cursor and the rolling window of drifts. */
  method PlaceByPage(d: Doc) returns (starts: seq<Start>, matched: Matched)
    requires d.Valid()
    ensures matched == PrimaryPass(d, |d.entries|).matched && Lists(starts, matched)
  {
    hide Anchored, Positions, Drift, Lists, LastFive;
    assert Lists([], map[]) by { EmptyLists(); }
    starts, matched := [], map[];
    var last: int, window: seq<int> := -1, [];
    for k := 0 to |d.entries|
      invariant PrimaryPass(d, k) == Cursor(matched, last, window)
      invariant Lists(starts, matched)
      invariant forall j :: j in matched ==> j < k
    {
      var r := Anchored(d, k, last, window);
      if r.Some? {
        ListsOneMore(starts, matched, k, r.value);
        starts := starts + [Start(r.value, k)];
        matched := matched[k := r.value];
        last := r.value;
        if d.entries[k].anchor.NoAnchor? {
          window := LastFive(window + [d.body[r.value].page - d.Expected(d.entries[k])]);
        }
      }
    }
  }

  /** Passes 2 and 3, each adding to what is placed so far. */
  method FillGaps(d: Doc, index: map<string, seq<nat>>, starts0: seq<Start>, m: Matched)
    returns (starts: seq<Start>, matched: Matched)
    requires forall code :: Lookup(index, code) == Positions(d.body, code)
    requires Lists(starts0, m)
    ensures matched == GapFill(d, m, |d.entries|) && Lists(starts, matched)
  {
    hide GapChoice, Below, Above, Lists, Positions;
    starts, matched := starts0, m;
    for k := 0 to |d.entries|
      invariant matched == GapFill(d, m, k) && Lists(starts, matched)
    {
      if k !in matched && Lookup(index, d.entries[k].code) != [] {
        var p := GapChoice(d, matched, k);
        if p.Some? {
          ListsOneMore(starts, matched, k, p.value);
          matched := matched[k := p.value];
          starts := starts + [Start(p.value, k)];
        }
      }
    }
  }

  method MatchTitles(d: Doc, index: map<string, seq<nat>>, starts0: seq<Start>, m: Matched)
    returns (starts: seq<Start>, matched: Matched)
    requires forall code :: Lookup(index, code) == Positions(d.body, code)
    requires Lists(starts0, m)
    ensures matched == TitleFill(d, m, |d.entries|) && Lists(starts, matched)
  {
    hide TitleChoice, Below, Above, Lists, Positions;
    starts, matched := starts0, m;
    for k := 0 to |d.entries|
      invariant matched == TitleFill(d, m, k) && Lists(starts, matched)
    {
      if k !in matched && Lookup(index, d.entries[k].code) == [] {
        var p := TitleChoice(d, matched, k);
        if p.Some? {
          ListsOneMore(starts, matched, k, p.value);
          matched := matched[k := p.value];
          starts := starts + [Start(p.value, k)];
        }
      }
    }
  }

  /** The placement part of `build_sections`. */
  method BuildStarts(d: Doc) returns (starts: seq<Start>)
    requires d.Valid()
    ensures Lists(starts, Placed(d))
    ensures InContentsOrder(starts)
    ensures forall s :: s in starts ==> s.pos < |d.body| && s.entry < |d.entries|
  {
    var index := IndexCodes(d.body);
    var matched;
    starts, matched := PlaceByPage(d);
    starts, matched := FillGaps(d, index, starts, matched);
    starts, matched := MatchTitles(d, index, starts, matched);
    PlacedInOrder(d);
    SortedIsContentsOrder(d, matched, starts);
    starts := SortStarts(starts);
  }
}

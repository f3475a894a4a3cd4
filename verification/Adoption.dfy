/** The completeness net for footnotes that no leaf cites, on leaves whose
    footnote lists grow in place (`adopt_orphan_footnotes`). */
module Adoption {
  import opened Common
  import Decimals

  // ----- notes, leaves and folios ----------------------------------------------

  datatype Note = Note(marker: string, text: string, html: string)

  /** The notes one page prints; the pages of a run have distinct numbers. */
  datatype Page = Page(number: nat, notes: seq<Note>)

  /** A footnote a leaf holds. */
  datatype Foot = Foot(ref: string, text: string, html: string, page: nat)

  /** What the counters are keyed by. */
  datatype Key = Key(ref: string, text: string)

  /** The page range of a leaf; a leaf may lack either end. */
  datatype Span = Span(first: Option<nat>, last: Option<nat>)

  datatype Folios = Folios(printed: map<nat, int>, offset: int)

  class Leaf {
    const span: Span
    var footnotes: seq<Foot>
  }

  /** What one run is given, apart from what the leaves hold. */
  datatype Run = Run(pages: seq<Page>, folios: Folios, bodyPages: map<nat, seq<nat>>, spans: seq<Span>)

  ghost predicate DistinctPages(pages: seq<Page>) {
    forall i, j :: 0 <= i < j < |pages| ==> pages[i].number != pages[j].number
  }

  /** `printed_page_for`: the page's own folio, else the offset, else its number. */
  function PrintedPage(f: Folios, pg: nat): nat {
    if pg in f.printed && f.printed[pg] > 0 then f.printed[pg]
    else if pg - f.offset > 0 then pg - f.offset
    else pg
  }

  function Ref(f: Folios, pg: nat, marker: string): string {
    Decimals.Print(PrintedPage(f, pg)) + "." + marker
  }

  function NoteKey(f: Folios, pg: nat, note: Note): Key { Key(Ref(f, pg, note.marker), note.text) }

  function FootKey(foot: Foot): Key { Key(foot.ref, foot.text) }

  /** A footnote number tells its folio and its marker apart, whatever the marker. */
  lemma RefsTellApart(f: Folios, p: nat, m: string, q: nat, n: string)
    ensures Ref(f, p, m) == Ref(f, q, n) <==> PrintedPage(f, p) == PrintedPage(f, q) && m == n
  {
    var a, b := Decimals.Print(PrintedPage(f, p)), Decimals.Print(PrintedPage(f, q));
    Decimals.ReadPrint(PrintedPage(f, p));
    Decimals.ReadPrint(PrintedPage(f, q));
    if Ref(f, p, m) == Ref(f, q, n) {
      var r := Ref(f, p, m);
      assert r[|a|] == '.' && r[|b|] == '.';
      assert |a| < |b| ==> r[|a|] == b[|a|] && Decimals.IsDigit(b[|a|]);
      assert |b| < |a| ==> r[|b|] == a[|b|] && Decimals.IsDigit(a[|b|]);
      assert a == r[..|a|] && b == r[..|b|];
      assert m == r[|a| + 1..] && n == r[|b| + 1..];
    }
  }

  // ----- counting --------------------------------------------------------------

  /** How often a list of footnotes holds a key. */
  function CountIn(feet: seq<Foot>, k: Key): nat {
    if feet == [] then 0 else CountIn(feet[..|feet| - 1], k) + if FootKey(feet[|feet| - 1]) == k then 1 else 0
  }

  function Count(held: seq<seq<Foot>>, k: Key): nat {
    if held == [] then 0 else Count(held[..|held| - 1], k) + CountIn(held[|held| - 1], k)
  }

  function Total(held: seq<seq<Foot>>): nat {
    if held == [] then 0 else Total(held[..|held| - 1]) + |held[|held| - 1]|
  }

  /** How often the notes of a page print a key. */
  function Copies(f: Folios, pg: nat, notes: seq<Note>, k: Key): nat {
    if notes == [] then 0
    else Copies(f, pg, notes[..|notes| - 1], k) + if NoteKey(f, pg, notes[|notes| - 1]) == k then 1 else 0
  }

  /** How often the source prints a marker with a text on a page: `src_mult`. */
  function PageMult(notes: seq<Note>, marker: string, text: string): nat {
    if notes == [] then 0
    else
      var last := notes[|notes| - 1];
      PageMult(notes[..|notes| - 1], marker, text) + if last.marker == marker && last.text == text then 1 else 0
  }

  function SourceMult(pages: seq<Page>, pg: nat, marker: string, text: string): nat {
    if pages == [] then 0
    else
      var last := pages[|pages| - 1];
      SourceMult(pages[..|pages| - 1], pg, marker, text)
      + if last.number == pg then PageMult(last.notes, marker, text) else 0
  }

  // ----- the covering leaf -----------------------------------------------------

  predicate Covers(span: Span, pg: nat) {
    HasRange(span) && span.first.value <= pg <= span.last.value
  }

  /** The sort key order of two leaves that have both ends. */
  predicate NotAfter(a: Span, b: Span) {
    a.first.GetOr(0) < b.first.GetOr(0) || (a.first.GetOr(0) == b.first.GetOr(0) && a.last.GetOr(0) <= b.last.GetOr(0))
  }

  ghost predicate Within(order: seq<nat>, n: nat) { forall x :: 0 <= x < |order| ==> order[x] < n }

  function InsertLeaf(spans: seq<Span>, order: seq<nat>, i: nat): (r: seq<nat>)
    requires i < |spans| && Within(order, |spans|)
    ensures Within(r, |spans|)
    ensures forall k :: k in r <==> k == i || k in order
  {
    if order == [] || NotAfter(spans[order[|order| - 1]], spans[i]) then order + [i]
    else
      var front, back := order[..|order| - 1], order[|order| - 1];
      assert order == front + [back];
      InsertLeaf(spans, front, i) + [back]
  }

  predicate HasRange(span: Span) { span.first.Some? && span.last.Some? }

  /** The first `n` leaves with a page range, stably sorted by it. */
  function SortCovered(spans: seq<Span>, n: nat): (r: seq<nat>)
    requires n <= |spans|
    ensures Within(r, |spans|)
    ensures forall k: nat :: k in r <==> k < n && HasRange(spans[k])
  {
    if n == 0 then []
    else if HasRange(spans[n - 1]) then InsertLeaf(spans, SortCovered(spans, n - 1), n - 1)
    else SortCovered(spans, n - 1)
  }

  function FirstCovering(spans: seq<Span>, order: seq<nat>, pg: nat): Option<nat>
    requires Within(order, |spans|)
  {
    if order == [] then None
    else if Covers(spans[order[0]], pg) then Some(order[0])
    else FirstCovering(spans, order[1..], pg)
  }

  function Direct(spans: seq<Span>, pg: nat): Option<nat> { FirstCovering(spans, SortCovered(spans, |spans|), pg) }

  /** The first body page in the list that some leaf covers decides. */
  function ByBody(spans: seq<Span>, bodies: seq<nat>): Option<nat> {
    if bodies == [] then None
    else if Direct(spans, bodies[0]).Some? then Direct(spans, bodies[0])
    else ByBody(spans, bodies[1..])
  }

  /** The leaf that adopts a page's orphans. */
  function CoverOf(run: Run, pg: nat): Option<nat> {
    var own := Direct(run.spans, pg);
    if own.Some? then own
    else if pg in run.bodyPages then ByBody(run.spans, run.bodyPages[pg])
    else None
  }

  /** Leaf `i` stands before leaf `j` in the stable sort. */
  predicate Earlier(spans: seq<Span>, i: nat, j: nat)
    requires i < |spans| && j < |spans|
  {
    NotAfter(spans[i], spans[j]) && (NotAfter(spans[j], spans[i]) ==> i < j)
  }

  ghost predicate InOrder(spans: seq<Span>, order: seq<nat>)
    requires Within(order, |spans|)
  {
    forall x, y :: 0 <= x < y < |order| ==> Earlier(spans, order[x], order[y])
  }

  lemma EarlierChains(spans: seq<Span>, i: nat, j: nat, k: nat)
    requires i < |spans| && j < |spans| && k < |spans| && Earlier(spans, i, j) && Earlier(spans, j, k)
    ensures Earlier(spans, i, k)
  {
  }

  lemma {:induction false} InsertLeafOrders(spans: seq<Span>, order: seq<nat>, i: nat)
    requires i < |spans| && Within(order, i) && InOrder(spans, order)
    ensures InOrder(spans, InsertLeaf(spans, order, i))
  {
    if order == [] {
    } else if NotAfter(spans[order[|order| - 1]], spans[i]) {
      var last := order[|order| - 1];
      assert Earlier(spans, last, i);
      hide NotAfter, Earlier;
      forall x | 0 <= x < |order|
        ensures Earlier(spans, order[x], i)
      {
        if x < |order| - 1 {
          assert Earlier(spans, order[x], last);
          EarlierChains(spans, order[x], last, i);
        }
      }
    } else {
      var front, back := order[..|order| - 1], order[|order| - 1];
      assert Earlier(spans, i, back);
      hide NotAfter, Earlier;
      FrontAndLast(order);
      InsertLeafOrders(spans, front, i);
      var r := InsertLeaf(spans, front, i);
      forall x | 0 <= x < |r|
        ensures Earlier(spans, r[x], back)
      {
        assert r[x] in r;
        if r[x] in front {
          var y :| 0 <= y < |front| && front[y] == r[x];
          assert Earlier(spans, order[y], order[|order| - 1]);
        }
      }
    }
  }

  lemma SortedWithin(spans: seq<Span>, n: nat)
    requires n <= |spans|
    ensures Within(SortCovered(spans, n), n)
  {
    hide SortCovered;
    var order := SortCovered(spans, n);
    forall x | 0 <= x < |order|
      ensures order[x] < n
    {
      assert order[x] in order;
    }
  }

  lemma {:induction false} SortCoveredOrders(spans: seq<Span>, n: nat)
    requires n <= |spans|
    ensures InOrder(spans, SortCovered(spans, n))
  {
    hide InOrder, InsertLeaf;
    if n == 0 {
      NothingInOrder(spans);
    } else {
      SortCoveredOrders(spans, n - 1);
      if HasRange(spans[n - 1]) {
        SortedWithin(spans, n - 1);
        InsertLeafOrders(spans, SortCovered(spans, n - 1), n - 1);
      }
    }
  }

  lemma NothingInOrder(spans: seq<Span>)
    ensures InOrder(spans, [])
  {
  }

  lemma {:induction false} FirstCoveringIsFirst(spans: seq<Span>, order: seq<nat>, pg: nat)
    requires Within(order, |spans|) && InOrder(spans, order)
    ensures match FirstCovering(spans, order, pg)
      case None => forall k :: k in order ==> !Covers(spans[k], pg)
      case Some(i) => i in order && Covers(spans[i], pg)
                      && forall k :: k in order && Covers(spans[k], pg) && k != i ==> Earlier(spans, i, k)
  {
    if order != [] {
      assert order == [order[0]] + order[1..];
      FirstCoveringIsFirst(spans, order[1..], pg);
    }
  }

  /** No leaf's page range holds the page. */
  ghost predicate Uncovered(spans: seq<Span>, pg: nat) {
    forall k: nat :: k < |spans| ==> !Covers(spans[k], pg)
  }

  /** Of all leaves whose page range holds the page, leaf `i` starts first, then
      ends first, then comes first. */
  ghost predicate Earliest(spans: seq<Span>, pg: nat, i: nat) {
    && i < |spans| && Covers(spans[i], pg)
    && forall k: nat :: k < |spans| && Covers(spans[k], pg) && k != i ==>
         || spans[i].first.value < spans[k].first.value
         || (spans[i].first == spans[k].first && spans[i].last.value < spans[k].last.value)
         || (spans[i].first == spans[k].first && spans[i].last == spans[k].last && i < k)
  }

  lemma CoverIsEarliest(spans: seq<Span>, pg: nat)
    ensures match Direct(spans, pg)
      case None => Uncovered(spans, pg)
      case Some(i) => Earliest(spans, pg, i) && !Uncovered(spans, pg)
  {
    SortCoveredOrders(spans, |spans|);
    FirstCoveringIsFirst(spans, SortCovered(spans, |spans|), pg);
  }

  /** Some leaf covers one of the pages listed. */
  ghost predicate AnyCovered(spans: seq<Span>, bodies: seq<nat>) {
    exists x :: 0 <= x < |bodies| && !Uncovered(spans, bodies[x])
  }

  /** Leaf `i` is the earliest that covers the first listed page any leaf covers. */
  ghost predicate FirstBodyOf(spans: seq<Span>, bodies: seq<nat>, i: nat) {
    exists x :: 0 <= x < |bodies| && Earliest(spans, bodies[x], i)
                && forall y :: 0 <= y < x ==> Uncovered(spans, bodies[y])
  }

  lemma {:induction false} ByBodyIsFirst(spans: seq<Span>, bodies: seq<nat>)
    ensures match ByBody(spans, bodies)
      case None => !AnyCovered(spans, bodies)
      case Some(i) => AnyCovered(spans, bodies) && FirstBodyOf(spans, bodies, i)
  {
    hide Direct, Uncovered, Earliest;
    if bodies != [] {
      var head, rest := bodies[0], bodies[1..];
      CoverIsEarliest(spans, head);
      ByBodyIsFirst(spans, rest);
      assert forall x :: 0 <= x < |rest| ==> rest[x] == bodies[x + 1];
      if Direct(spans, head).None? && ByBody(spans, rest).Some? {
        var i := ByBody(spans, rest).value;
        var x :| 0 <= x < |rest| && Earliest(spans, rest[x], i) && forall y :: 0 <= y < x ==> Uncovered(spans, rest[y]);
        forall y | 0 <= y < x + 1
          ensures Uncovered(spans, bodies[y])
        {
          if y > 0 { assert rest[y - 1] == bodies[y]; }
        }
        assert Earliest(spans, bodies[x + 1], i);
      }
    }
  }

  /** Some leaf covers the page or a body page listed for it. */
  ghost predicate Reached(run: Run, pg: nat) {
    !Uncovered(run.spans, pg) || (pg in run.bodyPages && AnyCovered(run.spans, run.bodyPages[pg]))
  }

  /** Leaf `i` is the earliest that covers the page or, where none does, the
      earliest that covers the first body page listed for it that any leaf covers. */
  ghost predicate Adopter(run: Run, pg: nat, i: nat) {
    if !Uncovered(run.spans, pg) then Earliest(run.spans, pg, i)
    else pg in run.bodyPages && FirstBodyOf(run.spans, run.bodyPages[pg], i)
  }

  /** A page's orphans have a leaf to go to exactly when a leaf covers the page or
      a body page listed for it, and which leaf that is. */
  lemma CoverOfExactly(run: Run, pg: nat)
    ensures CoverOf(run, pg).Some? <==> Reached(run, pg)
    ensures CoverOf(run, pg).Some? ==> Adopter(run, pg, CoverOf(run, pg).value)
    ensures CoverOf(run, pg).Some? ==> CoverOf(run, pg).value < |run.spans|
  {
    hide Direct, Uncovered, AnyCovered, ByBody;
    CoverIsEarliest(run.spans, pg);
    if pg in run.bodyPages {
      ByBodyIsFirst(run.spans, run.bodyPages[pg]);
    }
  }

  /** No other leaf answers that description. */
  lemma OneAdopter(run: Run, pg: nat, i: nat, j: nat)
    requires Adopter(run, pg, i) && Adopter(run, pg, j)
    ensures i == j
  {
    if Uncovered(run.spans, pg) {
      var spans, bodies := run.spans, run.bodyPages[pg];
      hide Earlier, Adopter;
      var x :| 0 <= x < |bodies| && Earliest(spans, bodies[x], i)
               && forall y :: 0 <= y < x ==> Uncovered(spans, bodies[y]);
      var z :| 0 <= z < |bodies| && Earliest(spans, bodies[z], j)
               && forall y :: 0 <= y < z ==> Uncovered(spans, bodies[y]);
      assert !Uncovered(spans, bodies[x]) && !Uncovered(spans, bodies[z]);
      assert x == z;
      OneEarliest(spans, bodies[x], i, j);
    } else {
      OneEarliest(run.spans, pg, i, j);
    }
  }

  lemma OneEarliest(spans: seq<Span>, pg: nat, i: nat, j: nat)
    requires Earliest(spans, pg, i) && Earliest(spans, pg, j)
    ensures i == j
  {
  }

  /** A page of notes outside every leaf goes to the leaf its notes annotate. */
  lemma CollectorPageIsAdopted()
    ensures var run := Run([Page(300, [Note("1", "t", "t")])], Folios(map[], 0), map[300 := [15]],
                           [Span(Some(10), Some(20))]);
            CoverOf(run, 300) == Some(0) && Uncovered(run.spans, 300)
  {
    var spans := [Span(Some(10), Some(20))];
    var run := Run([Page(300, [Note("1", "t", "t")])], Folios(map[], 0), map[300 := [15]], spans);
    assert Covers(spans[0], 15) && Uncovered(spans, 300);
    assert run.bodyPages[300][0] == 15 && !Uncovered(spans, 15);
    CoverOfExactly(run, 300);
  }

  // ----- one run, on values ----------------------------------------------------

  function NewFoot(f: Folios, pg: nat, note: Note): Foot { Foot(Ref(f, pg, note.marker), note.text, note.html, pg) }

  /** Adopts the first `n` notes of page `p` into leaf `cover`. */
  function AdoptNotes(run: Run, held: seq<seq<Foot>>, cover: nat, p: nat, n: nat): (r: seq<seq<Foot>>)
    requires cover < |held| && p < |run.pages| && n <= |run.pages[p].notes|
    ensures |r| == |held|
  {
    if n == 0 then held
    else
      var before := AdoptNotes(run, held, cover, p, n - 1);
      var pg, note := run.pages[p].number, run.pages[p].notes[n - 1];
      if Count(before, NoteKey(run.folios, pg, note)) >= SourceMult(run.pages, pg, note.marker, note.text) then before
      else before[cover := before[cover] + [NewFoot(run.folios, pg, note)]]
  }

  function AdoptPages(run: Run, held: seq<seq<Foot>>, n: nat): (r: seq<seq<Foot>>)
    requires |held| == |run.spans| && n <= |run.pages|
    ensures |r| == |held|
  {
    if n == 0 then held
    else
      var before := AdoptPages(run, held, n - 1);
      var cover := CoverOf(run, run.pages[n - 1].number);
      if cover.None? || cover.value >= |held| then before
      else AdoptNotes(run, before, cover.value, n - 1, |run.pages[n - 1].notes|)
  }

  /** How often a page prints a key, where some leaf is there to adopt it. */
  ghost function Here(run: Run, p: nat, k: Key): nat
    requires p < |run.pages|
  {
    var page := run.pages[p];
    if Reached(run, page.number) then Copies(run.folios, page.number, page.notes, k) else 0
  }

  /** The largest number of times one of the first `n` pages prints a key, of
      those a leaf is there for. */
  ghost function Wanted(run: Run, n: nat, k: Key): nat
    requires n <= |run.pages|
  {
    if n == 0 then 0 else Max(Wanted(run, n - 1, k), Here(run, n - 1, k))
  }

  // ----- the source multiplicity is the page's own -----------------------------

  lemma {:induction false} PageMultIsCopies(f: Folios, pg: nat, notes: seq<Note>, note: Note)
    ensures PageMult(notes, note.marker, note.text) == Copies(f, pg, notes, NoteKey(f, pg, note))
  {
    hide Ref;
    if notes != [] {
      PageMultIsCopies(f, pg, notes[..|notes| - 1], note);
      RefsTellApart(f, pg, notes[|notes| - 1].marker, pg, note.marker);
    }
  }

  lemma {:induction false} SourceMultIsPageMult(pages: seq<Page>, p: nat, marker: string, text: string)
    requires p < |pages| && DistinctPages(pages)
    ensures SourceMult(pages, pages[p].number, marker, text) == PageMult(pages[p].notes, marker, text)
    ensures forall pg :: (forall i :: 0 <= i < |pages| ==> pages[i].number != pg) ==>
        SourceMult(pages, pg, marker, text) == 0
  {
    hide PageMult;
    var front := pages[..|pages| - 1];
    forall pg | forall i :: 0 <= i < |pages| ==> pages[i].number != pg
      ensures SourceMult(pages, pg, marker, text) == 0
    {
      NoSource(pages, pg, marker, text);
    }
    if p < |pages| - 1 {
      assert front[p] == pages[p];
      SourceMultIsPageMult(front, p, marker, text);
    } else {
      NoSource(front, pages[p].number, marker, text);
    }
  }

  lemma {:induction false} NoSource(pages: seq<Page>, pg: nat, marker: string, text: string)
    requires forall i :: 0 <= i < |pages| ==> pages[i].number != pg
    ensures SourceMult(pages, pg, marker, text) == 0
  {
    if pages != [] {
      assert forall i :: 0 <= i < |pages| - 1 ==> pages[..|pages| - 1][i] == pages[i];
      NoSource(pages[..|pages| - 1], pg, marker, text);
    }
  }

  lemma CapIsCopies(run: Run, p: nat, note: Note)
    requires p < |run.pages| && DistinctPages(run.pages)
    ensures var page := run.pages[p];
            SourceMult(run.pages, page.number, note.marker, note.text)
            == Copies(run.folios, page.number, page.notes, NoteKey(run.folios, page.number, note))
  {
    hide NoteKey;
    SourceMultIsPageMult(run.pages, p, note.marker, note.text);
    PageMultIsCopies(run.folios, run.pages[p].number, run.pages[p].notes, note);
  }

  // ----- counts after a run ----------------------------------------------------

  lemma {:induction false} CountAfterAppend(held: seq<seq<Foot>>, i: nat, foot: Foot, k: Key)
    requires i < |held|
    ensures Count(held[i := held[i] + [foot]], k) == Count(held, k) + if FootKey(foot) == k then 1 else 0
    ensures Total(held[i := held[i] + [foot]]) == Total(held) + 1
  {
    hide FootKey;
    var n := |held| - 1;
    var r := held[i := held[i] + [foot]];
    if i < n {
      CountAfterAppend(held[..n], i, foot, k);
      assert r[..n] == held[..n][i := held[..n][i] + [foot]];
    } else {
      assert r[..n] == held[..n];
      assert (held[i] + [foot])[..|held[i]|] == held[i];
    }
  }

  lemma {:induction false} AdoptNotesCounts(run: Run, held: seq<seq<Foot>>, cover: nat, p: nat, n: nat, k: Key)
    requires cover < |held| && p < |run.pages| && n <= |run.pages[p].notes| && DistinctPages(run.pages)
    ensures var page := run.pages[p];
            var cap := Copies(run.folios, page.number, page.notes, k);
            Count(AdoptNotes(run, held, cover, p, n), k)
            == Max(Count(held, k), Min(cap, Count(held, k) + Copies(run.folios, page.number, page.notes[..n], k)))
  {
    hide Count, NoteKey, SourceMult, FootKey;
    var page := run.pages[p];
    if n > 0 {
      AdoptNotesCounts(run, held, cover, p, n - 1, k);
      var note := page.notes[n - 1];
      assert page.notes[..n][..n - 1] == page.notes[..n - 1];
      CapIsCopies(run, p, note);
      var before := AdoptNotes(run, held, cover, p, n - 1);
      CountAfterAppend(before, cover, NewFoot(run.folios, page.number, note), k);
      NewFootKey(run.folios, page.number, note);
    }
  }

  lemma NewFootKey(f: Folios, pg: nat, note: Note)
    ensures FootKey(NewFoot(f, pg, note)) == NoteKey(f, pg, note)
  {
  }

  /** One run lifts the count of every (number, text) to exactly the largest number
      of times a covered page prints it, and leaves a larger count alone. */
  lemma {:induction false} AdoptionCounts(run: Run, held: seq<seq<Foot>>, n: nat, k: Key)
    requires |held| == |run.spans| && n <= |run.pages| && DistinctPages(run.pages)
    ensures Count(AdoptPages(run, held, n), k) == Max(Count(held, k), Wanted(run, n, k))
  {
    hide Count, AdoptNotes, Copies, CoverOf;
    if n > 0 {
      AdoptionCounts(run, held, n - 1, k);
      var page := run.pages[n - 1];
      CoverOfExactly(run, page.number);
      var cover := CoverOf(run, page.number);
      if cover.Some? {
        AdoptNotesCounts(run, AdoptPages(run, held, n - 1), cover.value, n - 1, |page.notes|, k);
        assert page.notes[..|page.notes|] == page.notes;
      }
    }
  }

  lemma {:induction false} WantedCovers(run: Run, n: nat, p: nat, k: Key)
    requires p < n <= |run.pages| && Reached(run, run.pages[p].number)
    ensures Wanted(run, n, k) >= Copies(run.folios, run.pages[p].number, run.pages[p].notes, k)
  {
    hide CoverOf, Copies;
    if p < n - 1 {
      WantedCovers(run, n - 1, p, k);
    }
  }

  /** No note of a covered page is lost: after a run its number and text are held at
      least as often as the page prints them. */
  lemma NoNoteIsLost(run: Run, held: seq<seq<Foot>>, p: nat, k: Key)
    requires |held| == |run.spans| && DistinctPages(run.pages)
    requires p < |run.pages| && Reached(run, run.pages[p].number)
    ensures Count(AdoptPages(run, held, |run.pages|), k)
         >= Copies(run.folios, run.pages[p].number, run.pages[p].notes, k)
  {
    hide CoverOf, Copies, Count, AdoptPages;
    AdoptionCounts(run, held, |run.pages|, k);
    WantedCovers(run, |run.pages|, p, k);
  }

  ghost predicate DistinctFolios(run: Run) {
    forall i, j :: 0 <= i < j < |run.pages| ==>
      PrintedPage(run.folios, run.pages[i].number) != PrintedPage(run.folios, run.pages[j].number)
  }

  /** Pages with no folio of their own, all behind the offset, have the folios the
      offset gives, and so distinct ones. */
  lemma OffsetFolios(run: Run)
    requires DistinctPages(run.pages) && forall pg :: pg in run.folios.printed ==> run.folios.printed[pg] <= 0
    requires forall i :: 0 <= i < |run.pages| ==> run.pages[i].number > run.folios.offset
    ensures forall i :: 0 <= i < |run.pages| ==>
              PrintedPage(run.folios, run.pages[i].number) + run.folios.offset == run.pages[i].number
    ensures DistinctFolios(run)
  {
  }

  lemma {:induction false} OtherFolioPrintsNone(f: Folios, pg: nat, notes: seq<Note>, other: nat, marker: string,
                                                text: string)
    requires PrintedPage(f, pg) != PrintedPage(f, other)
    ensures Copies(f, pg, notes, Key(Ref(f, other, marker), text)) == 0
  {
    hide Ref, PrintedPage;
    if notes != [] {
      OtherFolioPrintsNone(f, pg, notes[..|notes| - 1], other, marker, text);
      RefsTellApart(f, pg, notes[|notes| - 1].marker, other, marker);
    }
  }

  lemma {:induction false} WantedByOnePage(run: Run, n: nat, p: nat, note: Note)
    requires n <= |run.pages| && p < |run.pages| && DistinctFolios(run) && Reached(run, run.pages[p].number)
    ensures var page := run.pages[p];
            var k := NoteKey(run.folios, page.number, note);
            Wanted(run, n, k) == if p < n then Copies(run.folios, page.number, page.notes, k) else 0
  {
    hide CoverOf, Copies, PrintedPage, Ref;
    if n > 0 {
      WantedByOnePage(run, n - 1, p, note);
      var f, page := run.folios, run.pages[n - 1];
      if p != n - 1 {
        assert PrintedPage(f, run.pages[p].number) != PrintedPage(f, page.number);
        OtherFolioPrintsNone(f, page.number, page.notes, run.pages[p].number, note.marker, note.text);
      }
    }
  }

  /** Where no two pages print one folio, a covered page's note ends up held exactly
      as often as it was before or as its page prints it, whichever is more. */
  lemma HeldExactly(run: Run, held: seq<seq<Foot>>, p: nat, note: Note)
    requires |held| == |run.spans| && DistinctPages(run.pages) && DistinctFolios(run)
    requires p < |run.pages| && Reached(run, run.pages[p].number)
    ensures var page := run.pages[p];
            var k := NoteKey(run.folios, page.number, note);
            Count(AdoptPages(run, held, |run.pages|), k)
            == Max(Count(held, k), PageMult(page.notes, note.marker, note.text))
  {
    hide CoverOf, Copies, Count, AdoptPages, NoteKey, PageMult, DistinctFolios;
    var page := run.pages[p];
    AdoptionCounts(run, held, |run.pages|, NoteKey(run.folios, page.number, note));
    WantedByOnePage(run, |run.pages|, p, note);
    PageMultIsCopies(run.folios, page.number, page.notes, note);
  }

  // ----- where adopted notes go ------------------------------------------------

  /** The footnote records a note of one of the first `n` pages, under the number
      of that page, and leaf `i` is the one to adopt that page's orphans. */
  ghost predicate Records(run: Run, n: nat, foot: Foot, i: nat)
    requires n <= |run.pages|
  {
    exists p: nat, x: nat ::
      && p < n && x < |run.pages[p].notes| && Adopter(run, run.pages[p].number, i)
      && var pg, note := run.pages[p].number, run.pages[p].notes[x];
      && foot.page == pg && foot.text == note.text && foot.html == note.html
      && foot.ref == Decimals.Print(PrintedPage(run.folios, pg)) + "." + note.marker
  }

  /** Leaf `i` keeps what it held, in order, and what it gained it is to hold. */
  ghost predicate Gained(run: Run, n: nat, before: seq<Foot>, after: seq<Foot>, i: nat)
    requires n <= |run.pages|
  {
    && before <= after
    && forall x :: |before| <= x < |after| ==> Records(run, n, after[x], i)
  }

  lemma NewFootRecords(run: Run, p: nat, x: nat, i: nat)
    requires p < |run.pages| && x < |run.pages[p].notes| && Adopter(run, run.pages[p].number, i)
    ensures Records(run, p + 1, NewFoot(run.folios, run.pages[p].number, run.pages[p].notes[x]), i)
  {
    hide Adopter;
  }

  lemma {:induction false} AdoptNotesGains(run: Run, held: seq<seq<Foot>>, cover: nat, p: nat, n: nat, i: nat)
    requires cover < |held| && p < |run.pages| && n <= |run.pages[p].notes| && i < |held|
    requires CoverOf(run, run.pages[p].number) == Some(cover)
    ensures Gained(run, p + 1, held[i], AdoptNotes(run, held, cover, p, n)[i], i)
  {
    hide CoverOf, SourceMult, Count, Records, Adopter, NewFoot;
    if n > 0 {
      AdoptNotesGains(run, held, cover, p, n - 1, i);
      CoverOfExactly(run, run.pages[p].number);
      NewFootRecords(run, p, n - 1, cover);
    }
  }

  lemma RecordsLater(run: Run, n: nat, m: nat, foot: Foot, i: nat)
    requires n <= m <= |run.pages| && Records(run, n, foot, i)
    ensures Records(run, m, foot, i)
  {
    hide Adopter;
  }

  lemma GainedChains(run: Run, n: nat, a: seq<Foot>, b: seq<Foot>, c: seq<Foot>, i: nat)
    requires n < |run.pages| && Gained(run, n, a, b, i) && Gained(run, n + 1, b, c, i)
    ensures Gained(run, n + 1, a, c, i)
  {
    hide Records;
    forall x | |a| <= x < |c|
      ensures Records(run, n + 1, c[x], i)
    {
      if x < |b| {
        assert c[x] == b[x];
        RecordsLater(run, n, n + 1, b[x], i);
      }
    }
  }

  /** Nothing a leaf held is touched; what it gains is notes of pages whose orphans
      it is to adopt, each under its own page's number. */
  lemma {:induction false} AdoptedWhereCovered(run: Run, held: seq<seq<Foot>>, n: nat, i: nat)
    requires |held| == |run.spans| && n <= |run.pages| && i < |held|
    ensures Gained(run, n, held[i], AdoptPages(run, held, n)[i], i)
  {
    hide CoverOf, AdoptNotes, Gained;
    if n == 0 {
      GainedNothing(run, 0, held[i], i);
    } else {
      AdoptedWhereCovered(run, held, n - 1, i);
      var before := AdoptPages(run, held, n - 1);
      var cover := CoverOf(run, run.pages[n - 1].number);
      if cover.Some? && cover.value < |held| {
        AdoptNotesGains(run, before, cover.value, n - 1, |run.pages[n - 1].notes|, i);
      } else {
        GainedNothing(run, n, before[i], i);
      }
      GainedChains(run, n - 1, held[i], before[i], AdoptPages(run, held, n)[i], i);
    }
  }

  lemma GainedNothing(run: Run, n: nat, a: seq<Foot>, i: nat)
    requires n <= |run.pages|
    ensures Gained(run, n, a, a, i)
  {
  }

  // ----- the closing sort ------------------------------------------------------

  /** A footnote's number, which the closing sort goes by. */
  function ByRank(rank: string -> int): (Foot, Foot) -> bool {
    (a: Foot, b: Foot) => rank(a.ref) <= rank(b.ref)
  }

  function SortFeet(feet: seq<Foot>, rank: string -> int): seq<Foot> { Sort(feet, ByRank(rank)) }

  /** A sorted leaf lists its footnotes by number, each as often as before. */
  lemma SortFeetAscends(feet: seq<Foot>, rank: string -> int)
    ensures var r := SortFeet(feet, rank);
            && multiset(r) == multiset(feet)
            && forall i, j :: 0 <= i < j < |r| ==> rank(r[i].ref) <= rank(r[j].ref)
  {
    var le := ByRank(rank);
    SortSorts(feet, le);
    var r := Sort(feet, le);
    forall i, j | 0 <= i < j < |r|
      ensures rank(r[i].ref) <= rank(r[j].ref)
    {
      assert le(r[i], r[j]);
    }
  }

  lemma {:induction false} InsertFootCounts(feet: seq<Foot>, foot: Foot, le: (Foot, Foot) -> bool, k: Key)
    ensures CountIn(Insert(feet, foot, le), k) == CountIn(feet + [foot], k)
  {
    hide FootKey;
    assert (feet + [foot])[..|feet|] == feet;
    if feet != [] && !le(feet[|feet| - 1], foot) {
      var front := feet[..|feet| - 1];
      InsertFootCounts(front, foot, le, k);
      assert (front + [foot])[..|front|] == front;
      var r := Insert(front, foot, le);
      assert (r + [feet[|feet| - 1]])[..|r|] == r;
    }
  }

  lemma {:induction false} SortFeetCounts(feet: seq<Foot>, rank: string -> int, k: Key)
    ensures CountIn(SortFeet(feet, rank), k) == CountIn(feet, k)
  {
    hide FootKey;
    if feet != [] {
      var front := feet[..|feet| - 1];
      SortFeetCounts(front, rank, k);
      InsertFootCounts(SortFeet(front, rank), feet[|feet| - 1], ByRank(rank), k);
      var r := SortFeet(front, rank);
      assert (r + [feet[|feet| - 1]])[..|r|] == r;
    }
  }

  function SortAll(held: seq<seq<Foot>>, rank: string -> int): (r: seq<seq<Foot>>)
    ensures |r| == |held| && forall i :: 0 <= i < |r| ==> r[i] == SortFeet(held[i], rank)
  {
    if held == [] then [] else SortAll(held[..|held| - 1], rank) + [SortFeet(held[|held| - 1], rank)]
  }

  lemma {:induction false} SortAllCounts(held: seq<seq<Foot>>, rank: string -> int, k: Key)
    ensures Count(SortAll(held, rank), k) == Count(held, k)
  {
    hide CountIn, SortFeet;
    if held != [] {
      SortAllCounts(held[..|held| - 1], rank, k);
      SortFeetCounts(held[|held| - 1], rank, k);
      var r := SortAll(held[..|held| - 1], rank);
      assert SortAll(held, rank)[..|r|] == r;
    }
  }

  // ----- pages that print one folio --------------------------------------------

  /** How often the covered pages print a key, all together. */
  ghost function Printed(run: Run, n: nat, k: Key): nat
    requires n <= |run.pages|
  {
    if n == 0 then 0 else Printed(run, n - 1, k) + Here(run, n - 1, k)
  }

  /** No two covered pages print the key. */
  ghost predicate OnePagePrints(run: Run, n: nat, k: Key)
    requires n <= |run.pages|
  {
    forall i, j :: 0 <= i < j < n ==> Here(run, i, k) == 0 || Here(run, j, k) == 0
  }

  lemma {:induction false} WantedIsPrinted(run: Run, n: nat, k: Key)
    requires n <= |run.pages|
    ensures Wanted(run, n, k) <= Printed(run, n, k)
    ensures Wanted(run, n, k) == 0 <==> Printed(run, n, k) == 0
    ensures Printed(run, n, k) == 0 <==> forall i :: 0 <= i < n ==> Here(run, i, k) == 0
    ensures Wanted(run, n, k) == Printed(run, n, k) <==> OnePagePrints(run, n, k)
  {
    hide CoverOf, Copies, Here;
    if n > 0 {
      WantedIsPrinted(run, n - 1, k);
    }
  }

  /** A run over leaves that hold none of a note ends with as many as the covered
      pages print together if and only if no two of them print it. */
  lemma SumWhereOnePagePrints(run: Run, held: seq<seq<Foot>>, k: Key)
    requires |held| == |run.spans| && DistinctPages(run.pages) && Count(held, k) == 0
    ensures Count(AdoptPages(run, held, |run.pages|), k) == Printed(run, |run.pages|, k)
        <==> OnePagePrints(run, |run.pages|, k)
  {
    hide Count, Wanted, AdoptPages, Printed, OnePagePrints;
    AdoptionCounts(run, held, |run.pages|, k);
    WantedIsPrinted(run, |run.pages|, k);
  }

  /** Two pages of one folio, each with the same note. */
  function OneFolio(): Run {
    var note := Note("1", "t", "t");
    Run([Page(1, [note]), Page(2, [note])], Folios(map[1 := 7, 2 := 7], 0), map[], [Span(Some(1), Some(2))])
  }

  lemma OneFolioPrints(p: nat)
    requires p < 2
    ensures Here(OneFolio(), p, Key("7.1", "t")) == 1
  {
    var run, k := OneFolio(), Key("7.1", "t");
    var pg := run.pages[p].number;
    CoverIsEarliest(run.spans, pg);
    assert Covers(run.spans[0], pg);
    assert Decimals.Print(7) == "7";
    var notes := run.pages[p].notes;
    assert notes[..0] == [] && NoteKey(run.folios, pg, notes[0]) == k;
    assert Copies(run.folios, pg, notes[..0], k) == 0;
  }

  lemma NothingHeld(k: Key)
    ensures Count([[]], k) == 0
  {
    var held: seq<seq<Foot>> := [[]];
    assert held[..0] == [];
  }

  /** They print it twice together; the one leaf that covers both ends with one. */
  lemma OneFolioIsHeldOnce()
    ensures Printed(OneFolio(), 2, Key("7.1", "t")) == 2
    ensures Count(AdoptPages(OneFolio(), [[]], 2), Key("7.1", "t")) == 1
  {
    var run, k := OneFolio(), Key("7.1", "t");
    hide Here;
    OneFolioPrints(0);
    OneFolioPrints(1);
    assert Printed(run, 1, k) == 1 && Printed(run, 0, k) == 0;
    assert Wanted(run, 0, k) == 0;
    assert Wanted(run, 1, k) == 1;
    NothingHeld(k);
    AdoptionCounts(run, [[]], 2, k);
  }

  // ----- a second run ----------------------------------------------------------

  lemma {:induction false} FullPageAdoptsNothing(run: Run, held: seq<seq<Foot>>, cover: nat, p: nat, n: nat)
    requires cover < |held| && p < |run.pages| && n <= |run.pages[p].notes| && DistinctPages(run.pages)
    requires forall k :: Count(held, k) >= Copies(run.folios, run.pages[p].number, run.pages[p].notes, k)
    ensures AdoptNotes(run, held, cover, p, n) == held
  {
    hide Count, Copies, NoteKey, SourceMult, NewFoot;
    if n > 0 {
      FullPageAdoptsNothing(run, held, cover, p, n - 1);
      CapIsCopies(run, p, run.pages[p].notes[n - 1]);
    }
  }

  lemma {:induction false} FullAdoptsNothing(run: Run, held: seq<seq<Foot>>, n: nat)
    requires |held| == |run.spans| && n <= |run.pages| && DistinctPages(run.pages)
    requires forall k :: Count(held, k) >= Wanted(run, |run.pages|, k)
    ensures AdoptPages(run, held, n) == held
  {
    hide Count, Wanted, AdoptNotes, CoverOf, Copies;
    if n > 0 {
      FullAdoptsNothing(run, held, n - 1);
      var cover := CoverOf(run, run.pages[n - 1].number);
      if cover.Some? && cover.value < |held| {
        forall k
          ensures Count(held, k) >= Copies(run.folios, run.pages[n - 1].number, run.pages[n - 1].notes, k)
        {
          CoverOfExactly(run, run.pages[n - 1].number);
          WantedCovers(run, |run.pages|, n - 1, k);
        }
        FullPageAdoptsNothing(run, held, cover.value, n - 1, |run.pages[n - 1].notes|);
      }
    }
  }

  /** A second run over what the first one left, sorted as it leaves it, adopts
      nothing. */
  lemma SecondRunAdoptsNothing(run: Run, held: seq<seq<Foot>>, rank: string -> int)
    requires |held| == |run.spans| && DistinctPages(run.pages)
    ensures var once := SortAll(AdoptPages(run, held, |run.pages|), rank);
            AdoptPages(run, once, |run.pages|) == once
  {
    hide Count, Wanted, AdoptPages, SortAll;
    var after := AdoptPages(run, held, |run.pages|);
    var once := SortAll(after, rank);
    forall k
      ensures Count(once, k) >= Wanted(run, |run.pages|, k)
    {
      SortAllCounts(after, rank, k);
      AdoptionCounts(run, held, |run.pages|, k);
    }
    FullAdoptsNothing(run, once, |run.pages|);
  }

  // ----- the mutating run ------------------------------------------------------

  ghost predicate DistinctLeaves(leaves: seq<Leaf>) {
    forall i, j :: 0 <= i < j < |leaves| ==> leaves[i] != leaves[j]
  }

  function Spans(leaves: seq<Leaf>): (r: seq<Span>)
    ensures |r| == |leaves| && forall i :: 0 <= i < |r| ==> r[i] == leaves[i].span
  {
    if leaves == [] then [] else Spans(leaves[..|leaves| - 1]) + [leaves[|leaves| - 1].span]
  }

  function Held(leaves: seq<Leaf>): (r: seq<seq<Foot>>)
    reads leaves
    ensures |r| == |leaves| && forall i :: 0 <= i < |r| ==> r[i] == leaves[i].footnotes
  {
    if leaves == [] then [] else Held(leaves[..|leaves| - 1]) + [leaves[|leaves| - 1].footnotes]
  }

  function Have(have: map<Key, nat>, k: Key): nat { if k in have then have[k] else 0 }

  /** The `have` counters, built from what the leaves hold. */
  method CountHeld(leaves: seq<Leaf>) returns (have: map<Key, nat>)
    ensures forall k :: Have(have, k) == Count(Held(leaves), k)
  {
    hide FootKey;
    have := map[];
    var held := Held(leaves);
    for i := 0 to |leaves|
      invariant forall k :: Have(have, k) == Count(held[..i], k)
    {
      var feet := leaves[i].footnotes;
      assert held[..i + 1][..i] == held[..i];
      for x := 0 to |feet|
        invariant forall k :: Have(have, k) == Count(held[..i], k) + CountIn(feet[..x], k)
      {
        assert feet[..x + 1][..x] == feet[..x];
        var k := FootKey(feet[x]);
        have := have[k := Have(have, k) + 1];
      }
      assert feet[..|feet|] == feet;
    }
    assert held[..|leaves|] == held;
  }

  datatype SourceKey = SourceKey(page: nat, marker: string, text: string)

  function Mult(mult: map<SourceKey, nat>, k: SourceKey): nat { if k in mult then mult[k] else 0 }

  /** The `src_mult` counters. */
  method CountSource(pages: seq<Page>) returns (mult: map<SourceKey, nat>)
    ensures forall k :: Mult(mult, k) == SourceMult(pages, k.page, k.marker, k.text)
  {
    mult := map[];
    for p := 0 to |pages|
      invariant forall k :: Mult(mult, k) == SourceMult(pages[..p], k.page, k.marker, k.text)
    {
      var pg, notes := pages[p].number, pages[p].notes;
      assert pages[..p + 1][..p] == pages[..p];
      for x := 0 to |notes|
        invariant forall k :: Mult(mult, k) == SourceMult(pages[..p], k.page, k.marker, k.text)
                                               + if k.page == pg then PageMult(notes[..x], k.marker, k.text) else 0
      {
        assert notes[..x + 1][..x] == notes[..x];
        var k := SourceKey(pg, notes[x].marker, notes[x].text);
        mult := mult[k := Mult(mult, k) + 1];
      }
      assert notes[..|notes|] == notes;
    }
    assert pages[..|pages|] == pages;
  }

  /** The inner loop: the notes of page `p` against the leaf covering it. */
  method AdoptPageNotes(leaves: seq<Leaf>, run: Run, cover: nat, p: nat,
                        have0: map<Key, nat>, mult: map<SourceKey, nat>)
    returns (have: map<Key, nat>, adopted: nat)
    requires DistinctLeaves(leaves) && cover < |leaves| && p < |run.pages|
    requires forall k :: Have(have0, k) == Count(Held(leaves), k)
    requires forall k :: Mult(mult, k) == SourceMult(run.pages, k.page, k.marker, k.text)
    modifies leaves[cover]
    ensures Held(leaves) == AdoptNotes(run, old(Held(leaves)), cover, p, |run.pages[p].notes|)
    ensures forall k :: Have(have, k) == Count(Held(leaves), k)
    ensures adopted == Total(Held(leaves)) - Total(old(Held(leaves)))
  {
    hide Count, SourceMult, NoteKey, FootKey, NewFoot, Total, Held;
    var pg, notes := run.pages[p].number, run.pages[p].notes;
    have, adopted := have0, 0;
    ghost var start := Held(leaves);
    for n := 0 to |notes|
      invariant Held(leaves) == AdoptNotes(run, start, cover, p, n)
      invariant forall k :: Have(have, k) == Count(Held(leaves), k)
      invariant adopted == Total(Held(leaves)) - Total(start)
    {
      var key := NoteKey(run.folios, pg, notes[n]);
      var sourceKey := SourceKey(pg, notes[n].marker, notes[n].text);
      if Have(have, key) < Mult(mult, sourceKey) {
        ghost var before := Held(leaves);
        var foot := NewFoot(run.folios, pg, notes[n]);
        have := have[key := Have(have, key) + 1];
        leaves[cover].footnotes := leaves[cover].footnotes + [foot];
        adopted := adopted + 1;
        assert Held(leaves) == before[cover := before[cover] + [foot]];
        NewFootKey(run.folios, pg, notes[n]);
        forall k
          ensures Count(Held(leaves), k) == Count(before, k) + if k == key then 1 else 0
          ensures Total(Held(leaves)) == Total(before) + 1
        {
          CountAfterAppend(before, cover, foot, k);
        }
      }
    }
  }

  /** The closing loop, which sorts every leaf's footnotes. */
  method SortLeaves(leaves: seq<Leaf>, rank: string -> int)
    requires DistinctLeaves(leaves)
    modifies leaves
    ensures Held(leaves) == SortAll(old(Held(leaves)), rank)
  {
    hide SortFeet, SortAll, Held;
    ghost var before := Held(leaves);
    for i := 0 to |leaves|
      invariant forall j :: 0 <= j < i ==> leaves[j].footnotes == SortFeet(before[j], rank)
      invariant forall j :: i <= j < |leaves| ==> leaves[j].footnotes == before[j]
    {
      leaves[i].footnotes := SortFeet(leaves[i].footnotes, rank);
    }
  }

  /** `adopt_orphan_footnotes`. */
  method AdoptOrphans(leaves: seq<Leaf>, run: Run, rank: string -> int) returns (adopted: nat)
    requires DistinctLeaves(leaves) && run.spans == Spans(leaves)
    modifies leaves
    ensures Held(leaves) == SortAll(AdoptPages(run, old(Held(leaves)), |run.pages|), rank)
    ensures adopted == Total(AdoptPages(run, old(Held(leaves)), |run.pages|)) - Total(old(Held(leaves)))
  {
    hide Count, CoverOf, AdoptNotes, SourceMult, Total, SortAll, Held, DistinctLeaves, Have, Mult, Spans;
    var have := CountHeld(leaves);
    var mult := CountSource(run.pages);
    adopted := 0;
    ghost var start := Held(leaves);
    for p := 0 to |run.pages|
      invariant Held(leaves) == AdoptPages(run, start, p)
      invariant forall k :: Have(have, k) == Count(Held(leaves), k)
      invariant adopted == Total(Held(leaves)) - Total(start)
    {
      var cover := CoverOf(run, run.pages[p].number);
      CoverOfExactly(run, run.pages[p].number);
      if cover.Some? {
        var more;
        have, more := AdoptPageNotes(leaves, run, cover.value, p, have, mult);
        adopted := adopted + more;
      }
    }
    SortLeaves(leaves, rank);
  }
}

/** Re-paging an export against its rendered pages (`remap`): every leaf is looked up
    by its heading near where the running offset expects it. */
module Remap {
  import opened Common

  const WINDOW := 12
  const CONTENTS_MIN := 10

  // ----- what a leaf carries ---------------------------------------------------

  /** The page fields of a leaf; a footnote's page may be no number. */
  datatype PageFields = PageFields(
    startPage: Option<int>, endPage: Option<int>, pageNumber: Option<int>, footnotes: seq<Option<int>>)

  /** A page field that is missing or 0 falls back. */
  function OrElse(page: Option<int>, other: int): int {
    if page.Some? && page.value != 0 then page.value else other
  }

  function Start(f: PageFields): int { OrElse(f.startPage, f.pageNumber.GetOr(0)) }

  function End(f: PageFields): int { OrElse(f.endPage, Start(f)) }

  function Clamp(x: int, lo: int, hi: int): int { Min(Max(x, lo), hi) }

  function MoveNotes(notes: seq<Option<int>>, shift: int, lo: int, hi: int): (r: seq<Option<int>>)
    ensures |r| == |notes|
    ensures forall i :: 0 <= i < |r| ==>
      r[i] == if notes[i].Some? then Some(Clamp(notes[i].value + shift, lo, hi)) else None
  {
    if notes == [] then []
    else
      var last := notes[|notes| - 1];
      MoveNotes(notes[..|notes| - 1], shift, lo, hi)
      + [if last.Some? then Some(Clamp(last.value + shift, lo, hi)) else None]
  }

  /** `_move`. */
  function Moved(f: PageFields, start: int, newStart: int, newEnd: int): PageFields {
    PageFields(Some(newStart), Some(newEnd), if f.pageNumber.Some? then Some(newStart) else None,
               MoveNotes(f.footnotes, newStart - start, newStart, newEnd))
  }

  class Leaf {
    const keys: seq<string>
    var fields: PageFields

    method Move(start: int, newStart: int, newEnd: int)
      modifies this
      ensures fields == Moved(old(fields), start, newStart, newEnd)
    {
      var number := if fields.pageNumber.Some? then Some(newStart) else None;
      var notes := fields.footnotes;
      ghost var was := notes;
      for i := 0 to |notes|
        invariant |notes| == |was|
        invariant forall k :: 0 <= k < i ==>
          notes[k] == if was[k].Some? then Some(Clamp(was[k].value + (newStart - start), newStart, newEnd)) else None
        invariant forall k :: i <= k < |notes| ==> notes[k] == was[k]
      {
        if notes[i].Some? {
          notes := notes[i := Some(Min(Max(notes[i].value + newStart - start, newStart), newEnd))];
        }
      }
      assert notes == MoveNotes(was, newStart - start, newStart, newEnd);
      fields := PageFields(Some(newStart), Some(newEnd), number, notes);
    }
  }

  // ----- the leaves in page order ----------------------------------------------

  /** One leaf as the walk sees it; `walkable` when its page is no default. */
  datatype Item = Item(leaf: nat, start: int, end: int, keys: seq<string>, walkable: bool)

  function High(fields: seq<PageFields>): int {
    if fields == [] then 0 else Max(High(fields[..|fields| - 1]), Start(fields[|fields| - 1]))
  }

  function Items(fields: seq<PageFields>, keys: seq<seq<string>>): (r: seq<Item>)
    requires |keys| == |fields|
    ensures |r| == |fields|
  {
    if fields == [] then []
    else
      var n := |fields| - 1;
      var f := fields[n];
      Items(fields[..n], keys[..n]) + [Item(n, Start(f), End(f), keys[n], Start(f) >= High(fields[..n]) - WINDOW)]
  }

  lemma {:induction false} ItemsAreLeaves(fields: seq<PageFields>, keys: seq<seq<string>>, i: nat)
    requires i < |fields| == |keys|
    ensures var item := Items(fields, keys)[i]; item.leaf == i && item.start == Start(fields[i]) && item.keys == keys[i]
  {
    hide Start, End, High;
    if i < |fields| - 1 {
      ItemsAreLeaves(fields[..|fields| - 1], keys[..|fields| - 1], i);
    }
  }

  predicate NoLater(a: Item, b: Item) { a.start <= b.start }

  function SortItems(items: seq<Item>): (r: seq<Item>)
    ensures |r| == |items|
  {
    Sort(items, NoLater)
  }

  ghost predicate ByStart(items: seq<Item>) {
    forall i, j :: 0 <= i < j < |items| ==> items[i].start <= items[j].start
  }

  ghost predicate DistinctLeaves(items: seq<Item>) {
    forall i, j :: 0 <= i < j < |items| ==> items[i].leaf != items[j].leaf
  }

  predicate OtherLeaf(a: Item, b: Item) { a.leaf != b.leaf }

  lemma SortItemsSorts(items: seq<Item>)
    requires DistinctLeaves(items)
    ensures ByStart(SortItems(items)) && DistinctLeaves(SortItems(items))
    ensures forall y :: y in SortItems(items) <==> y in items
  {
    SortSorts(items, NoLater);
    SortKeepsPairs(items, NoLater, OtherLeaf);
    SortedMembers(items, NoLater);
    var r := SortItems(items);
    forall i, j | 0 <= i < j < |r|
      ensures r[i].start <= r[j].start && r[i].leaf != r[j].leaf
    {
      assert NoLater(r[i], r[j]) && OtherLeaf(r[i], r[j]);
    }
  }

  // ----- contents pages --------------------------------------------------------

  predicate Occurs(key: string, text: string) {
    key <= text || (text != "" && Occurs(key, text[1..]))
  }

  function Headings(items: seq<Item>): seq<string> {
    if items == [] then []
    else
      var before, last := Headings(items[..|items| - 1]), items[|items| - 1];
      if last.keys != [] && last.keys[0] !in before then before + [last.keys[0]] else before
  }

  function Named(headings: seq<string>, text: string): nat {
    if headings == [] then 0
    else Named(headings[..|headings| - 1], text) + if Occurs(headings[|headings| - 1], text) then 1 else 0
  }

  /** The rendered pages, and the headings that tell contents from body. */
  datatype Book = Book(pages: seq<string>, headings: seq<string>)

  predicate IsContents(book: Book, page: int)
    requires 1 <= page <= |book.pages|
  {
    Named(book.headings, book.pages[page - 1]) >= CONTENTS_MIN
  }

  /** A page outside the contents that prints the key. */
  predicate Prints(book: Book, key: string, page: int) {
    1 <= page <= |book.pages| && !IsContents(book, page) && Occurs(key, book.pages[page - 1])
  }

  // ----- finding a leaf --------------------------------------------------------

  /** The page nearest to `expected` among those of `lo..hi` that print the key; the
      earlier of two. */
  function Nearest(book: Book, key: string, lo: int, hi: int, expected: int): (r: Option<int>)
    ensures r.None? <==> forall p :: lo <= p <= hi ==> !Prints(book, key, p)
    ensures r.Some? ==> lo <= r.value <= hi && Prints(book, key, r.value)
    ensures r.Some? ==> forall p :: lo <= p <= hi && Prints(book, key, p) ==>
      Abs(r.value - expected) < Abs(p - expected) || (Abs(r.value - expected) == Abs(p - expected) && r.value <= p)
    decreases hi - lo + 1
  {
    if lo > hi then None
    else
      var best := Nearest(book, key, lo, hi - 1, expected);
      if Prints(book, key, hi) && (best.None? || Abs(hi - expected) < Abs(best.value - expected))
          then Some(hi) else best
  }

  /** The first key that any page of the window prints decides. */
  function Hit(book: Book, keys: seq<string>, lo: int, hi: int, expected: int): (r: Option<int>)
    ensures r.Some? ==> lo <= r.value <= hi && exists k :: 0 <= k < |keys| && Prints(book, keys[k], r.value)
  {
    if keys == [] then None
    else
      var first := Nearest(book, keys[0], lo, hi, expected);
      if first.Some? then first
      else
        var rest := Hit(book, keys[1..], lo, hi, expected);
        assert forall k :: 0 <= k < |keys[1..]| ==> keys[1..][k] == keys[k + 1];
        rest
  }

  datatype Placed = Placed(item: Item, newStart: int)

  datatype Walker = Walker(offset: int, cursor: int, located: nat, placed: seq<Placed>)

  function WindowOf(w: Walker): int { if w.located > 0 then WINDOW else 3 * WINDOW }

  function Step(book: Book, w: Walker, item: Item): Walker {
    var total, expected := |book.pages|, item.start + w.offset;
    var lo, hi := Max(w.cursor, expected - WindowOf(w)), Min(total, expected + WindowOf(w));
    var hit := Hit(book, item.keys, lo, hi, expected);
    if hit.Some? then Walker(hit.value - item.start, hit.value, w.located + 1, w.placed + [Placed(item, hit.value)])
    else
      var at := Min(Max(expected, w.cursor), total);
      Walker(w.offset, at, w.located, w.placed + [Placed(item, at)])
  }

  function Walk(book: Book, items: seq<Item>): Walker {
    if items == [] then Walker(0, 1, 0, [])
    else
      var before, last := Walk(book, items[..|items| - 1]), items[|items| - 1];
      if last.walkable then Step(book, before, last) else before
  }

  // ----- end pages -------------------------------------------------------------

  function NewEnd(placed: seq<Placed>, k: nat, total: int): int
    requires k < |placed|
  {
    var p := placed[k];
    var end := if k + 1 < |placed| then
                 (if p.item.end >= placed[k + 1].item.start then placed[k + 1].newStart else placed[k + 1].newStart - 1)
               else p.newStart + (p.item.end - p.item.start);
    Min(Max(end, p.newStart), total)
  }

  /** A page move of one leaf. */
  datatype Shift = Shift(leaf: nat, start: int, newStart: int, newEnd: int)

  function WalkShifts(placed: seq<Placed>, n: nat, total: int): (r: seq<Shift>)
    requires n <= |placed|
    ensures |r| == n
    ensures forall k :: 0 <= k < n ==>
      r[k] == Shift(placed[k].item.leaf, placed[k].item.start, placed[k].newStart, NewEnd(placed, k, total))
  {
    if n == 0 then []
    else
      var p := placed[n - 1];
      WalkShifts(placed, n - 1, total) + [Shift(p.item.leaf, p.item.start, p.newStart, NewEnd(placed, n - 1, total))]
  }

  // ----- leaves declared on a default page -------------------------------------

  function PrintedOn(book: Book, key: string, n: nat): seq<int> {
    if n == 0 then [] else PrintedOn(book, key, n - 1) + if Prints(book, key, n) then [n as int] else []
  }

  function Hits(book: Book, keys: seq<string>): seq<int> {
    if keys == [] then []
    else
      var found := PrintedOn(book, keys[0], |book.pages|);
      if found != [] then found else Hits(book, keys[1..])
  }

  /** Such a leaf is placed only where its heading prints exactly once. */
  function LateShifts(book: Book, items: seq<Item>): seq<Shift> {
    if items == [] then []
    else
      var before, last := LateShifts(book, items[..|items| - 1]), items[|items| - 1];
      var hits := Hits(book, last.keys);
      if !last.walkable && |hits| == 1 then
        before + [Shift(last.leaf, last.start, hits[0], Min(hits[0] + (last.end - last.start), |book.pages|))]
      else before
  }

  /** All moves of one run, in the order they are made. */
  function Shifts(book: Book, items: seq<Item>): seq<Shift> {
    var placed := Walk(book, items).placed;
    WalkShifts(placed, |placed|, |book.pages|) + LateShifts(book, items)
  }

  // ----- the walk --------------------------------------------------------------

  ghost predicate Rises(w: Walker, total: int) {
    && 1 <= w.cursor <= total
    && (forall k :: 0 <= k < |w.placed| ==> 1 <= w.placed[k].newStart <= w.cursor)
    && (forall j, k :: 0 <= j < k < |w.placed| ==> w.placed[j].newStart <= w.placed[k].newStart)
  }

  lemma StepRises(book: Book, w: Walker, item: Item)
    requires Rises(w, |book.pages|)
    ensures Rises(Step(book, w, item), |book.pages|)
  {
    hide Hit;
    var v := Step(book, w, item);
    assert w.cursor <= v.cursor <= |book.pages|;
  }

  /** New starts never step back and stay inside the rendered pages. */
  lemma {:induction false} StartsRise(book: Book, items: seq<Item>)
    requires book.pages != []
    ensures Rises(Walk(book, items), |book.pages|)
  {
    hide Step;
    if items != [] {
      StartsRise(book, items[..|items| - 1]);
      StepRises(book, Walk(book, items[..|items| - 1]), items[|items| - 1]);
    }
  }

  /** A leaf ends where its successor starts when the two shared a page, else one page
      earlier, but never before its own start; the last one keeps its length, as far
      as there are pages. */
  lemma EndsMeet(book: Book, items: seq<Item>, k: nat)
    requires book.pages != [] && k < |Walk(book, items).placed|
    ensures var placed, total := Walk(book, items).placed, |book.pages|;
            && 1 <= placed[k].newStart <= NewEnd(placed, k, total) <= total
            && (k + 1 < |placed| ==>
                  NewEnd(placed, k, total) ==
                  if placed[k].item.end >= placed[k + 1].item.start then placed[k + 1].newStart
                  else Max(placed[k + 1].newStart - 1, placed[k].newStart))
            && (k + 1 == |placed| ==>
                  NewEnd(placed, k, total) ==
                  Min(total, placed[k].newStart + Max(0, placed[k].item.end - placed[k].item.start)))
  {
    hide Walk;
    StartsRise(book, items);
  }

  ghost predicate CoversPage(placed: seq<Placed>, k: nat, total: int, page: int)
    requires k < |placed|
  {
    placed[k].newStart <= page <= NewEnd(placed, k, total)
  }

  lemma {:induction false} CoveredFrom(book: Book, items: seq<Item>, k: nat, page: int) returns (c: nat)
    requires book.pages != [] && k < |Walk(book, items).placed|
    requires var placed := Walk(book, items).placed;
             placed[k].newStart <= page <= NewEnd(placed, |placed| - 1, |book.pages|)
    ensures c < |Walk(book, items).placed| && CoversPage(Walk(book, items).placed, c, |book.pages|, page)
    decreases |Walk(book, items).placed| - k
  {
    var placed := Walk(book, items).placed;
    if page <= NewEnd(placed, k, |book.pages|) {
      c := k;
    } else {
      EndsMeet(book, items, k);
      hide Walk, NewEnd;
      c := CoveredFrom(book, items, k + 1, page);
    }
  }

  /** No page is lost between leaves: from the first leaf's start to the last one's
      end every page belongs to a leaf. */
  lemma PagesAreCovered(book: Book, items: seq<Item>, page: int)
    requires book.pages != [] && Walk(book, items).placed != []
    requires var placed := Walk(book, items).placed;
             placed[0].newStart <= page <= NewEnd(placed, |placed| - 1, |book.pages|)
    ensures exists c ::
              0 <= c < |Walk(book, items).placed| && CoversPage(Walk(book, items).placed, c, |book.pages|, page)
  {
    var c := CoveredFrom(book, items, 0, page);
  }

  // ----- the footnotes ---------------------------------------------------------

  /** Every numbered footnote of a moved leaf lies inside it if and only if the leaf
      does not end before it starts; then it keeps its distance from the start where
      that fits. In a reversed leaf every one lands on the end page. */
  lemma NotesStayInside(f: PageFields, start: int, newStart: int, newEnd: int, i: nat)
    requires i < |f.footnotes|
    ensures var notes := Moved(f, start, newStart, newEnd).footnotes;
            && |notes| == |f.footnotes| && (notes[i].Some? <==> f.footnotes[i].Some?)
            && (notes[i].Some? ==> (newStart <= notes[i].value <= newEnd <==> newStart <= newEnd))
            && (notes[i].Some? && newEnd < newStart ==> notes[i].value == newEnd)
            && (notes[i].Some? && newStart <= f.footnotes[i].value + newStart - start <= newEnd ==>
                  notes[i].value - newStart == f.footnotes[i].value - start)
  {
  }

  // ----- the exactly-once rule -------------------------------------------------

  /** The first key that prints anywhere prints on page `p` and no other. */
  ghost predicate PrintsOnce(book: Book, keys: seq<string>, p: int) {
    exists q :: 0 <= q < |keys| && DecidesOn(book, keys, q, p)
  }

  ghost predicate DecidesOn(book: Book, keys: seq<string>, q: nat, p: int)
    requires q < |keys|
  {
    && (forall j :: 0 <= j < q ==> !PrintsAnywhere(book, keys[j]))
    && (forall x :: Prints(book, keys[q], x) <==> x == p)
  }

  ghost predicate PrintsAnywhere(book: Book, key: string) { exists x :: Prints(book, key, x) }

  lemma {:induction false} PrintedOnLists(book: Book, key: string, n: nat)
    requires n <= |book.pages|
    ensures forall x :: x in PrintedOn(book, key, n) <==> x <= n && Prints(book, key, x)
    ensures forall i, j :: 0 <= i < j < |PrintedOn(book, key, n)| ==>
        PrintedOn(book, key, n)[i] < PrintedOn(book, key, n)[j]
  {
    hide Occurs, IsContents;
    if n > 0 {
      PrintedOnLists(book, key, n - 1);
      var before := PrintedOn(book, key, n - 1);
      forall i | 0 <= i < |before|
        ensures before[i] < n
      {
        assert before[i] in before;
      }
    }
  }

  lemma OneOnly(s: seq<int>, p: int)
    requires forall i, j :: 0 <= i < j < |s| ==> s[i] < s[j]
    ensures s == [p] <==> forall x :: x in s <==> x == p
  {
    if forall x :: x in s <==> x == p {
      assert p in s;
      assert s[0] in s && s[|s| - 1] in s;
    }
  }

  lemma {:induction false} HitsOnce(book: Book, keys: seq<string>, p: int)
    ensures Hits(book, keys) == [p] <==> PrintsOnce(book, keys, p)
  {
    hide Prints;
    if keys != [] {
      var found := PrintedOn(book, keys[0], |book.pages|);
      PrintedOnLists(book, keys[0], |book.pages|);
      InBook(book, keys[0]);
      OneOnly(found, p);
      if found != [] {
        assert found[0] in found && PrintsAnywhere(book, keys[0]);
        FirstDecides(book, keys, p);
      } else {
        assert !PrintsAnywhere(book, keys[0]);
        HitsOnce(book, keys[1..], p);
        LaterDecides(book, keys, p);
      }
    }
  }

  lemma InBook(book: Book, key: string)
    ensures forall x :: Prints(book, key, x) ==> x <= |book.pages|
  {
  }

  lemma FirstDecides(book: Book, keys: seq<string>, p: int)
    requires keys != [] && PrintsAnywhere(book, keys[0])
    ensures PrintsOnce(book, keys, p) <==> forall x :: Prints(book, keys[0], x) <==> x == p
  {
    hide Prints, PrintsAnywhere;
    if forall x :: Prints(book, keys[0], x) <==> x == p {
      assert DecidesOn(book, keys, 0, p);
    }
  }

  lemma LaterDecides(book: Book, keys: seq<string>, p: int)
    requires keys != [] && !PrintsAnywhere(book, keys[0])
    ensures PrintsOnce(book, keys, p) <==> PrintsOnce(book, keys[1..], p)
  {
    hide Prints;
    if PrintsOnce(book, keys, p) {
      var q :| 0 <= q < |keys| && DecidesOn(book, keys, q, p);
      assert Prints(book, keys[q], p);
      assert q > 0;
      assert DecidesOn(book, keys[1..], q - 1, p);
    }
    if PrintsOnce(book, keys[1..], p) {
      var q :| 0 <= q < |keys[1..]| && DecidesOn(book, keys[1..], q, p);
      assert keys[1..][q] == keys[q + 1];
      forall j | 0 <= j < q + 1
        ensures !PrintsAnywhere(book, keys[j])
      {
        assert j > 0 ==> keys[j] == keys[1..][j - 1];
      }
      assert DecidesOn(book, keys, q + 1, p);
    }
  }

  /** The late move of a leaf to page `p`. */
  function LateMove(book: Book, item: Item, p: int): Shift {
    Shift(item.leaf, item.start, p, Min(p + (item.end - item.start), |book.pages|))
  }

  ghost predicate LateFrom(book: Book, items: seq<Item>, s: Shift) {
    exists i :: 0 <= i < |items| && !items[i].walkable && PrintsOnce(book, items[i].keys, s.newStart)
                && s == LateMove(book, items[i], s.newStart)
  }

  /** The late moves are exactly these: each leaf off the walk whose first printing
      key prints on one page only, to that page, its length kept. */
  lemma {:induction false} LateExactlyOnce(book: Book, items: seq<Item>)
    ensures forall s :: s in LateShifts(book, items) <==> LateFrom(book, items, s)
  {
    hide Hits, PrintsOnce, Min;
    if items != [] {
      var front, last := items[..|items| - 1], items[|items| - 1];
      LateExactlyOnce(book, front);
      forall s
        ensures s in LateShifts(book, items) <==> LateFrom(book, items, s)
      {
        HitsOnce(book, last.keys, s.newStart);
        LateFromLast(book, items, s);
        var hits := Hits(book, last.keys);
        assert s in LateShifts(book, items)
          <==> s in LateShifts(book, front) || (!last.walkable && |hits| == 1 && s == LateMove(book, last, hits[0]));
        assert hits == [s.newStart] <==> |hits| == 1 && hits[0] == s.newStart;
      }
    }
  }

  lemma LateFromLast(book: Book, items: seq<Item>, s: Shift)
    requires items != []
    ensures var front, last := items[..|items| - 1], items[|items| - 1];
            LateFrom(book, items, s) <==>
              LateFrom(book, front, s)
              || (!last.walkable && PrintsOnce(book, last.keys, s.newStart) && s == LateMove(book, last, s.newStart))
  {
    hide PrintsOnce, LateMove;
    var front, last := items[..|items| - 1], items[|items| - 1];
    if LateFrom(book, front, s) {
      var i :| 0 <= i < |front| && !front[i].walkable && PrintsOnce(book, front[i].keys, s.newStart)
               && s == LateMove(book, front[i], s.newStart);
      assert items[i] == front[i];
    }
    if LateFrom(book, items, s) {
      var i :| 0 <= i < |items| && !items[i].walkable && PrintsOnce(book, items[i].keys, s.newStart)
               && s == LateMove(book, items[i], s.newStart);
      assert i < |front| ==> items[i] == front[i];
    }
  }

  // ----- an exact shift --------------------------------------------------------

  /** The first key prints on one page only, `d` pages from the declared one. */
  ghost predicate PrintsAt(book: Book, item: Item, d: int) {
    && item.keys != []
    && forall p :: Prints(book, item.keys[0], p) <==> p == item.start + d
  }

  ghost predicate AllPrintAt(book: Book, items: seq<Item>, d: int) {
    forall i :: 0 <= i < |items| ==> PrintsAt(book, items[i], d)
  }

  /** The walk has found every leaf so far, all moved by `d`. */
  ghost predicate Shifted(w: Walker, items: seq<Item>, d: int) {
    && w.located == |w.placed|
    && (if w.located == 0 then w.offset == 0 && w.cursor == 1
        else w.offset == d && exists i :: 0 <= i < |items| && w.cursor == items[i].start + d)
    && forall k :: 0 <= k < |w.placed| ==> w.placed[k].newStart == w.placed[k].item.start + d
  }

  lemma HitIsThere(book: Book, item: Item, d: int, lo: int, hi: int, expected: int)
    requires PrintsAt(book, item, d) && lo <= item.start + d <= hi
    ensures Hit(book, item.keys, lo, hi, expected) == Some(item.start + d)
  {
    hide Nearest, Prints;
    assert Prints(book, item.keys[0], item.start + d);
  }

  lemma {:induction false} WalkShiftsBy(book: Book, items: seq<Item>, d: int)
    requires book.pages != [] && ByStart(items) && AllPrintAt(book, items, d) && -3 * WINDOW <= d <= 3 * WINDOW
    ensures Shifted(Walk(book, items), items, d)
  {
    hide Step, Prints, PrintsAt;
    if items != [] {
      var front, last := items[..|items| - 1], items[|items| - 1];
      assert AllPrintAt(book, front, d);
      WalkShiftsBy(book, front, d);
      var w := Walk(book, front);
      assert PrintsAt(book, last, d);
      assert Shifted(w, items, d) && (w.located > 0 ==> w.cursor <= last.start + d) by {
        if w.located > 0 {
          var i :| 0 <= i < |front| && w.cursor == front[i].start + d;
          assert items[i] == front[i];
        }
      }
      StepShifts(book, w, items, d);
    }
  }

  lemma StepShifts(book: Book, w: Walker, items: seq<Item>, d: int)
    requires items != [] && Shifted(w, items, d) && PrintsAt(book, items[|items| - 1], d)
        && -3 * WINDOW <= d <= 3 * WINDOW
    requires w.located > 0 ==> w.cursor <= items[|items| - 1].start + d
    ensures Shifted(Step(book, w, items[|items| - 1]), items, d)
  {
    var item := items[|items| - 1];
    StepHits(book, w, item, d);
    hide PrintsAt, Step;
    var v := Step(book, w, item);
    assert v.cursor == items[|items| - 1].start + d;
  }

  lemma InsidePages(book: Book, item: Item, d: int)
    requires PrintsAt(book, item, d)
    ensures 1 <= item.start + d <= |book.pages|
  {
    hide IsContents, Occurs;
    assert Prints(book, item.keys[0], item.start + d);
  }

  lemma StepHits(book: Book, w: Walker, item: Item, d: int)
    requires PrintsAt(book, item, d) && -3 * WINDOW <= d <= 3 * WINDOW
    requires if w.located == 0 then w.offset == 0 && w.cursor == 1 else w.offset == d && w.cursor <= item.start + d
    ensures Step(book, w, item) == Walker(d, item.start + d, w.located + 1, w.placed + [Placed(item, item.start + d)])
  {
    hide PrintsAt, Hit;
    var total, expected := |book.pages|, item.start + w.offset;
    InsidePages(book, item, d);
    HitIsThere(book, item, d, Max(w.cursor, expected - WindowOf(w)), Min(total, expected + WindowOf(w)), expected);
  }

  lemma {:induction false} PrintedOnOne(book: Book, item: Item, d: int, n: nat)
    requires PrintsAt(book, item, d) && n <= |book.pages|
    ensures PrintedOn(book, item.keys[0], n) == if 1 <= item.start + d <= n then [item.start + d] else []
  {
    hide Prints;
    if n > 0 {
      PrintedOnOne(book, item, d, n - 1);
    }
  }

  function CountLate(items: seq<Item>): nat {
    if items == [] then 0 else CountLate(items[..|items| - 1]) + if items[|items| - 1].walkable then 0 else 1
  }

  lemma {:induction false} LateShiftsBy(book: Book, items: seq<Item>, d: int)
    requires AllPrintAt(book, items, d)
    ensures |LateShifts(book, items)| == CountLate(items)
    ensures forall k :: 0 <= k < |LateShifts(book, items)| ==>
      LateShifts(book, items)[k].newStart == LateShifts(book, items)[k].start + d
  {
    hide PrintsAt, PrintedOn, Prints;
    if items != [] {
      var front, last := items[..|items| - 1], items[|items| - 1];
      assert AllPrintAt(book, front, d);
      LateShiftsBy(book, front, d);
      assert PrintsAt(book, last, d);
      HitsOne(book, last, d);
    }
  }

  lemma HitsOne(book: Book, item: Item, d: int)
    requires PrintsAt(book, item, d)
    ensures Hits(book, item.keys) == [item.start + d]
  {
    PrintedOnOne(book, item, d, |book.pages|);
    assert Prints(book, item.keys[0], item.start + d);
  }

  lemma {:induction false} WalkPlacesWalkable(book: Book, items: seq<Item>)
    ensures |Walk(book, items).placed| + CountLate(items) == |items|
  {
    hide Hit;
    if items != [] {
      WalkPlacesWalkable(book, items[..|items| - 1]);
    }
  }

  /** When every leaf's heading prints once outside the contents, all of them `d`
      pages from where they are declared and `d` within the widest window, every leaf
      moves, by exactly `d`. */
  lemma EveryLeafMovesBy(book: Book, items: seq<Item>, d: int)
    requires book.pages != [] && ByStart(items) && AllPrintAt(book, items, d) && -3 * WINDOW <= d <= 3 * WINDOW
    ensures |Shifts(book, items)| == |items|
    ensures forall k :: 0 <= k < |items| ==> Shifts(book, items)[k].newStart == Shifts(book, items)[k].start + d
  {
    hide AllPrintAt, ByStart, Walk, LateShifts;
    WalkShiftsBy(book, items, d);
    LateShiftsBy(book, items, d);
    WalkPlacesWalkable(book, items);
  }

  // ----- applying the moves ----------------------------------------------------

  function Apply(fields: seq<PageFields>, shifts: seq<Shift>): (r: seq<PageFields>)
    ensures |r| == |fields|
  {
    if shifts == [] then fields
    else
      var before, s := Apply(fields, shifts[..|shifts| - 1]), shifts[|shifts| - 1];
      if s.leaf < |fields| then before[s.leaf := Moved(before[s.leaf], s.start, s.newStart, s.newEnd)] else before
  }

  ghost predicate MovesOnce(shifts: seq<Shift>) {
    forall i, j :: 0 <= i < j < |shifts| ==> shifts[i].leaf != shifts[j].leaf
  }

  /** Where no leaf is moved twice, a leaf with a move has just that move made, and
      every other leaf keeps its fields. */
  lemma {:induction false} ApplyOnce(fields: seq<PageFields>, shifts: seq<Shift>, leaf: nat)
    requires MovesOnce(shifts) && leaf < |fields|
    ensures (forall k :: 0 <= k < |shifts| ==> shifts[k].leaf != leaf) ==> Apply(fields, shifts)[leaf] == fields[leaf]
    ensures forall k :: 0 <= k < |shifts| && shifts[k].leaf == leaf ==>
      Apply(fields, shifts)[leaf] == Moved(fields[leaf], shifts[k].start, shifts[k].newStart, shifts[k].newEnd)
  {
    hide Moved;
    if shifts != [] {
      ApplyOnce(fields, shifts[..|shifts| - 1], leaf);
    }
  }

  /** The placed leaves and the late ones, by leaf. */
  ghost predicate FromItems(shifts: seq<Shift>, items: seq<Item>, walkable: bool) {
    forall k :: 0 <= k < |shifts| ==> MadeFrom(shifts[k], items, walkable)
  }

  ghost predicate MadeFrom(s: Shift, items: seq<Item>, walkable: bool) {
    exists i :: 0 <= i < |items| && items[i].leaf == s.leaf && items[i].start == s.start
        && items[i].walkable == walkable
  }

  lemma {:induction false} LateShiftsOnce(book: Book, items: seq<Item>)
    requires DistinctLeaves(items)
    ensures MovesOnce(LateShifts(book, items)) && FromItems(LateShifts(book, items), items, false)
  {
    hide Hits;
    if items != [] {
      var front, last := items[..|items| - 1], items[|items| - 1];
      LateShiftsOnce(book, front);
      var before := LateShifts(book, front);
      forall k | 0 <= k < |before|
        ensures before[k].leaf != last.leaf && MadeFrom(before[k], items, false)
      {
        assert MadeFrom(before[k], front, false);
        var i :| 0 <= i < |front| && front[i].leaf == before[k].leaf && front[i].start == before[k].start
            && !front[i].walkable;
        assert items[i] == front[i];
      }
      assert items[|items| - 1] == last;
    }
  }

  lemma StepPlaces(book: Book, w: Walker, item: Item)
    ensures var v := Step(book, w, item);
            |v.placed| == |w.placed| + 1 && v.placed[..|w.placed|] == w.placed && v.placed[|w.placed|].item == item
  {
    hide Hit;
  }

  ghost predicate PlacedOnce(placed: seq<Placed>, items: seq<Item>) {
    && (forall k :: 0 <= k < |placed| ==> placed[k].item in items && placed[k].item.walkable)
    && (forall j, k :: 0 <= j < k < |placed| ==> placed[j].item.leaf != placed[k].item.leaf)
  }

  lemma {:induction false} WalkPlacesOnce(book: Book, items: seq<Item>)
    requires DistinctLeaves(items)
    ensures PlacedOnce(Walk(book, items).placed, items)
  {
    hide Step;
    if items != [] {
      var front, last := items[..|items| - 1], items[|items| - 1];
      StepPlaces(book, Walk(book, front), last);
      WalkPlacesOnce(book, front);
      var before := Walk(book, front).placed;
      assert items == front + [last];
      forall k | 0 <= k < |before|
        ensures before[k].item.leaf != last.leaf
      {
        assert before[k].item in front;
      }
    }
  }

  /** No leaf is moved twice, and each from its declared page. */
  lemma ShiftsMoveOnce(book: Book, items: seq<Item>)
    requires DistinctLeaves(items)
    ensures MovesOnce(Shifts(book, items))
    ensures forall k :: 0 <= k < |Shifts(book, items)| ==>
      exists i :: 0 <= i < |items| && items[i].leaf == Shifts(book, items)[k].leaf
          && items[i].start == Shifts(book, items)[k].start
  {
    WalkPlacesOnce(book, items);
    LateShiftsOnce(book, items);
    hide Walk, LateShifts, NewEnd;
    var placed, late := Walk(book, items).placed, LateShifts(book, items);
    var first := WalkShifts(placed, |placed|, |book.pages|);
    forall k | 0 <= k < |first|
      ensures MadeFrom(first[k], items, true)
    {
      assert placed[k].item in items;
    }
    forall j, k | 0 <= j < |first| && 0 <= k < |late|
      ensures first[j].leaf != late[k].leaf
    {
      SidesDiffer(first[j], late[k], items);
    }
  }

  lemma SidesDiffer(s: Shift, t: Shift, items: seq<Item>)
    requires DistinctLeaves(items) && MadeFrom(s, items, true) && MadeFrom(t, items, false)
    ensures s.leaf != t.leaf
  {
    var i :| 0 <= i < |items| && items[i].leaf == s.leaf && items[i].start == s.start && items[i].walkable;
    var j :| 0 <= j < |items| && items[j].leaf == t.leaf && items[j].start == t.start && !items[j].walkable;
  }

  // ----- the run ---------------------------------------------------------------

  ghost predicate DistinctObjects(leaves: seq<Leaf>) {
    forall i, j :: 0 <= i < j < |leaves| ==> leaves[i] != leaves[j]
  }

  function FieldsOf(leaves: seq<Leaf>): (r: seq<PageFields>)
    reads leaves
    ensures |r| == |leaves| && forall i :: 0 <= i < |r| ==> r[i] == leaves[i].fields
  {
    if leaves == [] then [] else FieldsOf(leaves[..|leaves| - 1]) + [leaves[|leaves| - 1].fields]
  }

  function KeysOf(leaves: seq<Leaf>): (r: seq<seq<string>>)
    ensures |r| == |leaves| && forall i :: 0 <= i < |r| ==> r[i] == leaves[i].keys
  {
    if leaves == [] then [] else KeysOf(leaves[..|leaves| - 1]) + [leaves[|leaves| - 1].keys]
  }

  lemma ItemsStart(fields: seq<PageFields>, keys: seq<seq<string>>)
    requires |keys| == |fields|
    ensures Items(fields[..0], keys[..0]) == [] && High(fields[..0]) == 0
  {
  }

  lemma ItemsStep(fields: seq<PageFields>, keys: seq<seq<string>>, i: nat)
    requires i < |fields| == |keys|
    ensures High(fields[..i + 1]) == Max(High(fields[..i]), Start(fields[i]))
    ensures Items(fields[..i + 1], keys[..i + 1])
         == Items(fields[..i], keys[..i])
            + [Item(i, Start(fields[i]), End(fields[i]), keys[i], Start(fields[i]) >= High(fields[..i]) - WINDOW)]
  {
    hide Start, End;
    assert fields[..i + 1][..i] == fields[..i] && keys[..i + 1][..i] == keys[..i];
  }

  /** `leaves_in_page_order`, for the leaves found in tree order. */
  method LeavesInPageOrder(fields: seq<PageFields>, keys: seq<seq<string>>) returns (order: seq<Item>)
    requires |keys| == |fields|
    ensures order == SortItems(Items(fields, keys))
  {
    var high := 0;
    var flagged: seq<Item> := [];
    ItemsStart(fields, keys);
    hide Start, End, SortItems, Items, High;
    for i := 0 to |fields|
      invariant flagged == Items(fields[..i], keys[..i]) && high == High(fields[..i])
    {
      ItemsStep(fields, keys, i);
      var page := Start(fields[i]);
      flagged := flagged + [Item(i, page, End(fields[i]), keys[i], page >= high - WINDOW)];
      high := Max(high, page);
    }
    assert fields[..|fields|] == fields && keys[..|fields|] == keys;
    order := SortItems(flagged);
  }

  method MoveAll(leaves: seq<Leaf>, shifts: seq<Shift>)
    requires DistinctObjects(leaves) && forall k :: 0 <= k < |shifts| ==> shifts[k].leaf < |leaves|
    modifies leaves
    ensures FieldsOf(leaves) == Apply(old(FieldsOf(leaves)), shifts)
  {
    hide Moved, FieldsOf;
    ghost var start := FieldsOf(leaves);
    assert shifts[..0] == [];
    for k := 0 to |shifts|
      invariant FieldsOf(leaves) == Apply(start, shifts[..k])
    {
      var s := shifts[k];
      ghost var before := FieldsOf(leaves);
      assert shifts[..k + 1][..k] == shifts[..k];
      leaves[s.leaf].Move(s.start, s.newStart, s.newEnd);
      assert FieldsOf(leaves) == before[s.leaf := Moved(before[s.leaf], s.start, s.newStart, s.newEnd)];
    }
    assert shifts[..|shifts|] == shifts;
  }

  /** The walk down the leaves in page order. */
  method WalkLeaves(book: Book, order: seq<Item>) returns (w: Walker)
    ensures w == Walk(book, order)
  {
    hide Step;
    w := Walker(0, 1, 0, []);
    for i := 0 to |order|
      invariant w == Walk(book, order[..i])
    {
      assert order[..i + 1][..i] == order[..i];
      if order[i].walkable {
        w := Step(book, w, order[i]);
      }
    }
    assert order[..|order|] == order;
  }

  /** The loop that settles the end pages. */
  method EndPages(placed: seq<Placed>, total: int) returns (shifts: seq<Shift>)
    ensures shifts == WalkShifts(placed, |placed|, total)
  {
    hide NewEnd;
    shifts := [];
    for k := 0 to |placed|
      invariant shifts == WalkShifts(placed, k, total)
    {
      var p := placed[k];
      shifts := shifts + [Shift(p.item.leaf, p.item.start, p.newStart, NewEnd(placed, k, total))];
    }
  }

  /** The loop over the leaves the walk passed by. */
  method PlaceLate(book: Book, order: seq<Item>) returns (late: seq<Shift>)
    ensures late == LateShifts(book, order)
  {
    hide Hits;
    late := [];
    for i := 0 to |order|
      invariant late == LateShifts(book, order[..i])
    {
      assert order[..i + 1][..i] == order[..i];
      var hits := Hits(book, order[i].keys);
      if !order[i].walkable && |hits| == 1 {
        var end := Min(hits[0] + (order[i].end - order[i].start), |book.pages|);
        late := late + [Shift(order[i].leaf, order[i].start, hits[0], end)];
      }
    }
    assert order[..|order|] == order;
  }

  lemma OrderIsDistinct(fields: seq<PageFields>, keys: seq<seq<string>>)
    requires |keys| == |fields|
    ensures var order := SortItems(Items(fields, keys));
            && ByStart(order) && DistinctLeaves(order)
            && forall i :: 0 <= i < |order| ==>
                 order[i].leaf < |fields| && order[i].start == Start(fields[order[i].leaf])
                     && order[i].keys == keys[order[i].leaf]
  {
    hide Start, SortItems, Items;
    var items := Items(fields, keys);
    forall i | 0 <= i < |items|
      ensures items[i].leaf == i && items[i].start == Start(fields[i]) && items[i].keys == keys[i]
    {
      ItemsAreLeaves(fields, keys, i);
    }
    SortItemsSorts(items);
    var order := SortItems(items);
    forall i | 0 <= i < |order|
      ensures order[i] in items
    {
      assert order[i] in order;
    }
  }

  lemma ShiftsAreOfLeaves(book: Book, order: seq<Item>, n: nat)
    requires DistinctLeaves(order) && forall i :: 0 <= i < |order| ==> order[i].leaf < n
    ensures forall k :: 0 <= k < |Shifts(book, order)| ==> Shifts(book, order)[k].leaf < n
  {
    hide Shifts;
    ShiftsMoveOnce(book, order);
  }

  // ----- the footnotes after a run ---------------------------------------------

  ghost predicate NotesInside(f: PageFields) {
    forall n :: 0 <= n < |f.footnotes| && f.footnotes[n].Some? ==>
      f.startPage.Some? && f.endPage.Some? && f.startPage.value <= f.footnotes[n].value <= f.endPage.value
  }

  /** Some footnote has a page number. */
  ghost predicate HasNumbered(f: PageFields) { exists n :: 0 <= n < |f.footnotes| && f.footnotes[n].Some? }

  lemma MovedNotes(f: PageFields, start: int, newStart: int, newEnd: int)
    ensures newStart <= newEnd ==> NotesInside(Moved(f, start, newStart, newEnd))
    ensures newEnd < newStart && HasNumbered(f) ==> !NotesInside(Moved(f, start, newStart, newEnd))
  {
    var g := Moved(f, start, newStart, newEnd);
    forall n | 0 <= n < |g.footnotes| && g.footnotes[n].Some? && newStart <= newEnd
      ensures newStart <= g.footnotes[n].value <= newEnd
    {
      NotesStayInside(f, start, newStart, newEnd, n);
    }
    if newEnd < newStart && HasNumbered(f) {
      var n :| 0 <= n < |f.footnotes| && f.footnotes[n].Some?;
      NotesStayInside(f, start, newStart, newEnd, n);
      assert g.footnotes[n].Some?;
    }
  }

  lemma {:induction false} WalkedIsPlaced(book: Book, items: seq<Item>, i: nat) returns (k: nat)
    requires i < |items| && items[i].walkable
    ensures k < |Walk(book, items).placed| && Walk(book, items).placed[k].item == items[i]
  {
    hide Step;
    var front, last := items[..|items| - 1], items[|items| - 1];
    if last.walkable {
      StepPlaces(book, Walk(book, front), last);
    }
    if i < |front| {
      k := WalkedIsPlaced(book, front, i);
      assert Walk(book, items).placed[k] == Walk(book, front).placed[k];
    } else {
      k := |Walk(book, front).placed|;
    }
  }

  /** After a run the numbered footnotes of every walked leaf lie inside it. */
  lemma WalkedNotesInside(book: Book, fields: seq<PageFields>, items: seq<Item>, i: nat)
    requires book.pages != [] && DistinctLeaves(items)
    requires i < |items| && items[i].walkable && items[i].leaf < |fields|
    ensures NotesInside(Apply(fields, Shifts(book, items))[items[i].leaf])
  {
    var k := WalkedIsPlaced(book, items, i);
    ShiftsMoveOnce(book, items);
    EndsMeet(book, items, k);
    hide Walk, LateShifts, NewEnd, Moved, NotesInside;
    var shifts := Shifts(book, items);
    var s := shifts[k];
    ApplyOnce(fields, shifts, items[i].leaf);
    MovedNotes(fields[items[i].leaf], s.start, s.newStart, s.newEnd);
  }

  /** A leaf off the walk that is moved has them inside if and only if it was declared
      to end no earlier than it starts. */
  lemma LateNotesInside(book: Book, fields: seq<PageFields>, items: seq<Item>, i: nat, p: int)
    requires DistinctLeaves(items) && i < |items| && !items[i].walkable && items[i].leaf < |fields|
    requires PrintsOnce(book, items[i].keys, p) && HasNumbered(fields[items[i].leaf])
    ensures var s := LateMove(book, items[i], p);
            Apply(fields, Shifts(book, items))[items[i].leaf] ==
                Moved(fields[items[i].leaf], s.start, s.newStart, s.newEnd)
    ensures NotesInside(Apply(fields, Shifts(book, items))[items[i].leaf]) <==> items[i].start <= items[i].end
  {
    var s := LateMove(book, items[i], p);
    LateLength(book, items[i], p);
    ShiftsMoveOnce(book, items);
    hide Shifts, Moved, NotesInside, HasNumbered, PrintsOnce, LateMove;
    LateIsFrom(book, items, i, p);
    var k := LateIsMade(book, items, s);
    ApplyOnce(fields, Shifts(book, items), items[i].leaf);
    MovedNotes(fields[items[i].leaf], s.start, s.newStart, s.newEnd);
  }

  lemma LateIsMade(book: Book, items: seq<Item>, s: Shift) returns (k: nat)
    requires LateFrom(book, items, s)
    ensures k < |Shifts(book, items)| && Shifts(book, items)[k] == s
  {
    LateExactlyOnce(book, items);
    hide Walk, LateShifts, LateFrom;
    var placed, late := Walk(book, items).placed, LateShifts(book, items);
    var j :| 0 <= j < |late| && late[j] == s;
    k := |placed| + j;
  }

  lemma LateIsFrom(book: Book, items: seq<Item>, i: nat, p: int)
    requires i < |items| && !items[i].walkable && PrintsOnce(book, items[i].keys, p)
    ensures LateFrom(book, items, LateMove(book, items[i], p)) && LateMove(book, items[i], p).leaf == items[i].leaf
  {
    hide PrintsOnce;
  }

  lemma LateLength(book: Book, item: Item, p: int)
    requires PrintsOnce(book, item.keys, p)
    ensures var s := LateMove(book, item, p); s.newEnd < s.newStart <==> item.end < item.start
  {
    var q :| 0 <= q < |item.keys| && DecidesOn(book, item.keys, q, p);
    assert Prints(book, item.keys[q], p);
    InBook(book, item.keys[q]);
  }

  /** A leaf off the walk whose first printing key prints on no page or on several
      keeps its fields. */
  lemma UnplacedStays(book: Book, fields: seq<PageFields>, items: seq<Item>, i: nat)
    requires DistinctLeaves(items) && i < |items| && !items[i].walkable && items[i].leaf < |fields|
    requires forall p :: !PrintsOnce(book, items[i].keys, p)
    ensures Apply(fields, Shifts(book, items))[items[i].leaf] == fields[items[i].leaf]
  {
    var leaf, shifts := items[i].leaf, Shifts(book, items);
    WalkPlacesOnce(book, items);
    LateExactlyOnce(book, items);
    ShiftsMoveOnce(book, items);
    hide Walk, LateShifts, Moved, PrintsOnce, NewEnd, LateMove;
    var placed, late := Walk(book, items).placed, LateShifts(book, items);
    var first := WalkShifts(placed, |placed|, |book.pages|);
    forall k | 0 <= k < |shifts|
      ensures shifts[k].leaf != leaf
    {
      if k < |first| {
        assert placed[k].item in items && placed[k].item.walkable;
      } else {
        assert late[k - |first|] in late;
        LateLeaf(book, items, shifts[k], i);
      }
    }
    ApplyOnce(fields, shifts, leaf);
  }

  lemma LateLeaf(book: Book, items: seq<Item>, s: Shift, i: nat)
    requires DistinctLeaves(items) && i < |items| && LateFrom(book, items, s)
    requires forall p :: !PrintsOnce(book, items[i].keys, p)
    ensures s.leaf != items[i].leaf
  {
    hide PrintsOnce;
    var x :| 0 <= x < |items| && !items[x].walkable && PrintsOnce(book, items[x].keys, s.newStart)
             && s == LateMove(book, items[x], s.newStart);
    assert x != i;
  }

  // A leaf on page 30, and one declared on pages 5 to 3 whose heading is on page 7.

  function TwoLeaves(): seq<PageFields> {
    [PageFields(Some(30), Some(30), None, []), PageFields(Some(5), Some(3), None, [Some(5)])]
  }

  function SevenPages(): seq<string> { ["", "", "", "", "", "", "k"] }

  lemma TwoLeavesOrder()
    ensures SortItems(Items(TwoLeaves(), [["a"], ["k"]])) == [Item(1, 5, 3, ["k"], false), Item(0, 30, 30, ["a"], true)]
  {
    var fields, keys := TwoLeaves(), [["a"], ["k"]];
    var walked, late := Item(0, 30, 30, ["a"], true), Item(1, 5, 3, ["k"], false);
    assert fields[..1] == [fields[0]] && keys[..1] == [["a"]] && [fields[0]][..0] == [] && [["a"]][..0] == [];
    assert High([]) == 0 && High([fields[0]]) == 30;
    assert Items([], []) == [];
    assert Items([fields[0]], [["a"]]) == [walked];
    assert Items(fields, keys) == [walked, late];
    hide Items, High, Sort;
    SortTwo(walked, late, NoLater);
  }

  lemma KeyOnSeven(headings: seq<string>)
    requires |headings| == 2
    ensures PrintsOnce(Book(SevenPages(), headings), ["k"], 7)
  {
    var book := Book(SevenPages(), headings);
    FewNamed(headings);
    assert Occurs("k", "k") && !Occurs("k", "");
    forall x
      ensures Prints(book, "k", x) <==> x == 7
    {
      if 1 <= x <= 7 {
        assert !IsContents(book, x);
      }
    }
    assert DecidesOn(book, ["k"], 0, 7);
  }

  lemma FewNamed(headings: seq<string>)
    requires |headings| == 2
    ensures forall text :: Named(headings, text) <= 2
  {
    hide Occurs;
    forall text
      ensures Named(headings, text) <= 2
    {
      assert Named(headings[..1], text) <= 1;
    }
  }

  lemma ReversedMove(f: PageFields)
    requires f == PageFields(Some(5), Some(3), None, [Some(5)])
    ensures Moved(f, 5, 7, 5) == PageFields(Some(7), Some(5), None, [Some(5)]) && HasNumbered(f)
  {
    assert f.footnotes[0].Some?;
    assert [Some(5)][..0] == [];
  }

  lemma {:induction false} ReversedRun(fields: seq<PageFields>, book: Book, order: seq<Item>)
    requires |order| == 2 && order[0] == Item(1, 5, 3, ["k"], false) && order[1].leaf == 0 && |book.pages| == 7
    requires PrintsOnce(book, ["k"], 7) && |fields| == 2 && fields[1] == PageFields(Some(5), Some(3), None, [Some(5)])
    ensures var after := Apply(fields, Shifts(book, order));
            after[1] == PageFields(Some(7), Some(5), None, [Some(5)]) && !NotesInside(after[1])
  {
    hide Shifts, Apply, PrintsOnce, Moved, NotesInside, HasNumbered, LateMove;
    ReversedMove(fields[1]);
    LateOnSeven(book);
    LateNotesInside(book, fields, order, 0, 7);
  }

  lemma LateOnSeven(book: Book)
    requires |book.pages| == 7
    ensures LateMove(book, Item(1, 5, 3, ["k"], false), 7) == Shift(1, 5, 7, 5)
  {
  }

  /** The run moves the second leaf to pages 7 to 5, and its footnote stays on 5. */
  lemma ReversedLeafLosesNotes()
    ensures var order := SortItems(Items(TwoLeaves(), [["a"], ["k"]]));
            var after := Apply(TwoLeaves(), Shifts(Book(SevenPages(), Headings(order)), order));
            after[1] == PageFields(Some(7), Some(5), None, [Some(5)]) && !NotesInside(after[1])
  {
    TwoLeavesOrder();
    hide SortItems, Items, Shifts, Apply, Headings, PrintsOnce, NotesInside;
    var order := SortItems(Items(TwoLeaves(), [["a"], ["k"]]));
    TwoHeadings(order);
    KeyOnSeven(Headings(order));
    ReversedRun(TwoLeaves(), Book(SevenPages(), Headings(order)), order);
  }

  lemma TwoHeadings(order: seq<Item>)
    requires |order| == 2 && order[0].keys == ["k"] && order[1].keys == ["a"]
    ensures |Headings(order)| == 2
  {
    assert order[..1] == [order[0]] && order[..1][..0] == [];
    assert Headings(order[..1]) == ["k"];
  }

  /** `remap`. */
  method RemapLeaves(leaves: seq<Leaf>, pages: seq<string>) returns (order: seq<Item>, book: Book, located: nat)
    requires DistinctObjects(leaves) && pages != []
    modifies leaves
    ensures order == SortItems(Items(old(FieldsOf(leaves)), KeysOf(leaves))) && book == Book(pages, Headings(order))
    ensures FieldsOf(leaves) == Apply(old(FieldsOf(leaves)), Shifts(book, order))
    ensures located == Walk(book, order).located + |LateShifts(book, order)|
  {
    hide Walk, WalkShifts, LateShifts, Headings, FieldsOf, KeysOf, Apply, SortItems, Items;
    order := LeavesInPageOrder(FieldsOf(leaves), KeysOf(leaves));
    book := Book(pages, Headings(order));
    OrderIsDistinct(FieldsOf(leaves), KeysOf(leaves));
    var w := WalkLeaves(book, order);
    var shifts := EndPages(w.placed, |pages|);
    var late := PlaceLate(book, order);
    ShiftsAreOfLeaves(book, order, |leaves|);
    assert shifts + late == Shifts(book, order);
    MoveAll(leaves, shifts + late);
    located := w.located + |late|;
  }
}

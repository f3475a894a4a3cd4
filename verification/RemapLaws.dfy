/** What the walk over the leaves answers, said of the pages themselves. */
module RemapLaws {
  import opened Common
  import opened Remap

  // ----- contents pages --------------------------------------------------------

  /** The key stands somewhere in the text. */
  ghost predicate StandsIn(key: string, text: string) { exists i :: 0 <= i <= |text| && key <= text[i..] }

  lemma {:induction false} OccursExactly(key: string, text: string)
    ensures Occurs(key, text) <==> StandsIn(key, text)
  {
    assert text[0..] == text;
    if text != "" {
      OccursExactly(key, text[1..]);
      if Occurs(key, text[1..]) {
        var i :| 0 <= i <= |text[1..]| && key <= text[1..][i..];
        assert text[1..][i..] == text[i + 1..];
      }
      if i :| 0 <= i <= |text| && key <= text[i..] {
        if i > 0 {
          assert text[1..][i - 1..] == text[i..];
        }
      }
    } else if i :| 0 <= i <= |text| && key <= text[i..] {
      assert text[i..] == text;
    }
  }

  ghost predicate Different(headings: seq<string>) {
    forall i, j :: 0 <= i < j < |headings| ==> headings[i] != headings[j]
  }

  /** The headings are the leaves' first keys, each once. */
  lemma {:induction false} HeadingsExactly(items: seq<Item>)
    ensures Different(Headings(items))
    ensures forall h :: h in Headings(items) <==>
              exists i :: 0 <= i < |items| && items[i].keys != [] && items[i].keys[0] == h
  {
    if items != [] {
      var front, last := items[..|items| - 1], items[|items| - 1];
      HeadingsExactly(front);
      var before := Headings(front);
      assert forall i :: 0 <= i < |front| ==> front[i] == items[i];
      if last.keys != [] && last.keys[0] !in before {
        forall i | 0 <= i < |before|
          ensures before[i] != last.keys[0]
        {
          assert before[i] in before;
        }
      }
    }
  }

  ghost function NamedOn(headings: seq<string>, text: string): set<string> {
    set h | h in headings && Occurs(h, text)
  }

  lemma {:induction false} NamedExactly(headings: seq<string>, text: string)
    requires Different(headings)
    ensures Named(headings, text) == |NamedOn(headings, text)|
  {
    hide Occurs;
    if headings != [] {
      var front, last := headings[..|headings| - 1], headings[|headings| - 1];
      NamedExactly(front, text);
      assert headings == front + [last];
      assert last !in front;
      assert NamedOn(headings, text) == NamedOn(front, text) + if Occurs(last, text) then {last} else {};
    } else {
      assert NamedOn(headings, text) == {};
    }
  }

  /** A page is contents when ten different headings or more stand on it. */
  lemma ContentsExactly(pages: seq<string>, items: seq<Item>, page: int)
    requires 1 <= page <= |pages|
    ensures IsContents(Book(pages, Headings(items)), page) <==>
            |NamedOn(Headings(items), pages[page - 1])| >= 10
  {
    HeadingsExactly(items);
    NamedExactly(Headings(items), pages[page - 1]);
  }

  /** A page prints a key when the key stands on it and fewer than ten headings do. */
  lemma PrintsExactly(pages: seq<string>, items: seq<Item>, key: string, page: int)
    ensures Prints(Book(pages, Headings(items)), key, page) <==>
            && 1 <= page <= |pages| && StandsIn(key, pages[page - 1])
            && |NamedOn(Headings(items), pages[page - 1])| < 10
  {
    hide Occurs, IsContents, Headings;
    if 1 <= page <= |pages| {
      OccursExactly(key, pages[page - 1]);
      ContentsExactly(pages, items, page);
    }
  }

  // ----- what a leaf declares and what a move sets -----------------------------

  /** A leaf is declared on its start page; on its page number where it has none or 0. */
  lemma DeclaredOn(f: PageFields)
    ensures f.startPage.Some? && f.startPage.value != 0 ==> Start(f) == f.startPage.value
    ensures (f.startPage.None? || f.startPage == Some(0)) && f.pageNumber.Some? ==> Start(f) == f.pageNumber.value
    ensures f.endPage.Some? && f.endPage.value != 0 ==> End(f) == f.endPage.value
    ensures f.endPage.None? || f.endPage == Some(0) ==> End(f) == Start(f)
  {
  }

  /** A move sets the pages; the page number only where there is one. */
  lemma MovedTo(f: PageFields, start: int, newStart: int, newEnd: int)
    ensures var g := Moved(f, start, newStart, newEnd);
            && g.startPage == Some(newStart) && g.endPage == Some(newEnd)
            && (g.pageNumber.Some? <==> f.pageNumber.Some?)
            && (g.pageNumber.Some? ==> g.pageNumber == Some(newStart))
  {
  }

  // ----- which leaves are walked -----------------------------------------------

  lemma {:induction false} HighIsHighest(fields: seq<PageFields>, x: int)
    ensures High(fields) <= x <==> x >= 0 && forall j :: 0 <= j < |fields| ==> Start(fields[j]) <= x
  {
    hide Start;
    if fields != [] {
      HighIsHighest(fields[..|fields| - 1], x);
      assert forall j :: 0 <= j < |fields| - 1 ==> fields[..|fields| - 1][j] == fields[j];
    }
  }

  /** A leaf is walked unless one before it is declared more than 12 pages further
      on, where its own page is taken for a default. */
  lemma {:induction false} WalkedExactly(fields: seq<PageFields>, keys: seq<seq<string>>, i: nat)
    requires i < |fields| == |keys|
    ensures Items(fields, keys)[i].walkable <==>
            Start(fields[i]) >= -12 && forall j :: 0 <= j < i ==> Start(fields[j]) - Start(fields[i]) <= 12
  {
    hide Start, High;
    var n := |fields| - 1;
    if i < n {
      WalkedExactly(fields[..n], keys[..n], i);
      assert forall j :: 0 <= j <= i ==> fields[..n][j] == fields[j];
    } else {
      HighIsHighest(fields[..n], Start(fields[n]) + WINDOW);
      assert forall j :: 0 <= j < n ==> fields[..n][j] == fields[j];
    }
  }

  // ----- where the walk settles each leaf --------------------------------------

  /** Page `p` is the nearest to `expected` of those in lo..hi that print the key;
      the earlier of two. */
  ghost predicate NearestIn(book: Book, key: string, lo: int, hi: int, expected: int, p: int) {
    && lo <= p <= hi && Prints(book, key, p)
    && forall x :: lo <= x <= hi && Prints(book, key, x) ==>
         Abs(p - expected) < Abs(x - expected) || (Abs(p - expected) == Abs(x - expected) && p <= x)
  }

  ghost predicate PrintsIn(book: Book, key: string, lo: int, hi: int) {
    exists p :: lo <= p <= hi && Prints(book, key, p)
  }

  ghost predicate NonePrints(book: Book, keys: seq<string>, n: nat, lo: int, hi: int)
    requires n <= |keys|
  {
    forall q :: 0 <= q < n ==> !PrintsIn(book, keys[q], lo, hi)
  }

  /** The first of the keys that prints in lo..hi prints nearest on page `p`. */
  ghost predicate FindsOn(book: Book, keys: seq<string>, lo: int, hi: int, expected: int, p: int) {
    exists q :: 0 <= q < |keys| && NearestIn(book, keys[q], lo, hi, expected, p) && NonePrints(book, keys, q, lo, hi)
  }

  lemma {:induction false} HitExactly(book: Book, keys: seq<string>, lo: int, hi: int, expected: int)
    ensures match Hit(book, keys, lo, hi, expected)
      case None => NonePrints(book, keys, |keys|, lo, hi)
      case Some(p) => FindsOn(book, keys, lo, hi, expected, p) && !NonePrints(book, keys, |keys|, lo, hi)
  {
    hide Prints;
    if keys != [] {
      var rest := keys[1..];
      assert forall q :: 0 <= q < |rest| ==> rest[q] == keys[q + 1];
      var first := Nearest(book, keys[0], lo, hi, expected);
      if first.Some? {
        assert NearestIn(book, keys[0], lo, hi, expected, first.value) && NonePrints(book, keys, 0, lo, hi);
        assert PrintsIn(book, keys[0], lo, hi);
      } else {
        HitExactly(book, rest, lo, hi, expected);
        assert !PrintsIn(book, keys[0], lo, hi);
        Shifted(book, keys, lo, hi);
        var hit := Hit(book, rest, lo, hi, expected);
        if hit.Some? {
          var q :| 0 <= q < |rest| && NearestIn(book, rest[q], lo, hi, expected, hit.value)
                   && NonePrints(book, rest, q, lo, hi);
          assert NearestIn(book, keys[q + 1], lo, hi, expected, hit.value) && NonePrints(book, keys, q + 1, lo, hi);
        }
      }
    }
  }

  lemma Shifted(book: Book, keys: seq<string>, lo: int, hi: int)
    requires keys != [] && !PrintsIn(book, keys[0], lo, hi)
    ensures forall q :: 0 <= q < |keys| ==>
              (NonePrints(book, keys, q + 1, lo, hi) <==> NonePrints(book, keys[1..], q, lo, hi))
  {
    hide PrintsIn;
    var rest := keys[1..];
    forall q | 0 <= q < |keys|
      ensures NonePrints(book, keys, q + 1, lo, hi) <==> NonePrints(book, rest, q, lo, hi)
    {
      assert forall x :: 0 <= x < q ==> rest[x] == keys[x + 1];
      if NonePrints(book, rest, q, lo, hi) {
        assert forall x :: 0 < x < q + 1 ==> keys[x] == rest[x - 1];
      }
    }
  }

  /** The last leaf before the `k`-th that was found on a page. */
  function LastFound(found: seq<bool>, k: nat): (r: Option<nat>)
    requires k <= |found|
    ensures r.None? ==> forall j :: 0 <= j < k ==> !found[j]
    ensures r.Some? ==> r.value < k && found[r.value] && forall j :: r.value < j < k ==> !found[j]
  {
    if k == 0 then None else if found[k - 1] then Some(k - 1) else LastFound(found, k - 1)
  }

  /** How far the last leaf found stands from where it was declared. */
  function OffsetAt(placed: seq<Placed>, found: seq<bool>, k: nat): int
    requires k <= |found| == |placed|
  {
    match LastFound(found, k)
    case None => 0
    case Some(j) => placed[j].newStart - placed[j].item.start
  }

  function CursorAt(placed: seq<Placed>, k: nat): int
    requires k <= |placed|
  {
    if k == 0 then 1 else placed[k - 1].newStart
  }

  /** A leaf is looked for no earlier than `cursor` and within `window` pages of
      where the offset lets expect it. Found, it starts on the page where its first
      printing key prints nearest; else where expected, but not before the cursor nor
      behind the last page. */
  ghost predicate Settles(book: Book, item: Item, cursor: int, offset: int, window: int, found: bool, start: int) {
    var total, expected := |book.pages|, item.start + offset;
    var lo, hi := Max(cursor, expected - window), Min(total, expected + window);
    && (found <==> !NonePrints(book, item.keys, |item.keys|, lo, hi))
    && if found then FindsOn(book, item.keys, lo, hi, expected, start)
       else start == Min(Max(expected, cursor), total)
  }

  /** Leaf `k` is looked for behind the one before it, by the offset of the last leaf
      found, within 12 pages, or 36 while none is found. */
  ghost predicate Settled(book: Book, placed: seq<Placed>, found: seq<bool>, k: nat)
    requires k < |found| == |placed|
  {
    Settles(book, placed[k].item, CursorAt(placed, k), OffsetAt(placed, found, k),
            if LastFound(found, k).Some? then 12 else 36, found[k], placed[k].newStart)
  }

  ghost predicate AllSettled(book: Book, placed: seq<Placed>, found: seq<bool>) {
    |found| == |placed| && forall k: nat :: k < |placed| ==> Settled(book, placed, found, k)
  }

  /** The state of the walk, told from what it has placed. */
  ghost predicate Tracks(w: Walker, found: seq<bool>) {
    && |found| == |w.placed|
    && w.cursor == CursorAt(w.placed, |w.placed|)
    && w.offset == OffsetAt(w.placed, found, |found|)
    && (w.located > 0 <==> LastFound(found, |found|).Some?)
  }

  lemma StepSettles(book: Book, w: Walker, item: Item) returns (x: bool)
    ensures var v := Step(book, w, item);
            && |v.placed| == |w.placed| + 1 && v.placed == w.placed + [Placed(item, v.cursor)]
            && v.offset == (if x then v.cursor - item.start else w.offset)
            && v.located == w.located + (if x then 1 else 0)
            && Settles(book, item, w.cursor, w.offset, if w.located > 0 then 12 else 36, x, v.cursor)
  {
    var expected := item.start + w.offset;
    var lo, hi := Max(w.cursor, expected - WindowOf(w)), Min(|book.pages|, expected + WindowOf(w));
    HitExactly(book, item.keys, lo, hi, expected);
    x := Hit(book, item.keys, lo, hi, expected).Some?;
    hide Hit, FindsOn, NonePrints;
  }

  lemma {:induction false} LastFoundBefore(found: seq<bool>, x: bool, k: nat)
    requires k <= |found|
    ensures LastFound(found + [x], k) == LastFound(found, k)
  {
    if k > 0 {
      LastFoundBefore(found, x, k - 1);
    }
  }

  lemma {:induction false} OffsetBefore(placed: seq<Placed>, found: seq<bool>, p: Placed, x: bool, k: nat)
    requires k <= |found| == |placed|
    ensures OffsetAt(placed + [p], found + [x], k) == OffsetAt(placed, found, k)
    ensures CursorAt(placed + [p], k) == CursorAt(placed, k)
  {
    LastFoundBefore(found, x, k);
  }

  lemma {:induction false} SettledStays(book: Book, placed: seq<Placed>, found: seq<bool>, p: Placed, x: bool)
    requires AllSettled(book, placed, found)
    requires Settles(book, p.item, CursorAt(placed, |placed|), OffsetAt(placed, found, |placed|),
                     if LastFound(found, |placed|).Some? then 12 else 36, x, p.newStart)
    ensures AllSettled(book, placed + [p], found + [x])
  {
    hide Settles, LastFound, OffsetAt, CursorAt;
    forall k: nat | k < |placed| + 1
      ensures Settled(book, placed + [p], found + [x], k)
    {
      LastFoundBefore(found, x, k);
      OffsetBefore(placed, found, p, x, k);
      assert k < |placed| ==> Settled(book, placed, found, k);
    }
  }

  lemma {:induction false} TracksOn(w: Walker, found: seq<bool>, p: Placed, x: bool, v: Walker)
    requires Tracks(w, found) && v.placed == w.placed + [p] && v.cursor == p.newStart
    requires v.offset == if x then p.newStart - p.item.start else w.offset
    requires v.located == w.located + if x then 1 else 0
    ensures Tracks(v, found + [x])
  {
    var n := |found|;
    LastFoundBefore(found, x, n);
    OffsetBefore(w.placed, found, p, x, n);
    assert LastFound(found + [x], n + 1) == if x then Some(n) else LastFound(found, n);
    hide LastFound;
  }

  predicate IsWalkable(item: Item) { item.walkable }

  ghost predicate PlacedAre(placed: seq<Placed>, items: seq<Item>) {
    |placed| == |items| && forall k :: 0 <= k < |placed| ==> placed[k].item == items[k]
  }

  lemma {:induction false} WalkTracks(book: Book, items: seq<Item>) returns (found: seq<bool>)
    ensures var w := Walk(book, items);
            Tracks(w, found) && AllSettled(book, w.placed, found) && PlacedAre(w.placed, Filter(items, IsWalkable))
  {
    hide Step, Tracks, Settles, OffsetAt, CursorAt, LastFound;
    if items == [] {
      found := [];
      NothingTracked();
    } else {
      var front, last := items[..|items| - 1], items[|items| - 1];
      found := WalkTracks(book, front);
      if last.walkable {
        var w, v := Walk(book, front), Walk(book, items);
        var x := StepSettles(book, w, last);
        StandsAt(w, found);
        SettledStays(book, w.placed, found, Placed(last, v.cursor), x);
        TracksOn(w, found, Placed(last, v.cursor), x, v);
        found := found + [x];
      }
    }
  }

  lemma StandsAt(w: Walker, found: seq<bool>)
    requires Tracks(w, found)
    ensures |found| == |w.placed| && w.cursor == CursorAt(w.placed, |w.placed|)
    ensures w.offset == OffsetAt(w.placed, found, |found|) && (w.located > 0 <==> LastFound(found, |found|).Some?)
  {
  }

  lemma NothingTracked()
    ensures Tracks(Walker(0, 1, 0, []), [])
  {
  }

  /** The walk places the walkable leaves in order, each settled by those before. */
  lemma {:induction false} WalkSettles(book: Book, items: seq<Item>)
    ensures PlacedAre(Walk(book, items).placed, Filter(items, IsWalkable))
    ensures exists found: seq<bool> :: AllSettled(book, Walk(book, items).placed, found)
  {
    var found := WalkTracks(book, items);
  }
}

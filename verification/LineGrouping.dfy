/** Clustering the words of a page into lines (`_group_into_lines`): a scan for the
    nearest word of any line begun so far, shown to cut the sorted words wherever
    two neighbours lie too far apart. */
module LineGrouping {
  import opened Common

  datatype Word = Word(text: string, top: real, x0: real)

  const LINE_TOL: real := 3.0

  function Distance(a: real, b: real): (d: real)
    ensures d >= 0.0 && (d == a - b || d == b - a)
  {
    if a >= b then a - b else b - a
  }

  // ----- the sort of the words -------------------------------------------------

  predicate NotAfter(a: Word, b: Word) { a.top < b.top || (a.top == b.top && a.x0 <= b.x0) }

  function SortWords(words: seq<Word>): (r: seq<Word>)
    ensures |r| == |words| && multiset(r) == multiset(words)
  {
    Sort(words, NotAfter)
  }

  ghost predicate Sorted(words: seq<Word>) {
    forall i, j :: 0 <= i < j < |words| ==>
      words[i].top < words[j].top || (words[i].top == words[j].top && words[i].x0 <= words[j].x0)
  }

  lemma SortWordsSorts(words: seq<Word>)
    ensures Sorted(SortWords(words))
  {
    SortSorts(words, NotAfter);
  }

  // ----- the simple split ------------------------------------------------------

  /** The first `n` sorted words, cut wherever two neighbours lie further apart than
      the tolerance. */
  function Split(words: seq<Word>, n: nat): (lines: seq<seq<Word>>)
    requires n <= |words|
    ensures n > 0 ==> lines != [] && lines[|lines| - 1] != []
    ensures n > 0 ==> lines[|lines| - 1][|lines[|lines| - 1]| - 1] == words[n - 1]
  {
    if n == 0 then []
    else
      var before := Split(words, n - 1);
      if Joins(words, n - 1) then
        before[|before| - 1 := before[|before| - 1] + [words[n - 1]]]
      else before + [[words[n - 1]]]
  }

  function Flat(lines: seq<seq<Word>>): seq<Word> {
    if lines == [] then [] else Flat(lines[..|lines| - 1]) + lines[|lines| - 1]
  }

  /** Every word is in exactly one line, and the lines read on in sorted order. */
  lemma {:induction false} SplitKeepsWords(words: seq<Word>, n: nat)
    requires n <= |words|
    ensures Flat(Split(words, n)) == words[..n]
  {
    hide Flat, Split, Joins;
    if n == 0 {
      SplitStarts(words);
    } else {
      SplitKeepsWords(words, n - 1);
      StepKeepsWords(words, n - 1);
      assert words[..n] == words[..n - 1] + [words[n - 1]];
    }
  }

  lemma StepKeepsWords(words: seq<Word>, n: nat)
    requires n < |words|
    ensures Flat(Split(words, n + 1)) == Flat(Split(words, n)) + [words[n]]
  {
    SplitStep(words, n);
    hide Flat, Split, Joins;
    FlatGrows(Split(words, n), words[n]);
  }

  /** Where word `n` goes. */
  predicate Joins(words: seq<Word>, n: nat)
    requires n < |words|
  {
    n > 0 && words[n].top - words[n - 1].top <= LINE_TOL
  }

  lemma SplitStep(words: seq<Word>, n: nat)
    requires n < |words|
    ensures var before := Split(words, n);
            && (n > 0 ==> before != [])
            && Split(words, n + 1) == if Joins(words, n) then before[|before| - 1 := before[|before| - 1] + [words[n]]]
                                      else before + [[words[n]]]
  {
  }

  lemma FlatGrows(lines: seq<seq<Word>>, w: Word)
    ensures Flat(lines + [[w]]) == Flat(lines) + [w]
    ensures lines != [] ==> Flat(lines[|lines| - 1 := lines[|lines| - 1] + [w]]) == Flat(lines) + [w]
  {
    assert (lines + [[w]])[..|lines|] == lines;
    if lines != [] {
      var after := lines[|lines| - 1 := lines[|lines| - 1] + [w]];
      assert after[..|lines| - 1] == lines[..|lines| - 1];
    }
  }

  /** Neighbours inside the line lie within the tolerance. */
  ghost predicate Tight(line: seq<Word>) {
    line != [] && forall i :: 1 <= i < |line| ==> 0.0 <= line[i].top - line[i - 1].top <= LINE_TOL
  }

  /** Every word of line `b` lies further below every word of line `a`. */
  ghost predicate Apart(a: seq<Word>, b: seq<Word>) {
    forall x, y :: 0 <= x < |a| && 0 <= y < |b| ==> b[y].top - a[x].top > LINE_TOL
  }

  ghost predicate Ascends(lines: seq<seq<Word>>) {
    && (forall k :: 0 <= k < |lines| ==> Tight(lines[k]))
    && (forall j, k :: 0 <= j < k < |lines| ==> Apart(lines[j], lines[k]))
  }

  ghost predicate NoneBelow(lines: seq<seq<Word>>, top: real) {
    forall k, x :: 0 <= k < |lines| && 0 <= x < |lines[k]| ==> lines[k][x].top <= top
  }

  /** Lines stand in top order, tight inside and apart from each other. */
  lemma {:induction false} SplitCuts(words: seq<Word>, n: nat)
    requires n <= |words| && Sorted(words)
    ensures Ascends(Split(words, n))
    ensures n > 0 ==> NoneBelow(Split(words, n), words[n - 1].top)
  {
    hide Ascends, NoneBelow, Sorted, NotAfter;
    if n == 1 {
      OneWord(words[0]);
      assert Split(words, 0) == [] && Split(words, 1) == [] + [[words[0]]] == [[words[0]]];
    } else if n == 0 {
      OneWord(Word("", 0.0, 0.0));
    } else {
      SplitCuts(words, n - 1);
      assert words[n - 2].top <= words[n - 1].top by { InTopOrder(words, n - 2, n - 1); }
      NextWord(Split(words, n - 1), words[n - 2], words[n - 1]);
    }
  }

  lemma InTopOrder(words: seq<Word>, i: nat, j: nat)
    requires Sorted(words) && i < j < |words|
    ensures words[i].top <= words[j].top
  {
    assert NotAfter(words[i], words[j]);
  }

  lemma OneWord(w: Word)
    ensures Ascends([]) && Ascends([[w]]) && NoneBelow([[w]], w.top)
  {
  }

  lemma NextWord(before: seq<seq<Word>>, last: Word, w: Word)
    requires Ascends(before) && NoneBelow(before, last.top) && last.top <= w.top && before != []
    requires var l := before[|before| - 1]; l != [] && l[|l| - 1] == last
    ensures var after := if w.top - last.top <= LINE_TOL then before[|before| - 1 := before[|before| - 1] + [w]]
                         else before + [[w]];
            Ascends(after) && NoneBelow(after, w.top)
  {
    var n := |before| - 1;
    if w.top - last.top <= LINE_TOL {
      TightGrows(before[n], w);
      forall j | 0 <= j < n
        ensures Apart(before[j], before[n] + [w])
      {
        ApartGrows(before[j], before[n], w);
      }
      hide Tight, Apart;
      NoneBelowGrows(before, last.top, w);
    } else {
      forall j | 0 <= j < |before|
        ensures Apart(before[j], [w])
      {
        ApartFrom(before, last, w, j);
      }
      TightAlone(w);
      hide Tight, Apart;
      assert NoneBelow(before + [[w]], w.top);
    }
  }

  lemma TightAlone(w: Word)
    ensures Tight([w])
  {
  }

  lemma TightGrows(line: seq<Word>, w: Word)
    requires Tight(line) && 0.0 <= w.top - line[|line| - 1].top <= LINE_TOL
    ensures Tight(line + [w])
  {
  }

  lemma ApartGrows(a: seq<Word>, b: seq<Word>, w: Word)
    requires Apart(a, b) && b != [] && b[|b| - 1].top <= w.top
    ensures Apart(a, b + [w])
  {
  }

  lemma ApartFrom(before: seq<seq<Word>>, last: Word, w: Word, j: nat)
    requires NoneBelow(before, last.top) && w.top - last.top > LINE_TOL && j < |before|
    ensures Apart(before[j], [w])
  {
  }

  lemma NoneBelowGrows(before: seq<seq<Word>>, top: real, w: Word)
    requires NoneBelow(before, top) && top <= w.top && before != []
    ensures NoneBelow(before[|before| - 1 := before[|before| - 1] + [w]], w.top)
  {
  }

  /** The lines without the last word. */
  function Shorter(lines: seq<seq<Word>>): seq<seq<Word>>
    requires lines != [] && lines[|lines| - 1] != []
  {
    var l := lines[|lines| - 1];
    if |l| == 1 then lines[..|lines| - 1] else lines[|lines| - 1 := l[..|l| - 1]]
  }

  lemma ShorterAscends(lines: seq<seq<Word>>)
    requires Ascends(lines) && lines != [] && lines[|lines| - 1] != []
    ensures Ascends(Shorter(lines))
  {
    var n, l := |lines| - 1, lines[|lines| - 1];
    if |l| > 1 {
      assert Tight(l[..|l| - 1]) by { assert Tight(l); }
      forall j | 0 <= j < n
        ensures Apart(lines[j], l[..|l| - 1])
      {
        assert Apart(lines[j], l);
      }
    }
  }

  lemma FlatOfShorter(lines: seq<seq<Word>>)
    requires lines != [] && lines[|lines| - 1] != []
    ensures var l := lines[|lines| - 1]; Flat(lines) == Flat(Shorter(lines)) + [l[|l| - 1]]
  {
    var l := lines[|lines| - 1];
    assert l == l[..|l| - 1] + [l[|l| - 1]];
    if |l| > 1 {
      assert Shorter(lines)[..|lines| - 1] == lines[..|lines| - 1];
    }
  }

  lemma LastOfFlat(lines: seq<seq<Word>>)
    requires lines != [] && lines[|lines| - 1] != []
    ensures var l := lines[|lines| - 1]; Flat(lines) != [] && Flat(lines)[|Flat(lines)| - 1] == l[|l| - 1]
  {
  }

  /** The last two words of a grouping share a line exactly when they are near. */
  lemma LastTwo(lines: seq<seq<Word>>)
    requires Ascends(lines) && lines != [] && lines[|lines| - 1] != [] && Shorter(lines) != []
    ensures Shorter(lines)[|Shorter(lines)| - 1] != []
    ensures var f := Flat(lines);
            |f| >= 2 && (f[|f| - 1].top - f[|f| - 2].top <= LINE_TOL <==> |lines[|lines| - 1]| > 1)
  {
    FlatOfShorter(lines);
    ShorterAscends(lines);
    LinesAreSome(Shorter(lines));
    LastOfFlat(Shorter(lines));
    var l, s := lines[|lines| - 1], Shorter(lines);
    assert Tight(l);
    hide Flat, Tight;
    if |l| == 1 {
      assert Apart(lines[|lines| - 2], l);
    }
  }

  /** The split is the only grouping of the sorted words into such lines. */
  lemma {:induction false} OnlyGrouping(lines: seq<seq<Word>>, words: seq<Word>, n: nat)
    requires n <= |words| && Ascends(lines) && Flat(lines) == words[..n]
    ensures lines == Split(words, n)
    decreases n
  {
    hide Ascends, Shorter;
    LinesAreSome(lines);
    if lines == [] {
      SplitStarts(words);
    } else {
      FlatOfShorter(lines);
      ShorterAscends(lines);
      assert words[..n][..n - 1] == words[..n - 1];
      assert Flat(Shorter(lines)) == Flat(lines)[..n - 1];
      OnlyGrouping(Shorter(lines), words, n - 1);
      SplitStep(words, n - 1);
      LastOfFlat(lines);
      if Shorter(lines) != [] {
        LastTwo(lines);
      }
      hide Flat, Split;
      GrowsBack(lines);
      if Shorter(lines) == [] {
        assert n == 1 by { NothingIsFlat(words, n - 1); }
      }
    }
  }

  lemma NothingIsFlat(words: seq<Word>, n: nat)
    requires n <= |words| && [] == Split(words, n)
    ensures n == 0
  {
  }

  lemma GrowsBack(lines: seq<seq<Word>>)
    requires lines != [] && lines[|lines| - 1] != []
    ensures var l, s := lines[|lines| - 1], Shorter(lines);
            && (|l| == 1 ==> lines == s + [[l[|l| - 1]]])
            && (|l| > 1 ==> s != [] && lines == s[|s| - 1 := s[|s| - 1] + [l[|l| - 1]]])
  {
    var l := lines[|lines| - 1];
    assert l == l[..|l| - 1] + [l[|l| - 1]] && lines == lines[..|lines| - 1] + [l];
  }

  // ----- the scan --------------------------------------------------------------

  /** The smallest distance of a word to the words of a line. */
  function Nearest(line: seq<Word>, w: Word): (d: real)
    requires line != []
    ensures exists x :: 0 <= x < |line| && d == Distance(line[x].top, w.top)
    ensures forall x :: 0 <= x < |line| ==> d <= Distance(line[x].top, w.top)
  {
    var last := Distance(line[|line| - 1].top, w.top);
    if |line| == 1 then last
    else
      var front := line[..|line| - 1];
      var rest := Nearest(front, w);
      var x :| 0 <= x < |front| && rest == Distance(front[x].top, w.top);
      assert rest == Distance(line[x].top, w.top);
      assert forall y :: 0 <= y < |front| ==> front[y] == line[y];
      if rest <= last then rest else last
  }

  /** The next word in order is near the last line exactly when it is near the last
      word, and near no other line. */
  lemma OnlyTheLastIsNear(lines: seq<seq<Word>>, last: Word, w: Word, k: nat)
    requires Ascends(lines) && NoneBelow(lines, last.top) && last.top <= w.top && k < |lines|
    requires var l := lines[|lines| - 1]; l != [] && l[|l| - 1] == last
    ensures lines[k] != []
    ensures Nearest(lines[k], w) <= LINE_TOL <==> k == |lines| - 1 && w.top - last.top <= LINE_TOL
  {
    hide Nearest, Apart, Ascends, NoneBelow, Tight;
    LineFacts(lines, last.top, k);
    if k < |lines| - 1 {
      ApartIsFar(lines[k], lines[|lines| - 1], w);
    } else {
      LastIsNearest(lines[k], w);
    }
  }

  lemma LineFacts(lines: seq<seq<Word>>, top: real, k: nat)
    requires Ascends(lines) && NoneBelow(lines, top) && k < |lines|
    ensures lines[k] != [] && forall x :: 0 <= x < |lines[k]| ==> lines[k][x].top <= top
    ensures k < |lines| - 1 ==> Apart(lines[k], lines[|lines| - 1])
  {
    hide Apart;
    assert Tight(lines[k]);
  }

  lemma ApartIsFar(line: seq<Word>, next: seq<Word>, w: Word)
    requires Apart(line, next) && line != [] && next != [] && next[|next| - 1].top <= w.top
    ensures Nearest(line, w) > LINE_TOL
  {
    hide Nearest;
    assert forall x :: 0 <= x < |line| ==> next[|next| - 1].top - line[x].top > LINE_TOL;
  }

  lemma LastIsNearest(line: seq<Word>, w: Word)
    requires line != [] && line[|line| - 1].top <= w.top
    requires forall x :: 0 <= x < |line| ==> line[x].top <= line[|line| - 1].top
    ensures Nearest(line, w) == w.top - line[|line| - 1].top
  {
    hide Nearest;
  }

  /** The key of the closing sort; no line is empty. */
  predicate NotBelow(a: seq<Word>, b: seq<Word>) { a == [] || b == [] || a[0].top <= b[0].top }

  function SortLines(lines: seq<seq<Word>>): (r: seq<seq<Word>>)
    ensures |r| == |lines| && multiset(r) == multiset(lines)
  {
    Sort(lines, NotBelow)
  }

  /** The closing sort moves nothing. */
  lemma LinesAreSorted(lines: seq<seq<Word>>)
    requires Ascends(lines)
    ensures forall k :: 0 <= k < |lines| ==> lines[k] != []
    ensures SortLines(lines) == lines
  {
    hide Ascends;
    LinesAreSome(lines);
    forall i, j | 0 <= i < j < |lines|
      ensures NotBelow(lines[i], lines[j])
    {
      UpperLineFirst(lines, i, j);
    }
    SortedStays(lines, NotBelow);
  }

  lemma LinesAreSome(lines: seq<seq<Word>>)
    requires Ascends(lines)
    ensures forall k :: 0 <= k < |lines| ==> lines[k] != []
  {
    assert forall k :: 0 <= k < |lines| ==> Tight(lines[k]);
  }

  lemma UpperLineFirst(lines: seq<seq<Word>>, i: nat, j: nat)
    requires Ascends(lines) && i < j < |lines|
    ensures NotBelow(lines[i], lines[j])
  {
    assert Apart(lines[i], lines[j]);
  }

  /** `_group_into_lines`. */
  method GroupIntoLines(words: seq<Word>) returns (lines: seq<seq<Word>>)
    ensures lines == Split(SortWords(words), |words|)
  {
    hide Split, Nearest, Ascends, NoneBelow, Sorted, NotAfter;
    var sorted := SortWords(words);
    SortWordsSorts(words);
    lines := [];
    assert Split(sorted, 0) == [] by { SplitStarts(sorted); }
    for i := 0 to |sorted|
      invariant lines == Split(sorted, i)
    {
      lines := PlaceWord(lines, sorted, i);
    }
    SplitCuts(sorted, |sorted|);
    LinesAreSorted(lines);
    lines := SortLines(lines);
  }

  lemma SplitStarts(words: seq<Word>)
    ensures Split(words, 0) == [] && Flat([]) == []
  {
  }

  /** The inner scan for one word. */
  method PlaceWord(lines: seq<seq<Word>>, sorted: seq<Word>, i: nat) returns (r: seq<seq<Word>>)
    requires i < |sorted| && Sorted(sorted) && lines == Split(sorted, i)
    ensures r == Split(sorted, i + 1)
  {
    SplitCuts(sorted, i);
    SplitStarts(sorted);
    assert i > 0 ==> NotAfter(sorted[i - 1], sorted[i]);
    hide Nearest, Ascends, NoneBelow, Sorted, Split, Tight, Apart;
    var w, placed := sorted[i], false;
    r := lines;
    for k := 0 to |lines|
      invariant !placed && r == lines
      invariant k == |lines| && i > 0 ==> w.top - sorted[i - 1].top > LINE_TOL
    {
      OnlyTheLastIsNear(lines, sorted[i - 1], w, k);
      if Nearest(lines[k], w) <= LINE_TOL {
        SplitStep(sorted, i);
        r := lines[k := lines[k] + [w]];
        placed := true;
        break;
      }
    }
    if !placed {
      SplitStep(sorted, i);
      r := r + [[w]];
    }
  }
}

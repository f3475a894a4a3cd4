/** Which lines of a body become sections and which become titles. */
module DiscoveryLaws {
  import opened Common
  import opened Discovery
  import Decimals

  // ----- code keys -------------------------------------------------------------

  ghost predicate Capitals(s: string) { forall i :: 0 <= i < |s| ==> 'A' <= s[i] <= 'Z' }

  /** One to three digits and up to three capitals. */
  ghost predicate Code(digits: string, suffix: string) {
    1 <= |digits| <= 3 && Decimals.AllDigits(digits) && |suffix| <= 3 && Capitals(suffix)
  }

  lemma {:induction false} DigitsCounted(digits: string, suffix: string, limit: nat)
    requires |digits| <= limit && Decimals.AllDigits(digits)
    requires suffix != "" && |digits| < limit ==> !Decimals.IsDigit(suffix[0])
    ensures DigitCount(digits + suffix, limit) == |digits|
  {
    if digits == "" {
      assert digits + suffix == suffix;
    } else {
      assert (digits + suffix)[1..] == digits[1..] + suffix;
      DigitsCounted(digits[1..], suffix, limit - 1);
    }
  }

  /** The key of a code is its number and its suffix. */
  lemma KeyOfCode(digits: string, suffix: string)
    requires Code(digits, suffix)
    ensures CodeKey(digits + suffix) == Key(Decimals.Read(digits), suffix)
  {
    DigitsCounted(digits, suffix, 3);
    assert (digits + suffix)[..|digits|] == digits && (digits + suffix)[|digits|..] == suffix;
  }

  /** Anything else has the key of no code. */
  lemma KeyOfOther(code: string)
    requires forall n :: 0 <= n <= |code| ==> !Code(code[..n], code[n..])
    ensures CodeKey(code) == Key(0, "")
  {
    var n := DigitCount(code, 3);
    assert code[..n] + code[n..] == code;
    assert !Code(code[..n], code[n..]);
  }

  /** Suffixes are ordered as in a dictionary. */
  lemma {:induction false} StringLessExactly(a: string, b: string)
    ensures StringLess(a, b) <==> exists k :: FirstDiffer(a, b, k)
  {
    if a != "" && b != "" && a[0] == b[0] {
      StringLessExactly(a[1..], b[1..]);
      if k :| FirstDiffer(a[1..], b[1..], k) {
        assert a[..k + 1] == [a[0]] + a[1..][..k] && b[..k + 1] == [b[0]] + b[1..][..k];
        assert FirstDiffer(a, b, k + 1);
      }
      if k :| FirstDiffer(a, b, k) {
        assert k > 0;
        assert a[1..][..k - 1] == a[..k][1..] && b[1..][..k - 1] == b[..k][1..];
        assert FirstDiffer(a[1..], b[1..], k - 1);
      }
    } else {
      assert a[..0] == b[..0];
      assert StringLess(a, b) ==> FirstDiffer(a, b, 0);
      forall k
        ensures FirstDiffer(a, b, k) ==> k == 0
      {
        DifferAtOnce(a, b, k);
      }
    }
  }

  lemma DifferAtOnce(a: string, b: string, k: int)
    requires a == "" || b == "" || a[0] != b[0]
    ensures FirstDiffer(a, b, k) ==> k == 0
  {
    if 0 < k <= |a| && k < |b| {
      assert a[..k][0] == a[0] && b[..k][0] == b[0];
    }
  }

  /** The two agree before `k`; there the first ends or has the smaller letter. */
  ghost predicate FirstDiffer(a: string, b: string, k: int) {
    0 <= k <= |a| && k < |b| && a[..k] == b[..k] && (k == |a| || a[k] < b[k])
  }

  // ----- section starts --------------------------------------------------------

  /** The line has the shape, passes its gates, and its code is behind `last`. */
  ghost predicate Dotted(line: Line, last: Option<Key>, code: string) {
    line.dotForm == Some(Opening(code, true)) && (last.Some? ==> Less(last.value, CodeKey(code)))
  }

  /** ... or extends the last section: the same number, a later suffix. */
  ghost predicate Bracketed(line: Line, last: Option<Key>, code: string) {
    && line.bracketParen == Some(Opening(code, true)) && last.Some?
    && CodeKey(code).number == last.value.number && Less(last.value, CodeKey(code))
  }

  ghost predicate Dotless(line: Line, last: Option<Key>, code: string) {
    line.dotless == Some(Opening(code, true)) && (last.Some? ==> Less(last.value, CodeKey(code)))
  }

  /** A section with this code starts on the line; the three shapes in turn. */
  ghost predicate Starts(line: Line, last: Option<Key>, code: string) {
    && !line.isTable && !line.blank && line.heading.None?
    && (|| Dotted(line, last, code)
        || (Bracketed(line, last, code) && !exists c :: Dotted(line, last, c))
        || (Dotless(line, last, code) && !(exists c :: Dotted(line, last, c)) && !exists c :: Bracketed(line, last, c)))
  }

  lemma StartCodeExactly(line: Line, last: Option<Key>, code: string)
    requires !line.isTable && !line.blank && line.heading.None?
    ensures StartCode(line, last) == Some(code) <==> Starts(line, last, code)
  {
    hide CodeKey, Less;
    if line.dotForm.Some? {
      assert Dotted(line, last, line.dotForm.value.code)
        <==> line.dotForm.value.passes && Beyond(CodeKey(line.dotForm.value.code), last);
    }
    if line.bracketParen.Some? {
      var c := line.bracketParen.value.code;
      assert Bracketed(line, last, c)
        <==> line.bracketParen.value.passes && last.Some? && Less(last.value, CodeKey(c))
             && CodeKey(c).number == last.value.number;
    }
  }

  lemma {:induction false} RealsFrom(body: seq<Line>, m: nat, n: nat)
    requires m <= n <= |body|
    ensures Scan(body, m).reals <= Scan(body, n).reals
    ensures forall k :: |Scan(body, m).reals| <= k < |Scan(body, n).reals| ==> Scan(body, n).reals[k].pos >= m
  {
    hide ReadLine;
    if m < n {
      RealsFrom(body, m, n - 1);
      ScanLength(body, n - 1);
      ReadLineShape(Scan(body, n - 1), body[n - 1]);
    }
  }

  /** The key of the last section above line `i`. */
  ghost function Before(reals: seq<Entry>, i: nat): Option<Key> {
    if reals == [] then None
    else if reals[|reals| - 1].pos < i then Some(CodeKey(reals[|reals| - 1].code))
    else Before(reals[..|reals| - 1], i)
  }

  lemma {:induction false} BeforeIs(reals: seq<Entry>, j: nat, i: nat)
    requires j <= |reals|
    requires forall k :: 0 <= k < j ==> reals[k].pos < i
    requires forall k :: j <= k < |reals| ==> reals[k].pos >= i
    ensures Before(reals, i) == if j == 0 then None else Some(CodeKey(reals[j - 1].code))
  {
    hide CodeKey;
    if j < |reals| {
      BeforeIs(reals[..|reals| - 1], j, i);
    }
  }

  /** The cursor at line `i` is the key of the last section above it. */
  lemma CursorIsBefore(body: seq<Line>, i: nat)
    requires i <= |body|
    ensures Scan(body, i).lastKey == Before(Scan(body, |body|).reals, i)
  {
    hide ReadLine, CodeKey, Rising;
    RealsRise(body, i);
    RealsFrom(body, i, |body|);
    BeforeIs(Scan(body, |body|).reals, |Scan(body, i).reals|, i);
  }

  /** A section starts on line `i`. */
  ghost predicate StartsOn(body: seq<Line>, i: nat) {
    exists k :: 0 <= k < |Scan(body, |body|).reals| && Scan(body, |body|).reals[k].pos == i
  }

  ghost predicate IsReal(reals: seq<Entry>, i: nat, code: string) {
    exists k :: 0 <= k < |reals| && reals[k].pos == i && reals[k].code == code
  }

  lemma StepStarts(s: State, line: Line, code: string)
    ensures var t := ReadLine(s, line);
            if Starts(line, s.lastKey, code) then
              |t.reals| == |s.reals| + 1 && t.reals[|s.reals|].code == code && t.reals[|s.reals|].pos == |s.containerAt|
            else |t.reals| == |s.reals| || t.reals[|s.reals|].code != code
  {
    hide StartCode, CodeKey, Starts;
    if !line.isTable && !line.blank && line.heading.None? {
      StartCodeExactly(line, s.lastKey, code);
    } else {
      NoStart(line, s.lastKey, code);
    }
  }

  lemma NoStart(line: Line, last: Option<Key>, code: string)
    requires line.isTable || line.blank || line.heading.Some?
    ensures !Starts(line, last, code)
  {
  }

  /** The real sections are exactly these: one on each line that opens with a code
      behind the key of the last section above it. */
  lemma RealsExactly(body: seq<Line>, i: nat, code: string)
    requires i < |body|
    ensures var reals := Scan(body, |body|).reals;
            IsReal(reals, i, code) <==> Starts(body[i], Before(reals, i), code)
  {
    hide ReadLine, Starts, CodeKey, Rising, Before;
    var s, t, reals := Scan(body, i), Scan(body, i + 1), Scan(body, |body|).reals;
    CursorIsBefore(body, i);
    StepStarts(s, body[i], code);
    RealsFrom(body, i, i + 1);
    RealsFrom(body, i + 1, |body|);
    RealsRise(body, i);
    RealsRise(body, i + 1);
    ScanLength(body, i);
    ReadLineShape(s, body[i]);
    assert forall k :: 0 <= k < |t.reals| ==> reals[k] == t.reals[k];
    if Starts(body[i], s.lastKey, code) {
      assert reals[|s.reals|].pos == i && reals[|s.reals|].code == code;
    }
  }

  // ----- titles ----------------------------------------------------------------

  predicate Empty(line: Line) { line.blank && !line.isTable }

  /** Line `i` may continue a title: no table, heading or section, and no line that
      opens like running text. */
  ghost predicate Continues(body: seq<Line>, i: nat)
    requires i < |body|
  {
    !body[i].isTable && body[i].heading.None? && !body[i].notTitle && !StartsOn(body, i)
  }

  /** Every line in (h, m) that is not empty may continue a title. */
  ghost predicate Unbroken(body: seq<Line>, h: nat, m: nat)
    requires m <= |body|
  {
    forall q :: h < q < m ==> Empty(body[q]) || Continues(body, q)
  }

  function Printed(body: seq<Line>, h: nat, m: nat): nat
    requires m <= |body|
  {
    if m <= h + 1 then 0 else Printed(body, h, m - 1) + if Empty(body[m - 1]) then 0 else 1
  }

  /** Line `i` is the first or second line of the title under heading `h`. */
  ghost predicate TitleLine(body: seq<Line>, h: nat, i: nat)
    requires i < |body|
  {
    h < i && !Empty(body[i]) && Unbroken(body, h, i + 1) && Printed(body, h, i) < 2
  }

  ghost function TitleLines(body: seq<Line>, h: nat, m: nat): set<nat>
    requires m <= |body|
  {
    set i: nat | i < m && TitleLine(body, h, i)
  }

  /** The scan at line `m` stands to the title of heading `h`, container `n`, so. */
  ghost predicate Titling(body: seq<Line>, h: nat, n: nat, m: nat)
    requires m <= |body|
  {
    var s := Scan(body, m);
    && n < |s.nodes| && s.nodes[n].titleLines == |TitleLines(body, h, m)|
    && (s.pending.Some? ==> s.pending.value < |s.nodes|)
    && if Unbroken(body, h, m) then s.pending == Some(n) && s.pendingLeft == Max(0, 2 - Printed(body, h, m))
       else s.pending != Some(n) || s.pendingLeft == 0
  }

  /** A section starts on the line exactly when the scan finds a code there. */
  lemma StartIsSeen(body: seq<Line>, i: nat)
    requires i < |body|
    ensures StartsOn(body, i) <==> |Scan(body, i + 1).reals| > |Scan(body, i).reals|
  {
    hide ReadLine, CodeKey, Rising;
    RealsFrom(body, i, i + 1);
    RealsFrom(body, i + 1, |body|);
    RealsRise(body, i);
    RealsRise(body, i + 1);
    ScanLength(body, i);
    ReadLineShape(Scan(body, i), body[i]);
    var s, t, reals := Scan(body, i), Scan(body, i + 1), Scan(body, |body|).reals;
    assert forall k :: 0 <= k < |t.reals| ==> reals[k] == t.reals[k];
    if |t.reals| > |s.reals| {
      assert reals[|s.reals|].pos == i;
    }
  }

  lemma TitleLinesGrow(body: seq<Line>, h: nat, m: nat)
    requires m < |body|
    ensures TitleLines(body, h, m + 1) == TitleLines(body, h, m) + if TitleLine(body, h, m) then {m} else {}
    ensures |TitleLines(body, h, m + 1)| == |TitleLines(body, h, m)| + if TitleLine(body, h, m) then 1 else 0
  {
    hide TitleLine;
    assert TitleLines(body, h, m + 1) == TitleLines(body, h, m) + if TitleLine(body, h, m) then {m} else {};
  }

  lemma UnbrokenGrows(body: seq<Line>, h: nat, m: nat)
    requires h < m < |body|
    ensures Unbroken(body, h, m + 1) <==> Unbroken(body, h, m) && (Empty(body[m]) || Continues(body, m))
  {
    hide Continues;
  }

  /** What one line does to the titles. */
  ghost predicate TitleStep(s: State, t: State, line: Line, started: bool) {
    if line.isTable || (!line.blank && line.heading.None? && started) then
      t.nodes == s.nodes && t.pending.None? && t.pendingLeft == 0
    else if line.blank then t.nodes == s.nodes && t.pending == s.pending && t.pendingLeft == s.pendingLeft
    else if line.heading.Some? then
      |t.nodes| == |s.nodes| + 1 && t.nodes[..|s.nodes|] == s.nodes && t.pending == Some(|s.nodes|)
      && t.pendingLeft == 2 && t.nodes[|s.nodes|].titleLines == 0
    else if s.pending.Some? && s.pending.value < |s.nodes| && s.pendingLeft > 0 then
      if line.notTitle then t.nodes == s.nodes && t.pending.None? && t.pendingLeft == 0
      else
        var n := s.pending.value;
        t.nodes == s.nodes[n := s.nodes[n].(titleLines := s.nodes[n].titleLines + 1)] && t.pending == s.pending
        && t.pendingLeft == s.pendingLeft - 1
    else t.nodes == s.nodes && t.pending == s.pending && t.pendingLeft == s.pendingLeft
  }

  lemma StepTitles(s: State, line: Line)
    ensures var t := ReadLine(s, line); TitleStep(s, t, line, |t.reals| > |s.reals|)
  {
    hide StartCode, CodeKey;
  }

  lemma {:induction false} TitlingStep(body: seq<Line>, h: nat, n: nat, m: nat)
    requires h < m < |body| && Titling(body, h, n, m)
    ensures Titling(body, h, n, m + 1)
  {
    var s, t := Scan(body, m), Scan(body, m + 1);
    assert t == ReadLine(s, body[m]);
    StepTitles(s, body[m]);
    StartIsSeen(body, m);
    TitleLinesGrow(body, h, m);
    UnbrokenGrows(body, h, m);
    assert Printed(body, h, m + 1) == Printed(body, h, m) + if Empty(body[m]) then 0 else 1;
    hide ReadLine, Scan, StartsOn, Unbroken, TitleLines, Printed;
  }

  lemma {:induction false} TitlingFrom(body: seq<Line>, h: nat, m: nat)
    requires h < m <= |body| && Opens(body[h])
    ensures Titling(body, h, Headings(body, h), m)
  {
    hide Titling, Scan;
    if m == h + 1 {
      TitlingStarts(body, h);
    } else {
      TitlingFrom(body, h, m - 1);
      TitlingStep(body, h, Headings(body, h), m - 1);
    }
  }

  lemma {:induction false} TitlingStarts(body: seq<Line>, h: nat)
    requires h < |body| && Opens(body[h])
    ensures Titling(body, h, Headings(body, h), h + 1)
  {
    var s, t := Scan(body, h), Scan(body, h + 1);
    LastHeadingOwns(body, h);
    ContainersNest(body, h);
    assert |s.nodes| == Headings(body, h);
    StepTitles(s, body[h]);
    assert t == ReadLine(s, body[h]);
    hide ReadLine, Scan, StartsOn, Continues, Headings, Nested, Owned;
    assert TitleLines(body, h, h + 1) == {};
    assert Unbroken(body, h, h + 1) && Printed(body, h, h + 1) == 0;
  }

  /** A container's title is the lines below its heading, at most two, up to the
      first table, heading, section or line that opens like running text. */
  lemma TitlesExactly(body: seq<Line>, h: nat)
    requires h < |body| && Opens(body[h])
    ensures var nodes, n := Scan(body, |body|).nodes, Headings(body, h);
            n < |nodes| && nodes[n].titleLines == |TitleLines(body, h, |body|)|
  {
    TitlingFrom(body, h, |body|);
  }

  // ----- placeholders ----------------------------------------------------------

  /** Note `y` of line `i` names this code and fits there: a late one names no real
      section, and the code lies between those of the sections above and below. */
  ghost predicate NoteFits(body: seq<Line>, reals: seq<Entry>, i: nat, y: nat, code: string) {
    && i < |body| && y < |body[i].omissions| && body[i].omissions[y].code == code
    && !body[i].isTable && !body[i].blank
    && (body[i].omissions[y].late ==> forall k :: 0 <= k < |reals| ==> reals[k].code != code)
    && (forall k :: 0 <= k < |reals| && reals[k].pos < i ==> !Less(CodeKey(code), CodeKey(reals[k].code)))
    && (forall k :: 0 <= k < |reals| && reals[k].pos >= i ==> !Less(CodeKey(reals[k].code), CodeKey(code)))
  }

  predicate Above(j: nat, z: nat, i: nat, y: nat) { j < i || (j == i && z < y) }

  /** ... and no note above names the code and fits. */
  ghost predicate FirstNote(body: seq<Line>, reals: seq<Entry>, i: nat, y: nat, code: string) {
    && NoteFits(body, reals, i, y, code)
    && forall j: nat, z: nat :: Above(j, z, i, y) ==> !NoteFits(body, reals, j, z, code)
  }

  ghost predicate EntryOn(ps: seq<Entry>, i: nat, code: string) {
    exists k :: 0 <= k < |ps| && ps[k].pos == i && ps[k].code == code
  }

  /** `ps` holds the first fitting notes above note `x` of line `n`, and no others. */
  ghost predicate FirstNotes(body: seq<Line>, reals: seq<Entry>, ps: seq<Entry>, n: nat, x: nat) {
    && (forall i: nat, code :: EntryOn(ps, i, code) <==>
          exists y: nat :: Above(i, y, n, x) && FirstNote(body, reals, i, y, code))
    && (forall code :: NewCode(ps, code) <==>
          forall j: nat, z: nat :: Above(j, z, n, x) ==> !NoteFits(body, reals, j, z, code))
  }

  lemma EntryOnMore(ps: seq<Entry>, e: Entry)
    ensures forall i: nat, code ::
              EntryOn(ps + [e], i, code) <==> EntryOn(ps, i, code) || (e.pos == i && e.code == code)
    ensures forall code :: NewCode(ps + [e], code) <==> NewCode(ps, code) && e.code != code
  {
    assert (ps + [e])[|ps|] == e && forall k :: 0 <= k < |ps| ==> (ps + [e])[k] == ps[k];
  }

  lemma AdmitsExactly(body: seq<Line>, reals: seq<Entry>, ps: seq<Entry>, n: nat, x: nat)
    requires Rising(reals) && n < |body| && x < |body[n].omissions| && !body[n].isTable && !body[n].blank
    ensures var o := body[n].omissions[x];
            Admits(reals, n, ps, o) <==> NoteFits(body, reals, n, x, o.code) && NewCode(ps, o.code)
  {
    hide Rising, FitsAt, CodeKey, Less, NewCode;
    NeighboursDecide(reals, n, CodeKey(body[n].omissions[x].code));
  }

  lemma OneNoteMore(body: seq<Line>, reals: seq<Entry>, ps: seq<Entry>, n: nat, x: nat, c: string, e: Entry)
    requires FirstNotes(body, reals, ps, n, x) && n < |body| && x < |body[n].omissions|
    requires body[n].omissions[x].code == c && e.pos == n && e.code == c
    ensures FirstNotes(body, reals,
                       if NoteFits(body, reals, n, x, c) && NewCode(ps, c) then ps + [e] else ps, n, x + 1)
  {
    EntryOnMore(ps, e);
    assert forall code :: NoteFits(body, reals, n, x, code) ==> code == c;
    assert NoteFits(body, reals, n, x, c) && NewCode(ps, c) <==> FirstNote(body, reals, n, x, c);
    AboveMore(n, x);
    hide NoteFits, NewCode, EntryOn, Above;
  }

  lemma AboveMore(n: nat, x: nat)
    ensures forall j: nat, z: nat :: Above(j, z, n, x + 1) <==> Above(j, z, n, x) || (j == n && z == x)
  {
    forall j: nat, z: nat
      ensures Above(j, z, n, x + 1) <==> Above(j, z, n, x) || (j == n && z == x)
    {
    }
  }

  lemma {:induction false} LineOfNotes(body: seq<Line>, reals: seq<Entry>, ps: seq<Entry>, n: nat, x: nat,
                                       container: Option<nat>)
    requires Rising(reals) && n < |body| && x <= |body[n].omissions| && !body[n].isTable && !body[n].blank
    requires FirstNotes(body, reals, ps, n, 0)
    ensures FirstNotes(body, reals, AdmitLine(reals, ps, n, container, body[n].omissions[..x]), n, x)
  {
    hide Rising, FirstNotes, Admits, NoteFits, NewCode;
    var os := body[n].omissions;
    if x > 0 {
      LineOfNotes(body, reals, ps, n, x - 1, container);
      assert os[..x][..x - 1] == os[..x - 1];
      var before, c := AdmitLine(reals, ps, n, container, os[..x - 1]), os[x - 1].code;
      AdmitsExactly(body, reals, before, n, x - 1);
      OneNoteMore(body, reals, before, n, x - 1, c, Entry(n, c, container, false));
    }
  }

  /** No note stands between the last one of a line and the next line. */
  lemma {:induction false} NextLine(body: seq<Line>, reals: seq<Entry>, ps: seq<Entry>, n: nat, x: nat)
    requires n < |body| && FirstNotes(body, reals, ps, n, x)
    requires x == |body[n].omissions| || body[n].isTable || body[n].blank
    ensures FirstNotes(body, reals, ps, n + 1, 0)
  {
    assert forall z: nat, code :: z >= x ==> !NoteFits(body, reals, n, z, code);
    hide EntryOn, NewCode, NoteFits;
    forall j: nat, z: nat, code | Above(j, z, n + 1, 0) && NoteFits(body, reals, j, z, code)
      ensures Above(j, z, n, x)
    {
    }
    assert forall j: nat, z: nat :: Above(j, z, n, x) ==> Above(j, z, n + 1, 0);
  }

  lemma {:induction false} ScanOfNotes(body: seq<Line>, s: State, n: nat)
    requires n <= |body| == |s.containerAt| && Rising(s.reals)
    ensures FirstNotes(body, s.reals, Placeholders(body, s, n), n, 0)
  {
    hide Rising, FirstNotes, AdmitLine;
    if n == 0 {
      NoNotes(body, s.reals);
    } else {
      ScanOfNotes(body, s, n - 1);
      var before, line := Placeholders(body, s, n - 1), body[n - 1];
      if line.isTable || line.blank {
        NextLine(body, s.reals, before, n - 1, 0);
      } else {
        var all := |line.omissions|;
        assert line.omissions[..all] == line.omissions;
        LineOfNotes(body, s.reals, before, n - 1, all, s.containerAt[n - 1]);
        NextLine(body, s.reals, Placeholders(body, s, n), n - 1, all);
      }
    }
  }

  lemma NoNotes(body: seq<Line>, reals: seq<Entry>)
    ensures FirstNotes(body, reals, [], 0, 0)
  {
  }

  /** A placeholder stands on a line for a code exactly when a note of the line names
      the code and fits there, and no note above it does. */
  lemma PlaceholdersExactly(body: seq<Line>, i: nat, code: string)
    ensures |Scan(body, |body|).containerAt| == |body|
    ensures var s := Scan(body, |body|);
            EntryOn(Placeholders(body, s, |body|), i, code) <==>
            exists y: nat :: FirstNote(body, s.reals, i, y, code)
  {
    ScanLength(body, |body|);
    RealsRise(body, |body|);
    hide Rising, Scan, Placeholders;
    var s := Scan(body, |body|);
    ScanOfNotes(body, s, |body|);
    assert forall y: nat :: FirstNote(body, s.reals, i, y, code) ==> Above(i, y, |body|, 0);
  }
}

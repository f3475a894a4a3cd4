/** Splitting zones into notes, splicing notes across pages. */
module Footnotes {
  import opened Common
  import Decimals

  /** A word of a zone line: its text and whether it is set in marker size. */
  datatype Word = Word(text: string, small: bool)

  /** A zone line, its words left to right, and whether it starts at the margin. */
  datatype Line = Line(words: seq<Word>, atMargin: bool)

  /** The words of one line kept by a note, and the page they print on. */
  datatype Record = Record(page: nat, words: seq<Word>)

  /** A note; the one with no marker continues the previous page's. */
  datatype Note = Note(marker: Option<Word>, records: seq<Record>, endPage: Option<nat>)

  predicate IsNumber(t: string) { t != "" && Decimals.AllDigits(t) }

  predicate IsMarkerWord(w: Word, wordsOnLine: nat) {
    (w.text == "*" || IsNumber(w.text)) && (w.small || wordsOnLine == 1)
  }

  predicate Bracketed(rest: seq<Word>) {
    rest != [] && rest[0].text != "" && rest[0].text[0] == '['
  }

  /** `_accept_marker`. */
  predicate AcceptMarker(t: string, rest: seq<Word>, accepted: set<string>, hasLead: bool) {
    && !(IsNumber(t) && Decimals.Read(t) >= 100)
    && !(Bracketed(rest) && t in accepted)
    && !(Bracketed(rest) && accepted == {} && hasLead)
  }

  predicate OpensNote(line: Line, accepted: set<string>, hasLead: bool) {
    && line.words != []
    && IsMarkerWord(line.words[0], |line.words|) && line.atMargin
    && AcceptMarker(line.words[0].text, line.words[1..], accepted, hasLead)
  }

  // ----- what a zone and its notes print ---------------------------------------

  function ZoneWords(lines: seq<Line>): seq<Word> {
    if lines == [] then [] else ZoneWords(lines[..|lines| - 1]) + lines[|lines| - 1].words
  }

  function RecordWords(records: seq<Record>): seq<Word> {
    if records == [] then [] else RecordWords(records[..|records| - 1]) + records[|records| - 1].words
  }

  function NoteWords(n: Note): seq<Word> {
    (if n.marker.Some? then [n.marker.value] else []) + RecordWords(n.records)
  }

  function NotesWords(notes: seq<Note>): seq<Word> {
    if notes == [] then [] else NotesWords(notes[..|notes| - 1]) + NoteWords(notes[|notes| - 1])
  }

  // ----- parsing ---------------------------------------------------------------

  datatype Zone = Zone(lead: seq<Record>, groups: seq<Note>, accepted: set<string>)

  /** A line opens a note, extends the last one, or joins the lead. */
  function ReadLine(page: nat, z: Zone, line: Line): Zone {
    if line.words == [] then z
    else if OpensNote(line, z.accepted, z.lead != []) then
      var rest := line.words[1..];
      Zone(z.lead,
           z.groups + [Note(Some(line.words[0]), if rest == [] then [] else [Record(page, rest)], None)],
           z.accepted + {line.words[0].text})
    else if z.groups != [] then
      var n := |z.groups| - 1;
      z.(groups := z.groups[n := z.groups[n].(records := z.groups[n].records + [Record(page, line.words)])])
    else z.(lead := z.lead + [Record(page, line.words)])
  }

  function ReadLines(page: nat, lines: seq<Line>): Zone {
    if lines == [] then Zone([], [], {})
    else ReadLine(page, ReadLines(page, lines[..|lines| - 1]), lines[|lines| - 1])
  }

  function Notes(z: Zone): seq<Note> {
    (if z.lead == [] then [] else [Note(None, z.lead, None)]) + z.groups
  }

  method ParseFootnotes(page: nat, lines: seq<Line>) returns (notes: seq<Note>)
    ensures notes == Notes(ReadLines(page, lines))
  {
    var lead: seq<Record>, groups: seq<Note>, accepted: set<string> := [], [], {};
    for i := 0 to |lines|
      invariant Zone(lead, groups, accepted) == ReadLines(page, lines[..i])
    {
      assert lines[..i + 1][..i] == lines[..i];
      var words := lines[i].words;
      if words != [] {
        if OpensNote(lines[i], accepted, lead != []) {
          groups := groups + [Note(Some(words[0]), if words[1..] == [] then [] else [Record(page, words[1..])], None)];
          accepted := accepted + {words[0].text};
        } else if groups != [] {
          var current := groups[|groups| - 1];
          groups := groups[|groups| - 1 := current.(records := current.records + [Record(page, words)])];
        } else {
          lead := lead + [Record(page, words)];
        }
      }
    }
    assert lines[..|lines|] == lines;
    notes := if lead == [] then groups else [Note(None, lead, None)] + groups;
  }

  lemma {:induction false} NotesWordsConcat(a: seq<Note>, b: seq<Note>)
    ensures NotesWords(a + b) == NotesWords(a) + NotesWords(b)
  {
    hide NoteWords;
    if b == [] {
      assert a + b == a;
    } else {
      NotesWordsConcat(a, b[..|b| - 1]);
      assert (a + b)[..|a + b| - 1] == a + b[..|b| - 1];
    }
  }

  lemma OneRecordMore(records: seq<Record>, r: Record)
    ensures RecordWords(records + [r]) == RecordWords(records) + r.words
  {
    assert (records + [r])[..|records|] == records;
  }

  lemma OneNote(n: Note)
    ensures NotesWords([n]) == NoteWords(n)
  {
    assert [n][..0] == [];
  }

  function Head(z: Zone): seq<Note> {
    if z.lead == [] then [] else [Note(None, z.lead, None)]
  }

  lemma OpenedKeepsWords(notes: seq<Note>, note: Note)
    ensures NotesWords(notes + [note]) == NotesWords(notes) + NoteWords(note)
  {
    NotesWordsConcat(notes, [note]);
    OneNote(note);
  }

  lemma ExtendedKeepsWords(notes: seq<Note>, last: Note, r: Record)
    ensures NotesWords(notes + [last.(records := last.records + [r])]) == NotesWords(notes + [last]) + r.words
  {
    OpenedKeepsWords(notes, last);
    OpenedKeepsWords(notes, last.(records := last.records + [r]));
    LongerNote(last, r);
    hide NotesWords, NoteWords;
    assert NotesWords(notes) + (NoteWords(last) + r.words) == NotesWords(notes) + NoteWords(last) + r.words;
  }

  lemma LongerNote(note: Note, r: Record)
    ensures NoteWords(note.(records := note.records + [r])) == NoteWords(note) + r.words
  {
    OneRecordMore(note.records, r);
  }

  lemma ReadLineKeepsWords(page: nat, z: Zone, line: Line)
    ensures NotesWords(Notes(ReadLine(page, z, line))) == NotesWords(Notes(z)) + line.words
  {
    hide OpensNote, NotesWords, NoteWords;
    var next := ReadLine(page, z, line);
    if line.words == [] {
    } else if OpensNote(line, z.accepted, z.lead != []) {
      var rest := line.words[1..];
      var note := Note(Some(line.words[0]), if rest == [] then [] else [Record(page, rest)], None);
      OpenedKeepsWords(Head(z) + z.groups, note);
      assert Notes(next) == Head(z) + z.groups + [note];
      FirstLineWords(page, line.words);
    } else if z.groups != [] {
      var n := |z.groups| - 1;
      ExtendedKeepsWords(Head(z) + z.groups[..n], z.groups[n], Record(page, line.words));
      assert Notes(z) == Head(z) + z.groups[..n] + [z.groups[n]];
      assert Notes(next) == Head(z) + z.groups[..n] + [next.groups[n]];
    } else {
      ExtendedKeepsWords([], Note(None, z.lead, None), Record(page, line.words));
      assert Notes(next) == [] + [Note(None, next.lead, None)];
      if z.lead == [] {
        EmptyNote();
        assert Notes(z) == [];
      } else {
        assert Notes(z) == [] + [Note(None, z.lead, None)];
      }
    }
  }

  lemma FirstLineWords(page: nat, words: seq<Word>)
    requires words != []
    ensures NoteWords(Note(Some(words[0]), if words[1..] == [] then [] else [Record(page, words[1..])], None)) == words
  {
    OneRecordMore([], Record(page, words[1..]));
    assert [] + [Record(page, words[1..])] == [Record(page, words[1..])];
    assert words == [words[0]] + words[1..];
  }

  lemma EmptyNote()
    ensures NotesWords([]) == [] && NotesWords([] + [Note(None, [], None)]) == []
  {
    OpenedKeepsWords([], Note(None, [], None));
  }

  /** No word of a zone is lost, doubled or reordered: read in turn, each note's
      marker followed by its records is the zone as printed. */
  lemma {:induction false} ParseKeepsWords(page: nat, lines: seq<Line>)
    ensures NotesWords(Notes(ReadLines(page, lines))) == ZoneWords(lines)
  {
    if lines != [] {
      ParseKeepsWords(page, lines[..|lines| - 1]);
      ReadLineKeepsWords(page, ReadLines(page, lines[..|lines| - 1]), lines[|lines| - 1]);
    }
  }

  // ----- which lines open notes ------------------------------------------------

  /** Line `i` opens a note where lines `o` above did: it is at the margin and its
      first word is a star or a number below 100, small or alone; and where a
      bracket follows the marker, none of them has that marker, and there is one
      unless no text stands above at all. */
  ghost predicate Opens(lines: seq<Line>, o: seq<nat>, i: nat)
    requires i < |lines| && Places(lines, o, i)
  {
    var words := lines[i].words;
    && words != [] && lines[i].atMargin && (words[0].small || |words| == 1)
    && (words[0].text == "*"
        || (words[0].text != "" && Decimals.AllDigits(words[0].text) && Decimals.Read(words[0].text) < 100))
    && (|words| > 1 && "[" <= words[1].text ==>
          && (forall k :: 0 <= k < |o| ==> lines[o[k]].words[0].text != words[0].text)
          && (o != [] || BlankAbove(lines, i)))
  }

  ghost predicate Places(lines: seq<Line>, o: seq<nat>, n: nat)
    requires n <= |lines|
  {
    Climbs(o) && forall k :: 0 <= k < |o| ==> o[k] < n && lines[o[k]].words != []
  }

  ghost predicate BlankAbove(lines: seq<Line>, n: nat)
    requires n <= |lines|
  {
    forall j: nat :: j < n ==> lines[j].words == []
  }

  /** The lines above `n` that open a note. */
  ghost function Openings(lines: seq<Line>, n: nat): (r: seq<nat>)
    requires n <= |lines|
    ensures Places(lines, r, n)
  {
    hide Climbs;
    if n == 0 then NothingClimbs(0, 0, (x: nat) => true); assert Range(0, 0) == []; []
    else
      var r := Openings(lines, n - 1);
      OneMoreClimbs(r, n - 1);
      if Opens(lines, r, n - 1) then r + [n - 1] else r
  }

  /** The lines of [lo, hi) that hold words, a record each. */
  function Recorded(page: nat, lines: seq<Line>, lo: nat, hi: nat): seq<Record>
    requires hi <= |lines|
    decreases hi
  {
    if hi <= lo then []
    else
      var words := lines[hi - 1].words;
      Recorded(page, lines, lo, hi - 1) + if words == [] then [] else [Record(page, words)]
  }

  /** The note line `i` opens, up to but not including line `hi`. */
  function NoteFrom(page: nat, lines: seq<Line>, i: nat, hi: nat): Note
    requires i < hi <= |lines| && lines[i].words != []
  {
    var words := lines[i].words;
    Note(Some(words[0]),
         (if |words| == 1 then [] else [Record(page, words[1..])]) + Recorded(page, lines, i + 1, hi), None)
  }

  /** Where the note of opening `k` ends: at the next one, or with the zone. */
  ghost function Until(o: seq<nat>, k: nat, n: nat): (r: nat)
    requires Climbs(o) && forall x :: 0 <= x < |o| ==> o[x] < n
    ensures r <= n && (0 < k <= |o| ==> o[k - 1] < r)
  {
    if k < |o| then o[k] else n
  }

  /** The lines before the first opening are the lead; each opening line and those up
      to the next are a note. */
  ghost predicate ReadsAs(page: nat, lines: seq<Line>, o: seq<nat>, n: nat, z: Zone)
    requires n <= |lines| && Places(lines, o, n)
  {
    && z.lead == Recorded(page, lines, 0, Until(o, 0, n))
    && |z.groups| == |o|
    && forall k: nat :: k < |o| ==> z.groups[k] == NoteFrom(page, lines, o[k], Until(o, k + 1, n))
  }

  /** The markers read so far are those of the lines that opened notes. */
  ghost predicate Accepts(lines: seq<Line>, o: seq<nat>, z: Zone)
    requires Places(lines, o, |lines|)
  {
    forall t :: t in z.accepted <==> exists k :: 0 <= k < |o| && lines[o[k]].words[0].text == t
  }

  lemma {:induction false} NothingRecorded(page: nat, lines: seq<Line>, hi: nat)
    requires hi <= |lines|
    ensures Recorded(page, lines, 0, hi) == [] <==> BlankAbove(lines, hi)
  {
    if hi > 0 {
      NothingRecorded(page, lines, hi - 1);
    }
  }

  lemma BracketFollows(words: seq<Word>)
    requires words != []
    ensures Bracketed(words[1..]) <==> |words| > 1 && "[" <= words[1].text
  {
    if |words| > 1 {
      assert words[1..][0] == words[1];
      assert "[" <= words[1].text <==> words[1].text != "" && words[1].text[0] == '[';
    }
  }

  lemma ZoneTells(page: nat, lines: seq<Line>, o: seq<nat>, n: nat, z: Zone)
    requires n <= |lines| && Places(lines, o, n) && ReadsAs(page, lines, o, n, z) && Accepts(lines, o, z)
    ensures o == [] <==> z.accepted == {}
    ensures o == [] ==> (z.lead == [] <==> BlankAbove(lines, n))
  {
    NothingRecorded(page, lines, n);
    if o != [] {
      assert lines[o[0]].words[0].text in z.accepted;
    }
  }

  /** What the loop asks of a line is what makes it open a note. */
  lemma AsksForOpening(lines: seq<Line>, o: seq<nat>, n: nat, z: Zone)
    requires n < |lines| && Places(lines, o, n) && Accepts(lines, o, z)
    requires o == [] <==> z.accepted == {}
    requires o == [] ==> (z.lead == [] <==> BlankAbove(lines, n))
    ensures OpensNote(lines[n], z.accepted, z.lead != []) <==> Opens(lines, o, n)
  {
    assert !IsNumber("*") by { assert !Decimals.IsDigit("*"[0]); }
    hide BlankAbove, Decimals.Read, IsNumber, Bracketed, Climbs;
    if lines[n].words != [] {
      BracketFollows(lines[n].words);
    }
  }

  lemma NothingRead(page: nat, lines: seq<Line>)
    ensures ReadsAs(page, lines, [], 0, ReadLines(page, [])) && Accepts(lines, [], ReadLines(page, []))
  {
  }

  lemma PlacesOneMore(lines: seq<Line>, o: seq<nat>, n: nat)
    requires n < |lines| && Places(lines, o, n)
    ensures Places(lines, o, n + 1)
    ensures lines[n].words != [] ==> Places(lines, o + [n], n + 1)
  {
    assert forall x :: x in o ==> x < n;
    OneMoreClimbs(o, n);
  }

  lemma {:induction false} AcceptsStep(page: nat, lines: seq<Line>, o: seq<nat>, n: nat, z: Zone)
    requires n < |lines| && Places(lines, o, n) && Accepts(lines, o, z)
    ensures if lines[n].words != [] && OpensNote(lines[n], z.accepted, z.lead != [])
            then Places(lines, o + [n], n + 1) && Accepts(lines, o + [n], ReadLine(page, z, lines[n]))
            else Accepts(lines, o, ReadLine(page, z, lines[n]))
  {
    hide OpensNote, Climbs;
    PlacesOneMore(lines, o, n);
    assert (o + [n])[|o|] == n && forall k :: 0 <= k < |o| ==> (o + [n])[k] == o[k];
  }

  lemma {:induction false} NoteLengthens(page: nat, lines: seq<Line>, i: nat, n: nat)
    requires i < n < |lines| && lines[i].words != []
    ensures NoteFrom(page, lines, i, n + 1) ==
            var note, words := NoteFrom(page, lines, i, n), lines[n].words;
            if words == [] then note else note.(records := note.records + [Record(page, words)])
  {
  }

  lemma {:induction false} NoteStarts(page: nat, lines: seq<Line>, n: nat)
    requires n < |lines| && lines[n].words != []
    ensures var words := lines[n].words;
            NoteFrom(page, lines, n, n + 1)
            == Note(Some(words[0]), if words[1..] == [] then [] else [Record(page, words[1..])], None)
  {
    assert Recorded(page, lines, n + 1, n + 1) == [];
  }

  /** A line that opens a note ends the one before it, or the lead. */
  lemma {:induction false} OpenedReads(page: nat, lines: seq<Line>, o: seq<nat>, n: nat, z: Zone)
    requires n < |lines| && Places(lines, o, n) && ReadsAs(page, lines, o, n, z)
    requires lines[n].words != [] && OpensNote(lines[n], z.accepted, z.lead != [])
    ensures Places(lines, o + [n], n + 1) && ReadsAs(page, lines, o + [n], n + 1, ReadLine(page, z, lines[n]))
  {
    PlacesOneMore(lines, o, n);
    NoteStarts(page, lines, n);
    var all, next := o + [n], ReadLine(page, z, lines[n]);
    hide NoteFrom, OpensNote;
    assert next.lead == z.lead && next.groups == z.groups + [NoteFrom(page, lines, n, n + 1)];
    hide Climbs, ReadLine;
    forall k: nat | k < |all|
      ensures next.groups[k] == NoteFrom(page, lines, all[k], Until(all, k + 1, n + 1))
    {
      if k < |o| {
        assert all[k] == o[k] && Until(all, k + 1, n + 1) == Until(o, k + 1, n);
      }
    }
  }

  /** Any other line extends the last note, or the lead. */
  lemma {:induction false} UnopenedReads(page: nat, lines: seq<Line>, o: seq<nat>, n: nat, z: Zone)
    requires n < |lines| && Places(lines, o, n) && ReadsAs(page, lines, o, n, z)
    requires lines[n].words == [] || !OpensNote(lines[n], z.accepted, z.lead != [])
    ensures Places(lines, o, n + 1) && ReadsAs(page, lines, o, n + 1, ReadLine(page, z, lines[n]))
  {
    PlacesOneMore(lines, o, n);
    if o == [] {
      assert Recorded(page, lines, 0, n + 1) == Recorded(page, lines, 0, n)
        + if lines[n].words == [] then [] else [Record(page, lines[n].words)];
      hide OpensNote, Climbs, NoteFrom, Recorded;
    } else {
      NoteLengthens(page, lines, o[|o| - 1], n);
      LastNoteGrows(page, z, lines[n]);
      hide OpensNote, Climbs, NoteFrom, ReadLine, Recorded;
      var next := ReadLine(page, z, lines[n]);
      forall k: nat | k < |o|
        ensures next.groups[k] == NoteFrom(page, lines, o[k], Until(o, k + 1, n + 1))
      {
        assert k + 1 < |o| ==> next.groups[k] == z.groups[k];
      }
    }
  }

  lemma {:induction false} LastNoteGrows(page: nat, z: Zone, line: Line)
    requires z.groups != [] && (line.words == [] || !OpensNote(line, z.accepted, z.lead != []))
    ensures var next, last := ReadLine(page, z, line), |z.groups| - 1;
            && next.lead == z.lead && |next.groups| == |z.groups| && next.groups[..last] == z.groups[..last]
            && next.groups[last] ==
               if line.words == [] then z.groups[last]
               else z.groups[last].(records := z.groups[last].records + [Record(page, line.words)])
  {
    hide OpensNote;
  }

  lemma {:induction false} ReadSoFar(page: nat, lines: seq<Line>, n: nat)
    requires n <= |lines|
    ensures ReadsAs(page, lines, Openings(lines, n), n, ReadLines(page, lines[..n]))
    ensures Accepts(lines, Openings(lines, n), ReadLines(page, lines[..n]))
  {
    hide ReadsAs, Accepts, OpensNote, ReadLine, Places, BlankAbove;
    if n == 0 {
      NothingRead(page, lines);
    } else {
      var o, z := Openings(lines, n - 1), ReadLines(page, lines[..n - 1]);
      ReadSoFar(page, lines, n - 1);
      ZoneTells(page, lines, o, n - 1, z);
      AsksForOpening(lines, o, n - 1, z);
      AcceptsStep(page, lines, o, n - 1, z);
      if lines[n - 1].words != [] && OpensNote(lines[n - 1], z.accepted, z.lead != []) {
        OpenedReads(page, lines, o, n - 1, z);
      } else {
        UnopenedReads(page, lines, o, n - 1, z);
      }
      assert lines[..n][..n - 1] == lines[..n - 1];
    }
  }

  /** A zone's notes are cut where lines open one: what stands above the first such
      line continues the previous page, and each note runs up to the next. */
  lemma {:induction false} NotesOpenExactly(page: nat, lines: seq<Line>)
    ensures ReadsAs(page, lines, Openings(lines, |lines|), |lines|, ReadLines(page, lines))
  {
    ReadSoFar(page, lines, |lines|);
    assert lines[..|lines|] == lines;
  }

  /** A page of parsed notes: a continuation only at the head, every record of the
      page it was read from. */
  ghost predicate ParsedPage(page: nat, notes: seq<Note>) {
    && (forall i :: 1 <= i < |notes| ==> notes[i].marker.Some?)
    && (forall i, r :: 0 <= i < |notes| && r in notes[i].records ==> r.page == page)
  }

  lemma {:induction false} ParseIsParsedPage(page: nat, lines: seq<Line>)
    ensures ParsedPage(page, Notes(ReadLines(page, lines)))
    ensures forall i :: 0 <= i < |ReadLines(page, lines).groups| ==>
              ReadLines(page, lines).groups[i].marker.Some?
    ensures forall r :: r in ReadLines(page, lines).lead ==> r.page == page
    ensures forall i, r :: 0 <= i < |ReadLines(page, lines).groups| && r in ReadLines(page, lines).groups[i].records
              ==> r.page == page
  {
    PagesOfZone(page, lines);
  }

  /** Every record read so far is of this page, and every note but the lead has a
      marker. */
  ghost predicate ZoneOf(page: nat, z: Zone) {
    && (forall r :: r in z.lead ==> r.page == page)
    && (forall i :: 0 <= i < |z.groups| ==> z.groups[i].marker.Some?)
    && (forall i, r :: 0 <= i < |z.groups| && r in z.groups[i].records ==> r.page == page)
  }

  lemma ReadLineStays(page: nat, z: Zone, line: Line)
    requires ZoneOf(page, z)
    ensures ZoneOf(page, ReadLine(page, z, line))
  {
  }

  lemma {:induction false} PagesOfZone(page: nat, lines: seq<Line>)
    ensures ZoneOf(page, ReadLines(page, lines))
  {
    hide ReadLine, ZoneOf;
    if lines == [] {
      EmptyZone(page);
    } else {
      PagesOfZone(page, lines[..|lines| - 1]);
      ReadLineStays(page, ReadLines(page, lines[..|lines| - 1]), lines[|lines| - 1]);
    }
  }

  lemma EmptyZone(page: nat)
    ensures ZoneOf(page, ReadLines(page, []))
  {
  }

  // ----- splicing across pages -------------------------------------------------

  /** Index of the last note left open, else of the last note. */
  function Target(notes: seq<Note>, endsOpen: Note -> bool, n: nat): (t: nat)
    requires 0 < |notes| && n <= |notes|
    ensures t < |notes|
    ensures endsOpen(notes[t]) || t == |notes| - 1
    ensures forall i :: t < i < n ==> !endsOpen(notes[i])
  {
    if n == 0 then |notes| - 1
    else if endsOpen(notes[n - 1]) then n - 1
    else Target(notes, endsOpen, n - 1)
  }

  function Spliced(target: Note, cont: Note, page: nat): Note {
    target.(records := target.records + cont.records, endPage := Some(page))
  }

  type Pages = seq<seq<Note>>

  /** The last page before `n` that still has notes. */
  function LastWithNotes(pages: Pages, n: nat): (r: Option<nat>)
    requires n <= |pages|
    ensures r.Some? ==> r.value < n && pages[r.value] != []
    ensures forall p :: 0 <= p < n && (r.None? || r.value < p) ==> pages[p] == []
  {
    if n == 0 then None else if pages[n - 1] != [] then Some(n - 1) else LastWithNotes(pages, n - 1)
  }

  /** Page `n` gives its leading continuation to the last page with notes. */
  function SplicePage(pages: Pages, endsOpen: Note -> bool, n: nat): (r: Pages)
    requires n < |pages|
    ensures |r| == |pages|
  {
    if pages[n] == [] || pages[n][0].marker.Some? || LastWithNotes(pages, n).None? then pages
    else
      var last := LastWithNotes(pages, n).value;
      var t := Target(pages[last], endsOpen, |pages[last]|);
      pages[last := pages[last][t := Spliced(pages[last][t], pages[n][0], n)]][n := pages[n][1..]]
  }

  function SplicePages(pages: Pages, endsOpen: Note -> bool, n: nat): (r: Pages)
    requires n <= |pages|
    ensures |r| == |pages|
  {
    if n == 0 then pages else SplicePage(SplicePages(pages, endsOpen, n - 1), endsOpen, n - 1)
  }

  /** The pages of footnotes, in page order. */
  class Store {
    var pages: Pages

    constructor (pages: Pages)
      ensures this.pages == pages
    {
      this.pages := pages;
    }

    /** `merge_footnote_continuations`. */
    method MergeContinuations(endsOpen: Note -> bool)
      modifies this
      ensures pages == SplicePages(old(pages), endsOpen, |old(pages)|)
    {
      var last: Option<nat> := None;
      for pg := 0 to |pages|
        invariant |pages| == |old(pages)|
        invariant pages == SplicePages(old(pages), endsOpen, pg)
        invariant last == LastWithNotes(pages, pg)
      {
        ghost var before := pages;
        if pages[pg] != [] && pages[pg][0].marker.None? {
          var cont := pages[pg][0];
          if last.Some? {
            var t := Target(pages[last.value], endsOpen, |pages[last.value]|);
            var target := pages[last.value][t];
            pages := pages[pg := pages[pg][1..]];
            pages := pages[last.value := pages[last.value][t := Spliced(target, cont, pg)]];
            LastUnmoved(before, pages, last.value, pg);
          }
        }
        assert pages == SplicePage(before, endsOpen, pg);
        if pages[pg] != [] {
          last := Some(pg);
        }
      }
    }
  }

  lemma {:induction false} LastUnmoved(a: Pages, b: Pages, last: nat, n: nat)
    requires |a| == |b| && n <= |a| && LastWithNotes(a, n) == Some(last)
    requires forall p :: 0 <= p < n ==> (a[p] == [] <==> b[p] == [])
    ensures LastWithNotes(b, n) == Some(last)
  {
    if a[n - 1] == [] {
      LastUnmoved(a, b, last, n - 1);
    }
  }

  // ----- what splicing keeps ---------------------------------------------------

  /** How often record `r` stands in some notes, and on some pages. */
  function NoteCount(notes: seq<Note>, r: Record): nat {
    if notes == [] then 0
    else NoteCount(notes[..|notes| - 1], r) + multiset(notes[|notes| - 1].records)[r]
  }

  function PageCount(pages: Pages, r: Record): nat {
    if pages == [] then 0 else PageCount(pages[..|pages| - 1], r) + NoteCount(pages[|pages| - 1], r)
  }

  lemma {:induction false} ReplaceNote(notes: seq<Note>, t: nat, note: Note, r: Record)
    requires t < |notes|
    ensures NoteCount(notes[t := note], r) + multiset(notes[t].records)[r] ==
        NoteCount(notes, r) + multiset(note.records)[r]
  {
    var n := |notes| - 1;
    if t < n {
      ReplaceNote(notes[..n], t, note, r);
      assert notes[t := note][..n] == notes[..n][t := note];
    } else {
      assert notes[t := note][..n] == notes[..n];
    }
  }

  lemma {:induction false} DropFirstNote(notes: seq<Note>, r: Record)
    requires notes != []
    ensures NoteCount(notes, r) == multiset(notes[0].records)[r] + NoteCount(notes[1..], r)
  {
    var n := |notes| - 1;
    if n > 0 {
      DropFirstNote(notes[..n], r);
      assert notes[1..][..n - 1] == notes[..n][1..];
    }
  }

  lemma {:induction false} ReplacePage(pages: Pages, p: nat, notes: seq<Note>, r: Record)
    requires p < |pages|
    ensures PageCount(pages[p := notes], r) + NoteCount(pages[p], r) == PageCount(pages, r) + NoteCount(notes, r)
  {
    hide NoteCount;
    var n := |pages| - 1;
    if p < n {
      ReplacePage(pages[..n], p, notes, r);
      assert pages[p := notes][..n] == pages[..n][p := notes];
    } else {
      assert pages[p := notes][..n] == pages[..n];
    }
  }

  lemma SplicePageKeepsRecords(pages: Pages, endsOpen: Note -> bool, n: nat, r: Record)
    requires n < |pages|
    ensures PageCount(SplicePage(pages, endsOpen, n), r) == PageCount(pages, r)
  {
    hide NoteCount, PageCount, Target, LastWithNotes;
    var last := LastWithNotes(pages, n);
    if pages[n] != [] && pages[n][0].marker.None? && last.Some? {
      var l := last.value;
      var t := Target(pages[l], endsOpen, |pages[l]|);
      var cont, note := pages[n][0], Spliced(pages[l][t], pages[n][0], n);
      ReplaceNote(pages[l], t, note, r);
      assert multiset(note.records) == multiset(pages[l][t].records) + multiset(cont.records);
      DropFirstNote(pages[n], r);
      var grown := pages[l := pages[l][t := note]];
      ReplacePage(pages, l, pages[l][t := note], r);
      ReplacePage(grown, n, pages[n][1..], r);
    }
  }

  /** Splicing neither loses nor doubles a record, whatever it splices where. */
  lemma {:induction false} SpliceKeepsRecords(pages: Pages, endsOpen: Note -> bool, n: nat, r: Record)
    requires n <= |pages|
    ensures PageCount(SplicePages(pages, endsOpen, n), r) == PageCount(pages, r)
  {
    hide PageCount, SplicePage;
    if n > 0 {
      SpliceKeepsRecords(pages, endsOpen, n - 1, r);
      SplicePageKeepsRecords(SplicePages(pages, endsOpen, n - 1), endsOpen, n - 1, r);
    }
  }

  ghost predicate InPageOrder(records: seq<Record>) {
    forall i, j :: 0 <= i < j < |records| ==> records[i].page <= records[j].page
  }

  /** A page's notes once pages 0 to n - 1 are spliced: records from this page to
      page n - 1, in page order; a continuation only at the head, and only where
      no earlier page had a note. */
  ghost predicate PageSpliced(pages0: Pages, notes: seq<Note>, p: nat, n: nat)
    requires p <= |pages0|
  {
    forall i :: 0 <= i < |notes| ==>
      && InPageOrder(notes[i].records)
      && (forall r :: r in notes[i].records ==> p <= r.page < n)
      && (notes[i].marker.None? ==> i == 0 && forall q :: 0 <= q < p ==> pages0[q] == [])
  }

  ghost predicate SplicedTo(pages0: Pages, pages: Pages, n: nat)
    requires n <= |pages| == |pages0|
  {
    && (forall p :: n <= p < |pages| ==> pages[p] == pages0[p])
    && (forall p :: 0 <= p < n ==> PageSpliced(pages0, pages[p], p, n))
    && (LastWithNotes(pages, n).None? ==> forall q :: 0 <= q < n ==> pages0[q] == [])
  }

  ghost predicate AllParsed(pages: Pages) {
    forall p :: 0 <= p < |pages| ==> ParsedPage(p, pages[p])
  }

  lemma {:induction false} SpliceOrders(pages: Pages, endsOpen: Note -> bool, n: nat)
    requires AllParsed(pages) && n <= |pages|
    ensures SplicedTo(pages, SplicePages(pages, endsOpen, n), n)
  {
    hide SplicePage, InPageOrder, LastWithNotes, AllParsed;
    if n > 0 {
      SpliceOrders(pages, endsOpen, n - 1);
      SpliceOrdersStep(pages, SplicePages(pages, endsOpen, n - 1), endsOpen, n - 1);
    }
  }

  /** A note that takes on the next page's continuation. */
  lemma SplicedNoteOk(pages0: Pages, notes: seq<Note>, t: nat, cont: Note, p: nat, n: nat)
    requires p < n <= |pages0| && t < |notes| && PageSpliced(pages0, notes, p, n)
    requires forall r :: r in cont.records ==> r.page == n
    ensures PageSpliced(pages0, notes[t := Spliced(notes[t], cont, n)], p, n + 1)
  {
    var grown := notes[t].records + cont.records;
    forall i, j | 0 <= i < j < |grown|
      ensures grown[i].page <= grown[j].page
    {
      assert grown[i] in notes[t].records || grown[i] in cont.records;
      assert grown[j] in notes[t].records || grown[j] in cont.records;
    }
  }

  lemma SpliceOrdersStep(pages0: Pages, pages: Pages, endsOpen: Note -> bool, n: nat)
    requires n < |pages| == |pages0| && AllParsed(pages0) && SplicedTo(pages0, pages, n)
    ensures SplicedTo(pages0, SplicePage(pages, endsOpen, n), n + 1)
  {
    var next := SplicePage(pages, endsOpen, n);
    assert ParsedPage(n, pages[n]);
    var last := LastWithNotes(pages, n);
    hide LastWithNotes, InPageOrder;
    forall p | 0 <= p < n && (last.None? || p != last.value || next[p] == pages[p])
      ensures PageSpliced(pages0, next[p], p, n + 1)
    {
      assert PageSpliced(pages0, pages[p], p, n);
      assert next[p] == pages[p];
    }
    if last.Some? && pages[n] != [] && pages[n][0].marker.None? {
      var l := last.value;
      assert PageSpliced(pages0, pages[l], l, n);
      SplicedNoteOk(pages0, pages[l], Target(pages[l], endsOpen, |pages[l]|), pages[n][0], l, n);
    }
    ThisPageOk(pages0, pages, endsOpen, n);
    NotesRemain(pages0, pages, endsOpen, n);
  }

  lemma ThisPageOk(pages0: Pages, pages: Pages, endsOpen: Note -> bool, n: nat)
    requires n < |pages| == |pages0| && AllParsed(pages0) && SplicedTo(pages0, pages, n)
    ensures PageSpliced(pages0, SplicePage(pages, endsOpen, n)[n], n, n + 1)
  {
    var notes := SplicePage(pages, endsOpen, n)[n];
    assert ParsedPage(n, pages[n]) && pages[n] == pages0[n];
    assert notes == pages[n] || notes == pages[n][1..];
    hide LastWithNotes, Target;
    forall i | 0 <= i < |notes|
      ensures InPageOrder(notes[i].records)
    {
      forall j | 0 <= j < |notes[i].records|
        ensures notes[i].records[j].page == n
      {
        assert notes[i].records[j] in notes[i].records;
      }
    }
  }

  lemma NotesRemain(pages0: Pages, pages: Pages, endsOpen: Note -> bool, n: nat)
    requires n < |pages| == |pages0| && SplicedTo(pages0, pages, n)
    ensures LastWithNotes(SplicePage(pages, endsOpen, n), n + 1).None? ==>
              forall q :: 0 <= q < n + 1 ==> pages0[q] == []
  {
    hide PageSpliced, Target;
    var next := SplicePage(pages, endsOpen, n);
    var last := LastWithNotes(pages, n);
    if last.Some? {
      assert next[last.value] != [];
    } else if LastWithNotes(next, n + 1).None? {
      assert next[n] == [] && next == pages;
    }
  }

  /** After the merge every note's records stand in page order, and at most one
      continuation is left: at the head of the first page with any footnote. */
  lemma MergeOutcome(pages: Pages, endsOpen: Note -> bool, p: nat, i: nat)
    requires AllParsed(pages) && p < |pages|
    requires i < |SplicePages(pages, endsOpen, |pages|)[p]|
    ensures var note := SplicePages(pages, endsOpen, |pages|)[p][i];
            && InPageOrder(note.records)
            && (note.marker.None? ==> i == 0 && pages[p] != [] && forall q :: 0 <= q < p ==> pages[q] == [])
  {
    SpliceOrders(pages, endsOpen, |pages|);
    assert PageSpliced(pages, SplicePages(pages, endsOpen, |pages|)[p], p, |pages|);
    if pages[p] == [] {
      EmptyStaysEmpty(pages, endsOpen, |pages|, p);
    }
  }

  lemma {:induction false} EmptyStaysEmpty(pages: Pages, endsOpen: Note -> bool, n: nat, p: nat)
    requires n <= |pages| && p < |pages| && pages[p] == []
    ensures SplicePages(pages, endsOpen, n)[p] == []
  {
    if n > 0 {
      EmptyStaysEmpty(pages, endsOpen, n - 1, p);
    }
  }
}

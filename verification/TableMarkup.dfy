/** Tables as markup, printed and read back. */
module TableMarkup {
  import opened Common
  import opened Tables
  import Decimals

  // ----- escaping --------------------------------------------------------------

  function EscapeChar(c: char): (r: string)
    ensures '<' !in r && '>' !in r
  {
    if c == '&' then "&amp;"
    else if c == '<' then "&lt;"
    else if c == '>' then "&gt;"
    else if c == '"' then "&quot;"
    else if c == '\'' then "&#x27;"
    else [c]
  }

  /** `html.escape`. */
  function Escape(t: string): (r: string)
    ensures '<' !in r && '>' !in r
  {
    if t == "" then "" else EscapeChar(t[0]) + Escape(t[1..])
  }

  predicate StartsWith(s: string, pat: string) {
    |pat| <= |s| && forall i :: 0 <= i < |pat| ==> s[i] == pat[i]
  }

  /** `html.unescape` on the five references the printer writes. */
  function Unescape(s: string): string {
    if s == "" then ""
    else if StartsWith(s, "&amp;") then "&" + Unescape(s[5..])
    else if StartsWith(s, "&lt;") then "<" + Unescape(s[4..])
    else if StartsWith(s, "&gt;") then ">" + Unescape(s[4..])
    else if StartsWith(s, "&quot;") then "\"" + Unescape(s[6..])
    else if StartsWith(s, "&#x27;") then "'" + Unescape(s[6..])
    else [s[0]] + Unescape(s[1..])
  }

  lemma UnescapeReference(c: char, rest: string)
    requires c in "&<>\"'"
    ensures Unescape(EscapeChar(c) + rest) == [c] + Unescape(rest)
  {
    var r := EscapeChar(c);
    var s := r + rest;
    assert s[|r|..] == rest;
    assert s[0] == '&' && s[1] == r[1];
    assert StartsWith(s, r);
  }

  lemma UnescapePlain(c: char, rest: string)
    requires c !in "&<>\"'"
    ensures EscapeChar(c) == [c] && Unescape([c] + rest) == [c] + Unescape(rest)
  {
    var s := [c] + rest;
    assert s[1..] == rest && s[0] == c && c != '&';
  }

  lemma {:induction false} UnescapeEscape(t: string)
    ensures Unescape(Escape(t)) == t
  {
    if t != "" {
      UnescapeEscape(t[1..]);
      assert Escape(t) == EscapeChar(t[0]) + Escape(t[1..]) && t == [t[0]] + t[1..];
      hide Escape, Unescape;
      if t[0] in "&<>\"'" {
        UnescapeReference(t[0], Escape(t[1..]));
      } else {
        UnescapePlain(t[0], Escape(t[1..]));
      }
    }
  }

  // ----- searching -------------------------------------------------------------

  /** What stands before and after the first `pat` in `s`: a non-greedy match. */
  function SplitAt(s: string, pat: string): (r: Option<(string, string)>)
    ensures r.Some? && |pat| > 0 ==> |r.value.1| < |s|
  {
    if StartsWith(s, pat) then Some(("", s[|pat|..]))
    else if s == "" then None
    else
      var r := SplitAt(s[1..], pat);
      if r.None? then None else Some(([s[0]] + r.value.0, r.value.1))
  }

  lemma {:induction false} SplitAtClean(u: string, pat: string, v: string)
    requires |pat| > 0 && pat[0] !in u
    ensures SplitAt(u + pat + v, pat) == Some((u, v))
  {
    var s := u + pat + v;
    if u == "" {
      assert s[|pat|..] == v;
    } else {
      assert s[0] == u[0] && u[0] in u;
      assert s[1..] == u[1..] + pat + v;
      SplitAtClean(u[1..], pat, v);
      assert [u[0]] + u[1..] == u;
    }
  }

  // ----- printing --------------------------------------------------------------

  function SpanAttr(name: string, n: nat): string {
    if n > 1 then " " + name + "=\"" + Decimals.Print(n) + "\"" else ""
  }

  function PrintCell(c: Cell, tag: string): string {
    "<" + tag + SpanAttr("colspan", c.colspan) + SpanAttr("rowspan", c.rowspan) + ">"
    + Escape(c.text) + "</" + tag + ">"
  }

  /** The cells `_tr` emits: it steps over a cell's colspan and over empty slots. */
  function Emitted(row: Slots, ci: nat): seq<Cell>
    requires forall i :: 0 <= i < |row| && row[i].Some? ==> row[i].value.colspan >= 1
    decreases |row| - ci
  {
    if ci >= |row| then []
    else if row[ci].None? then Emitted(row, ci + 1)
    else [row[ci].value] + Emitted(row, ci + row[ci].value.colspan)
  }

  function PrintCells(cells: seq<Cell>, tag: string): string {
    if cells == [] then "" else PrintCell(cells[0], tag) + "\n" + PrintCells(cells[1..], tag)
  }

  /** `"\n".join` of the cells, between line breaks. */
  function PrintRow(cells: seq<Cell>, tag: string): string {
    if cells == [] then "<tr>\n\n</tr>" else "<tr>\n" + PrintCells(cells, tag) + "</tr>"
  }

  function JoinRows(rows: Rows, tag: string): string {
    if rows == [] then ""
    else if |rows| == 1 then PrintRow(rows[0], tag)
    else PrintRow(rows[0], tag) + "\n" + JoinRows(rows[1..], tag)
  }

  function EmittedRows(g: Grid): (r: Rows)
    requires forall r, i :: 0 <= r < |g| && 0 <= i < |g[r]| && g[r][i].Some? ==> g[r][i].value.colspan >= 1
    ensures |r| == |g| && forall i :: 0 <= i < |g| ==> r[i] == Emitted(g[i], 0)
  {
    seq(|g|, r requires 0 <= r < |g| => Emitted(g[r], 0))
  }

  /** The markup with the first `head` rows in the table head. */
  function PrintTable(rows: Rows, head: nat): string
    requires head <= |rows|
  {
    var open, body, close := "<table class=\"fbr-table\">\n", "<tbody>\n", "\n</tbody>\n</table>";
    if head == 0 then open + body + JoinRows(rows, "td") + close
    else
      open + "<thead>\n" + JoinRows(rows[..head], "th") + "\n</thead>\n"
      + body + JoinRows(rows[head..], "td") + close
  }

  predicate Wide(g: Grid) { exists r | 0 <= r < |g| :: |g[r]| >= 2 }

  /** `render_structure`: nothing at all for a table no row of which has two slots. */
  function Render(g: Grid, head: nat): string
    requires forall r, i :: 0 <= r < |g| && 0 <= i < |g[r]| && g[r][i].Some? ==> g[r][i].value.colspan >= 1
    requires head <= |g|
  {
    if Wide(g) then PrintTable(EmittedRows(g), head) else ""
  }

  // ----- reading ---------------------------------------------------------------

  predicate IsWord(c: char) {
    'a' <= c <= 'z' || 'A' <= c <= 'Z' || '0' <= c <= '9' || c == '_'
  }

  function DigitRun(s: string): (n: nat)
    ensures n <= |s| && forall k :: 0 <= k < n ==> Decimals.IsDigit(s[k])
  {
    if s == "" || !Decimals.IsDigit(s[0]) then 0 else 1 + DigitRun(s[1..])
  }

  /** The first `\bkey(\d+)"`, or 1. */
  function SpanOf(s: string, key: string, afterWord: bool): nat {
    if s == "" then 1
    else
      var n := if StartsWith(s, key) then DigitRun(s[|key|..]) else 0;
      if !afterWord && n > 0 && |key| + n < |s| && s[|key| + n] == '"' then
        assert s[|key|..][..n] == s[|key|..|key| + n];
        Decimals.Read(s[|key|..|key| + n])
      else SpanOf(s[1..], key, IsWord(s[0]))
  }

  function ReadCell(attrs: string, body: string): Cell {
    Cell(Unescape(body), SpanOf(attrs, "colspan=\"", false), SpanOf(attrs, "rowspan=\"", false))
  }

  /** A `td` or `th` element at the head of `s`, and what follows it. */
  function CellAt(s: string): (r: Option<(Cell, string)>)
    ensures r.Some? ==> |r.value.1| < |s|
  {
    if !StartsWith(s, "<td") && !StartsWith(s, "<th") then None
    else
      var open := SplitAt(s[3..], ">");
      if open.None? then None
      else
        var inner := SplitAt(open.value.1, "</t" + [s[2]] + ">");
        if inner.None? then None
        else Some((ReadCell(open.value.0, inner.value.0), inner.value.1))
  }

  function ReadCells(s: string): seq<Cell>
    decreases |s|
  {
    if s == "" then []
    else
      var c := CellAt(s);
      if c.None? then ReadCells(s[1..]) else [c.value.0] + ReadCells(c.value.1)
  }

  /** `_table_struct`. */
  function ReadTable(s: string): Rows
    decreases |s|
  {
    var open := SplitAt(s, "<tr>");
    if open.None? then []
    else
      var row := SplitAt(open.value.1, "</tr>");
      if row.None? then [] else [ReadCells(row.value.0)] + ReadTable(row.value.1)
  }

  // ----- what the printer writes cannot be mistaken ----------------------------

  /** No occurrence of `pat` starts inside `u`, whatever follows it. */
  ghost predicate Inert(u: string, pat: string) {
    forall i :: 0 <= i < |u| ==> MismatchAt(u, pat, i)
  }

  ghost predicate MismatchAt(u: string, pat: string, i: nat) {
    exists j :: 0 <= j < |pat| && i + j < |u| && u[i + j] != pat[j]
  }

  lemma Differs(u: string, pat: string, i: nat, j: nat)
    requires j < |pat| && i + j < |u| && u[i + j] != pat[j]
    ensures MismatchAt(u, pat, i)
  {}

  lemma CleanIsInert(u: string, pat: string)
    requires |pat| > 0 && pat[0] !in u
    ensures Inert(u, pat)
  {
    forall i | 0 <= i < |u|
      ensures MismatchAt(u, pat, i)
    {
      assert u[i] in u;
      Differs(u, pat, i, 0);
    }
  }

  lemma InertConcat(u: string, v: string, pat: string)
    requires Inert(u, pat) && Inert(v, pat)
    ensures Inert(u + v, pat)
  {
    forall i | 0 <= i < |u + v|
      ensures MismatchAt(u + v, pat, i)
    {
      if i < |u| {
        assert MismatchAt(u, pat, i);
        var j :| 0 <= j < |pat| && i + j < |u| && u[i + j] != pat[j];
        assert (u + v)[i + j] != pat[j];
      } else {
        assert MismatchAt(v, pat, i - |u|);
        var j :| 0 <= j < |pat| && i - |u| + j < |v| && v[i - |u| + j] != pat[j];
        assert (u + v)[i + j] != pat[j];
      }
    }
  }

  lemma {:induction false} SplitAtInert(u: string, s: string, pat: string)
    requires |pat| > 0 && Inert(u, pat)
    ensures SplitAt(u + s, pat) ==
            match SplitAt(s, pat) case None => None case Some(r) => Some((u + r.0, r.1))
  {
    if u == "" {
      assert u + s == s;
      match SplitAt(s, pat) {
        case None =>
        case Some(r) => assert u + r.0 == r.0;
      }
    } else {
      assert MismatchAt(u, pat, 0);
      assert !StartsWith(u + s, pat);
      assert (u + s)[1..] == u[1..] + s;
      forall i | 0 <= i < |u[1..]|
        ensures MismatchAt(u[1..], pat, i)
      {
        assert MismatchAt(u, pat, i + 1);
        var j :| 0 <= j < |pat| && i + 1 + j < |u| && u[i + 1 + j] != pat[j];
        assert u[1..][i + j] != pat[j];
      }
      SplitAtInert(u[1..], s, pat);
      match SplitAt(s, pat) {
        case None =>
        case Some(r) => assert [u[0]] + (u[1..] + r.0) == u + r.0;
      }
    }
  }

  // ----- attributes ------------------------------------------------------------

  lemma {:induction false} DigitRunStops(d: string, tail: string)
    requires Decimals.AllDigits(d) && (tail == "" || !Decimals.IsDigit(tail[0]))
    ensures DigitRun(d + tail) == |d|
  {
    if d == "" {
      assert d + tail == tail;
    } else {
      assert (d + tail)[1..] == d[1..] + tail;
      DigitRunStops(d[1..], tail);
    }
  }

  lemma SpanOfHit(key: string, n: nat, tail: string)
    requires |key| > 0
    ensures SpanOf(key + Decimals.Print(n) + "\"" + tail, key, false) == n
  {
    var d := Decimals.Print(n);
    var s := key + d + "\"" + tail;
    assert StartsWith(s, key);
    assert s[|key|..] == d + ("\"" + tail);
    DigitRunStops(d, "\"" + tail);
    assert s[|key|..|key| + |d|] == d;
    Decimals.ReadPrint(n);
  }

  lemma {:induction false} SpanOfSkips(u: string, s: string, key: string, afterWord: bool)
    requires |key| > 0 && key[0] !in u
    ensures SpanOf(u + s, key, afterWord) == SpanOf(s, key, if u == "" then afterWord else IsWord(u[|u| - 1]))
  {
    if u == "" {
      assert u + s == s;
    } else {
      assert u[0] in u && !StartsWith(u + s, key);
      assert (u + s)[1..] == u[1..] + s;
      SpanOfSkips(u[1..], s, key, IsWord(u[0]));
    }
  }

  lemma SpanAttrClean(name: string, n: nat, c: char)
    requires c !in name && c !in " =\"" && !Decimals.IsDigit(c)
    ensures c !in SpanAttr(name, n)
  {}

  function Attrs(c: Cell): string {
    SpanAttr("colspan", c.colspan) + SpanAttr("rowspan", c.rowspan)
  }

  lemma OwnSpan(name: string, n: nat, tail: string)
    requires n >= 1 && |name| > 0 && name[0] != ' '
    requires n == 1 ==> name[0] !in tail
    ensures SpanOf(SpanAttr(name, n) + tail, name + "=\"", false) == n
  {
    var key := name + "=\"";
    if n == 1 {
      assert SpanAttr(name, n) + tail == tail + "";
      SpanOfSkips(tail, "", key, false);
    } else {
      var s := key + Decimals.Print(n) + "\"" + tail;
      assert SpanAttr(name, n) + tail == " " + s;
      SpanOfSkips(" ", s, key, false);
      SpanOfHit(key, n, tail);
    }
  }

  lemma ColspanReads(c: Cell)
    requires c.colspan >= 1
    ensures SpanOf(Attrs(c), "colspan=\"", false) == c.colspan
  {
    SpanAttrClean("rowspan", c.rowspan, 'c');
    OwnSpan("colspan", c.colspan, SpanAttr("rowspan", c.rowspan));
    assert "colspan" + "=\"" == "colspan=\"";
  }

  lemma RowspanReads(c: Cell)
    requires c.rowspan >= 1
    ensures SpanOf(Attrs(c), "rowspan=\"", false) == c.rowspan
  {
    var u, key := SpanAttr("colspan", c.colspan), "rowspan=\"";
    SpanAttrClean("colspan", c.colspan, 'r');
    SpanOfSkips(u, SpanAttr("rowspan", c.rowspan), key, false);
    OwnSpan("rowspan", c.rowspan, "");
    assert "rowspan" + "=\"" == key;
    assert SpanAttr("rowspan", c.rowspan) + "" == SpanAttr("rowspan", c.rowspan);
  }

  // ----- the round trip --------------------------------------------------------

  predicate IsTag(tag: string) { tag == "td" || tag == "th" }

  lemma CellAtOpen(tag: string, attrs: string, body: string, rest: string)
    requires IsTag(tag) && '>' !in attrs && '<' !in body
    ensures CellAt("<" + tag + (attrs + ">" + (body + ("</" + tag + ">") + rest))) ==
        Some((ReadCell(attrs, body), rest))
  {
    hide SplitAt, ReadCell;
    var close := "</" + tag + ">";
    var inner := attrs + ">" + (body + close + rest);
    var s := "<" + tag + inner;
    assert s[0] == '<' && s[1] == 't' && s[2] == tag[1];
    assert s[3..] == inner;
    SplitAtClean(attrs, ">", body + close + rest);
    assert close == "</t" + [s[2]] + ">";
    SplitAtClean(body, close, rest);
  }

  lemma CellAtPrinted(c: Cell, tag: string, rest: string)
    requires IsTag(tag) && c.colspan >= 1 && c.rowspan >= 1
    ensures CellAt(PrintCell(c, tag) + rest) == Some((c, rest))
  {
    hide SpanOf, Unescape, Escape, CellAt, SpanAttr;
    var attrs, body, close := Attrs(c), Escape(c.text), "</" + tag + ">";
    SpanAttrClean("colspan", c.colspan, '>');
    SpanAttrClean("rowspan", c.rowspan, '>');
    CellAtOpen(tag, attrs, body, rest);
    PrintedShape(c, tag, rest);
    ColspanReads(c);
    RowspanReads(c);
    UnescapeEscape(c.text);
  }

  lemma PrintedShape(c: Cell, tag: string, rest: string)
    ensures PrintCell(c, tag) + rest == "<" + tag + (Attrs(c) + ">" + (Escape(c.text) + ("</" + tag + ">") + rest))
    ensures PrintCell(c, tag) == "<" + tag + (Attrs(c) + ">" + Escape(c.text)) + ("</" + tag + ">")
  {
    hide Escape, SpanAttr;
    var cs, rs := SpanAttr("colspan", c.colspan), SpanAttr("rowspan", c.rowspan);
    var body, close := Escape(c.text), "</" + tag + ">";
    var head := "<" + tag;
    assert PrintCell(c, tag) == head + cs + rs + ">" + body + close;
    assert head + cs + rs + ">" + body + close + rest == head + (cs + rs + ">" + (body + close + rest));
  }

  ghost predicate Spanned(rows: Rows) {
    forall r, i :: 0 <= r < |rows| && 0 <= i < |rows[r]| ==> rows[r][i].colspan >= 1 && rows[r][i].rowspan >= 1
  }

  lemma NoCellAtBreak(s: string)
    requires s != "" && s[0] == '\n'
    ensures CellAt(s).None?
  {}

  lemma {:induction false} ReadCellsPrinted(cells: seq<Cell>, tag: string)
    requires IsTag(tag) && forall i :: 0 <= i < |cells| ==> cells[i].colspan >= 1 && cells[i].rowspan >= 1
    ensures ReadCells(PrintCells(cells, tag)) == cells
  {
    hide CellAt, PrintCell;
    if cells != [] {
      var tail := PrintCells(cells[1..], tag);
      var s := PrintCells(cells, tag);
      assert s == PrintCell(cells[0], tag) + ("\n" + tail);
      CellAtPrinted(cells[0], tag, "\n" + tail);
      NoCellAtBreak("\n" + tail);
      assert ("\n" + tail)[1..] == tail;
      ReadCellsPrinted(cells[1..], tag);
    }
  }

  lemma PrintCellInert(c: Cell, tag: string)
    requires IsTag(tag)
    ensures Inert(PrintCell(c, tag), "</tr>")
  {
    hide Escape, SpanAttr, PrintCell, Inert, Attrs;
    var open, mid, close := "<" + tag, Attrs(c) + ">" + Escape(c.text), "</" + tag + ">";
    MidClean(c);
    CleanIsInert(mid, "</tr>");
    ShortInert(tag);
    InertConcat(open, mid, "</tr>");
    InertConcat(open + mid, close, "</tr>");
    PrintedShape(c, tag, "");
  }

  lemma MidClean(c: Cell)
    ensures '<' !in Attrs(c) + ">" + Escape(c.text)
  {
    SpanAttrClean("colspan", c.colspan, '<');
    SpanAttrClean("rowspan", c.rowspan, '<');
  }

  lemma ShortInert(tag: string)
    requires IsTag(tag)
    ensures Inert("<" + tag, "</tr>") && Inert("</" + tag + ">", "</tr>")
  {
    var open, close := "<" + tag, "</" + tag + ">";
    forall i | 0 <= i < |open|
      ensures MismatchAt(open, "</tr>", i)
    {
      Differs(open, "</tr>", i, if i == 0 then 1 else 0);
    }
    forall i | 0 <= i < |close|
      ensures MismatchAt(close, "</tr>", i)
    {
      Differs(close, "</tr>", i, if i == 0 then 3 else 0);
    }
  }

  lemma {:induction false} PrintCellsInert(cells: seq<Cell>, tag: string)
    requires IsTag(tag)
    ensures Inert(PrintCells(cells, tag), "</tr>")
  {
    if cells != [] {
      PrintCellInert(cells[0], tag);
      CleanIsInert("\n", "</tr>");
      InertConcat(PrintCell(cells[0], tag), "\n", "</tr>");
      PrintCellsInert(cells[1..], tag);
      InertConcat(PrintCell(cells[0], tag) + "\n", PrintCells(cells[1..], tag), "</tr>");
    }
  }

  /** One printed row, after anything that opens no row, reads back as itself. */
  lemma ReadRowPrinted(pre: string, cells: seq<Cell>, tag: string, rest: string)
    requires IsTag(tag) && Inert(pre, "<tr>")
    requires forall i :: 0 <= i < |cells| ==> cells[i].colspan >= 1 && cells[i].rowspan >= 1
    ensures ReadTable(pre + PrintRow(cells, tag) + rest) == [cells] + ReadTable(rest)
  {
    hide PrintCells, SplitAt, ReadCells, Inert;
    var inner := if cells == [] then "\n\n" else "\n" + PrintCells(cells, tag);
    var tail := "</tr>" + rest;
    var s := pre + PrintRow(cells, tag) + rest;
    assert s == pre + ("<tr>" + (inner + tail));
    SplitAtHere("<tr>", inner + tail);
    SplitAtInert(pre, "<tr>" + (inner + tail), "<tr>");
    InnerInert(cells, tag, inner);
    SplitAtHere("</tr>", rest);
    SplitAtInert(inner, tail, "</tr>");
    assert SplitAt(s, "<tr>").value.1 == inner + tail;
    assert inner + "" == inner;
    assert SplitAt(inner + tail, "</tr>") == Some((inner, rest));
    ReadInner(cells, tag, inner);
  }

  lemma SplitAtHere(pat: string, v: string)
    ensures SplitAt(pat + v, pat) == Some(("", v))
  {
    assert (pat + v)[|pat|..] == v;
  }

  lemma InnerInert(cells: seq<Cell>, tag: string, inner: string)
    requires IsTag(tag) && inner == (if cells == [] then "\n\n" else "\n" + PrintCells(cells, tag))
    ensures Inert(inner, "</tr>")
  {
    if cells == [] {
      CleanIsInert("\n\n", "</tr>");
    } else {
      CleanIsInert("\n", "</tr>");
      PrintCellsInert(cells, tag);
      InertConcat("\n", PrintCells(cells, tag), "</tr>");
    }
  }

  lemma ReadInner(cells: seq<Cell>, tag: string, inner: string)
    requires IsTag(tag) && inner == (if cells == [] then "\n\n" else "\n" + PrintCells(cells, tag))
    requires forall i :: 0 <= i < |cells| ==> cells[i].colspan >= 1 && cells[i].rowspan >= 1
    ensures ReadCells(inner) == cells
  {
    hide CellAt, PrintCells;
    NoCellAtBreak(inner);
    if cells == [] {
      NoCellAtBreak("\n");
      assert inner[1..] == "\n" && "\n"[1..] == "";
    } else {
      assert inner[1..] == PrintCells(cells, tag);
      ReadCellsPrinted(cells, tag);
    }
  }

  lemma JoinOneRow(pre: string, rows: Rows, tag: string, rest: string)
    requires |rows| > 1
    ensures pre + JoinRows(rows, tag) + rest == pre + PrintRow(rows[0], tag) + ("\n" + JoinRows(rows[1..], tag) + rest)
  {
    hide PrintRow;
    var r, tail := PrintRow(rows[0], tag), JoinRows(rows[1..], tag);
    assert JoinRows(rows, tag) == r + "\n" + tail;
    hide JoinRows;
    RegroupFive(pre, r, "\n", tail, rest);
  }

  lemma RegroupFive(a: string, b: string, c: string, d: string, e: string)
    ensures a + (b + c + d) + e == a + b + (c + d + e)
  {
    assert a + (b + c + d) == a + b + (c + d);
    assert (a + b + (c + d)) + e == a + b + ((c + d) + e);
  }

  lemma {:induction false} ReadRowsPrinted(pre: string, rows: Rows, tag: string, rest: string)
    requires IsTag(tag) && Inert(pre, "<tr>") && Spanned(rows) && rows != []
    ensures ReadTable(pre + JoinRows(rows, tag) + rest) == rows + ReadTable(rest)
    decreases |rows|
  {
    hide PrintRow, ReadTable, Inert;
    if |rows| == 1 {
      ReadRowPrinted(pre, rows[0], tag, rest);
      assert rows == [rows[0]];
    } else {
      var tail := JoinRows(rows[1..], tag);
      JoinOneRow(pre, rows, tag, rest);
      ReadRowPrinted(pre, rows[0], tag, "\n" + tail + rest);
      CleanIsInert("\n", "<tr>");
      ReadRowsPrinted("\n", rows[1..], tag, rest);
      assert rows == [rows[0]] + rows[1..];
    }
  }

  lemma ReadNothing(s: string)
    requires Inert(s, "<tr>")
    ensures ReadTable(s) == []
  {
    SplitAtInert(s, "", "<tr>");
    assert s + "" == s;
  }

  /** One tag, not a row's: its third character is not 'r'. */
  lemma TagInert(u: string)
    requires |u| > 2 && u[0] == '<' && u[2] != 'r' && forall i :: 1 <= i < |u| ==> u[i] != '<'
    ensures Inert(u, "<tr>")
  {
    forall i | 0 <= i < |u|
      ensures MismatchAt(u, "<tr>", i)
    {
      Differs(u, "<tr>", i, if i == 0 then 2 else 0);
    }
  }

  lemma BreakTagInert(u: string)
    requires |u| > 2 && u[0] == '<' && u[2] != 'r' && forall i :: 1 <= i < |u| ==> u[i] != '<'
    ensures Inert("\n" + u, "<tr>")
  {
    TagInert(u);
    CleanIsInert("\n", "<tr>");
    InertConcat("\n", u, "<tr>");
  }

  lemma FixedMarkupInert()
    ensures Inert("<table class=\"fbr-table\">\n", "<tr>") && Inert("<tbody>\n", "<tr>") && Inert("<thead>\n", "<tr>")
    ensures Inert("\n</thead>\n", "<tr>") && Inert("\n</tbody>\n</table>", "<tr>")
  {
    hide Inert;
    TagInert("<table class=\"fbr-table\">\n");
    TagInert("<tbody>\n");
    TagInert("<thead>\n");
    BreakTagInert("</thead>\n");
    assert "\n" + "</thead>\n" == "\n</thead>\n";
    BreakTagInert("</tbody>");
    BreakTagInert("</table>");
    InertConcat("\n" + "</tbody>", "\n" + "</table>", "<tr>");
    assert "\n" + "</tbody>" + ("\n" + "</table>") == "\n</tbody>\n</table>";
  }

  /** Whatever the cell texts and spans, the printed table reads back as exactly
      its rows: no cell is lost, split, moved or respelt. */
  lemma ReadPrintTable(rows: Rows, head: nat)
    requires Spanned(rows) && head <= |rows|
    ensures ReadTable(PrintTable(rows, head)) == rows
  {
    var open, body, close := "<table class=\"fbr-table\">\n", "<tbody>\n", "\n</tbody>\n</table>";
    FixedMarkupInert();
    hide ReadTable, JoinRows, Inert;
    if head == 0 {
      InertConcat(open, body, "<tr>");
      ReadBody(open + body, rows, close);
    } else {
      var top, mid := open + "<thead>\n", "\n</thead>\n" + body;
      InertConcat(open, "<thead>\n", "<tr>");
      InertConcat("\n</thead>\n", body, "<tr>");
      var heads, tails := JoinRows(rows[..head], "th"), JoinRows(rows[head..], "td");
      ReadRowsPrinted(top, rows[..head], "th", mid + tails + close);
      ReadBody(mid, rows[head..], close);
      Regroup(top, heads, "\n</thead>\n", body, tails, close);
      assert rows == rows[..head] + rows[head..];
    }
  }

  lemma Regroup(a: string, b: string, c: string, d: string, e: string, f: string)
    ensures a + b + c + d + e + f == a + b + ((c + d) + e + f)
  {}

  lemma ReadBody(pre: string, rows: Rows, close: string)
    requires Spanned(rows) && Inert(pre, "<tr>") && Inert(close, "<tr>")
    ensures ReadTable(pre + JoinRows(rows, "td") + close) == rows
  {
    if rows == [] {
      InertConcat(pre, close, "<tr>");
      assert pre + JoinRows(rows, "td") + close == pre + close;
      ReadNothing(pre + close);
    } else {
      ReadRowsPrinted(pre, rows, "td", close);
      ReadNothing(close);
      assert rows + [] == rows;
    }
  }

  // ----- any attributes --------------------------------------------------------

  ghost predicate WordChar(c: char) { 'a' <= c <= 'z' || 'A' <= c <= 'Z' || '0' <= c <= '9' || c == '_' }

  /** At `i` stand the key, `n` digits and a quote, and no word runs into them. */
  ghost predicate AttrAt(s: string, key: string, afterWord: bool, i: nat, n: nat) {
    && n > 0 && i + |key| + n < |s| && s[i..i + |key|] == key
    && Decimals.AllDigits(s[i + |key|..i + |key| + n]) && s[i + |key| + n] == '"'
    && if i == 0 then !afterWord else !WordChar(s[i - 1])
  }

  ghost predicate NoAttrBefore(s: string, key: string, afterWord: bool, k: nat) {
    forall i: nat, n: nat :: i < k ==> !AttrAt(s, key, afterWord, i, n)
  }

  /** The attribute at `i` is the first. */
  ghost predicate FirstAttr(s: string, key: string, afterWord: bool, i: nat, n: nat) {
    AttrAt(s, key, afterWord, i, n) && NoAttrBefore(s, key, afterWord, i)
  }

  lemma {:induction false} DigitRunIs(s: string, n: nat)
    requires n < |s| && Decimals.AllDigits(s[..n]) && !Decimals.IsDigit(s[n])
    ensures DigitRun(s) == n
  {
    if n > 0 {
      assert s[0] == s[..n][0];
      assert s[1..][..n - 1] == s[..n][1..];
      DigitRunIs(s[1..], n - 1);
    }
  }

  lemma AttrHere(s: string, key: string, afterWord: bool, n: nat)
    requires s != ""
    ensures var m := if StartsWith(s, key) then DigitRun(s[|key|..]) else 0;
            AttrAt(s, key, afterWord, 0, n) <==>
            n == m && !afterWord && m > 0 && |key| + m < |s| && s[|key| + m] == '"'
  {
    var m := if StartsWith(s, key) then DigitRun(s[|key|..]) else 0;
    if AttrAt(s, key, afterWord, 0, n) {
      assert s[0..|key|] == key && s[..|key|] == s[0..|key|];
      var t := s[|key|..];
      assert t[..n] == s[|key|..|key| + n] && t[n] == '"';
      DigitRunIs(t, n);
    }
    if m > 0 && |key| + m < |s| {
      assert s[|key|..][..m] == s[|key|..|key| + m];
      assert s[0..|key|] == key;
    }
  }

  lemma AttrLater(s: string, key: string, afterWord: bool, i: nat, n: nat)
    requires s != ""
    ensures AttrAt(s[1..], key, WordChar(s[0]), i, n) <==> AttrAt(s, key, afterWord, i + 1, n)
  {
    if i + |key| + n < |s| - 1 {
      assert s[1..][i..i + |key|] == s[i + 1..i + 1 + |key|];
      assert s[1..][i + |key|..i + |key| + n] == s[i + 1 + |key|..i + 1 + |key| + n];
    }
  }

  /** A span is the number of the first such attribute, or 1. */
  lemma {:induction false} SpanOfExactly(s: string, key: string, afterWord: bool)
    ensures || (exists i: nat, n: nat :: FirstAttr(s, key, afterWord, i, n)
                  && SpanOf(s, key, afterWord) == Decimals.Read(s[i + |key|..i + |key| + n]))
            || (NoAttrBefore(s, key, afterWord, |s|) && SpanOf(s, key, afterWord) == 1)
  {
    if s != "" {
      var m := if StartsWith(s, key) then DigitRun(s[|key|..]) else 0;
      forall n: nat
        ensures AttrAt(s, key, afterWord, 0, n) <==>
                n == m && !afterWord && m > 0 && |key| + m < |s| && s[|key| + m] == '"'
      {
        AttrHere(s, key, afterWord, n);
      }
      if AttrAt(s, key, afterWord, 0, m) {
        assert FirstAttr(s, key, afterWord, 0, m);
      } else {
        SpanOfExactly(s[1..], key, WordChar(s[0]));
        assert IsWord(s[0]) == WordChar(s[0]);
        LaterAttrs(s, key, afterWord);
      }
    }
  }

  lemma LaterAttrs(s: string, key: string, afterWord: bool)
    requires s != "" && forall n: nat :: !AttrAt(s, key, afterWord, 0, n)
    ensures forall i: nat, n: nat :: FirstAttr(s[1..], key, WordChar(s[0]), i, n) ==>
              FirstAttr(s, key, afterWord, i + 1, n)
              && s[1..][i + |key|..i + |key| + n] == s[i + 1 + |key|..i + 1 + |key| + n]
    ensures NoAttrBefore(s[1..], key, WordChar(s[0]), |s| - 1) ==> NoAttrBefore(s, key, afterWord, |s|)
  {
    forall i: nat, n: nat
      ensures AttrAt(s[1..], key, WordChar(s[0]), i, n) <==> AttrAt(s, key, afterWord, i + 1, n)
    {
      AttrLater(s, key, afterWord, i, n);
    }
    forall k: nat
      ensures NoAttrBefore(s[1..], key, WordChar(s[0]), k) ==> NoAttrBefore(s, key, afterWord, k + 1)
    {
      NoneLater(s, key, afterWord, k);
    }
    forall i: nat, n: nat | FirstAttr(s[1..], key, WordChar(s[0]), i, n)
      ensures FirstAttr(s, key, afterWord, i + 1, n)
              && s[1..][i + |key|..i + |key| + n] == s[i + 1 + |key|..i + 1 + |key| + n]
    {
    }
  }

  lemma NoneLater(s: string, key: string, afterWord: bool, k: nat)
    requires s != "" && forall n: nat :: !AttrAt(s, key, afterWord, 0, n)
    ensures NoAttrBefore(s[1..], key, WordChar(s[0]), k) ==> NoAttrBefore(s, key, afterWord, k + 1)
  {
    if NoAttrBefore(s[1..], key, WordChar(s[0]), k) {
      forall i: nat, n: nat | i < k + 1
        ensures !AttrAt(s, key, afterWord, i, n)
      {
        if i > 0 {
          AttrLater(s, key, afterWord, i - 1, n);
        }
      }
    }
  }
}

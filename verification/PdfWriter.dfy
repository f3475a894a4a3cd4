/** The fixture PDF, byte for byte (`_escape`, `_content_stream`, `build_pdf`), and
    a reader that follows its cross-references. */
module PdfWriter {
  import opened Common
  import Decimals

  // ----- writing ---------------------------------------------------------------

  function EscapeChar(c: char): string {
    if c == '\\' then "\\\\" else if c == '(' then "\\(" else if c == ')' then "\\)" else [c]
  }

  /** `_escape`: backslash, then the parentheses. */
  function Escape(t: string): string {
    if t == "" then "" else EscapeChar(t[0]) + Escape(t[1..])
  }

  /** The last part of every stream, and each line before it. */
  function ShowLines(lines: seq<string>): string {
    if lines == [] then "ET" else "(" + Escape(lines[0]) + ") Tj\nT*\n" + ShowLines(lines[1..])
  }

  /** `encode("latin-1", "replace")`. */
  function Latin(s: string): (r: string)
    ensures |r| == |s|
  {
    seq(|s|, i requires 0 <= i < |s| => if s[i] as int < 256 then s[i] else '?')
  }

  const PREAMBLE := "BT\n/F1 12 Tf\n1 0 0 1 64 720 Tm\n18 TL\n"

  function ContentStream(lines: seq<string>): string {
    Latin(PREAMBLE + ShowLines(lines))
  }

  function PageId(i: nat): nat { 4 + 2 * i }

  /** A number between two fixed pieces of text. */
  function Field(before: string, n: nat, after: string): string {
    before + Decimals.Print(n) + after
  }

  function Ref(id: nat): string { Field("", id, " 0 R") }

  /** `" ".join` of the references from page `i` on, and the closing bracket. */
  function Kids(i: nat, n: nat): string
    requires i < n
    decreases n - i
  {
    if i + 1 == n then Ref(PageId(i)) + "]" else Ref(PageId(i)) + (" " + Kids(i + 1, n))
  }

  const TREE_HEAD := "<< /Type /Pages /Kids ["

  /** Object `n`: catalog, page tree, font, then a page and its content in turn. */
  function Object(pages: seq<seq<string>>, n: nat): string
    requires pages != [] && 1 <= n < PageId(|pages|)
  {
    if n == 1 then Field("<< /Type /Catalog /Pages ", 2, " 0 R >>")
    else if n == 2 then TREE_HEAD + (Kids(0, |pages|) + Field(" /Count ", |pages|, " >>"))
    else if n == 3 then "<< /Type /Font /Subtype /Type1 /BaseFont /Helvetica /Encoding /WinAnsiEncoding >>"
    else if n % 2 == 0 then
      Field("<< /Type /Page /Parent ", 2, " 0 R /MediaBox [0 0 612 792] ")
      + (Field("/Resources << /Font << /F1 ", 3, " 0 R >> >> ") + Field("/Contents ", n + 1, " 0 R >>"))
    else
      var stream := ContentStream(pages[(n - 5) / 2]);
      Field("<< /Length ", |stream|, " >>\nstream\n") + (stream + "\nendstream")
  }

  function Framed(pages: seq<seq<string>>, n: nat): string
    requires pages != [] && 1 <= n < PageId(|pages|)
  {
    Field("", n, " 0 obj\n") + (Object(pages, n) + "\nendobj\n")
  }

  /** The header and objects 1 to n. */
  function Body(pages: seq<seq<string>>, n: nat): string
    requires pages != [] && n < PageId(|pages|)
  {
    if n == 0 then "%PDF-1.4\n" else Body(pages, n - 1) + Framed(pages, n)
  }

  function Offset(pages: seq<seq<string>>, n: nat): nat
    requires pages != [] && 1 <= n < PageId(|pages|)
  {
    |Body(pages, n - 1)|
  }

  function Zeros(k: nat): (s: string)
    ensures |s| == k && Decimals.AllDigits(s)
  {
    seq(k, _ => '0')
  }

  /** `{n:010d}`. */
  function Padded(n: nat): (s: string)
    ensures |s| >= 10 && Decimals.AllDigits(s)
  {
    var d := Decimals.Print(n);
    if |d| >= 10 then d else Zeros(10 - |d|) + d
  }

  function Record(offset: nat): string { Padded(offset) + " 00000 n \n" }

  function Records(pages: seq<seq<string>>, n: nat): string
    requires pages != [] && n < PageId(|pages|)
  {
    if n == 0 then "0000000000 65535 f \n" else Records(pages, n - 1) + Record(Offset(pages, n))
  }

  const TAIL := "\n%%EOF\n"

  function XrefHead(size: nat): string { Field("xref\n0 ", size, "\n") }

  function TrailerDict(size: nat): string {
    Field("trailer\n<< /Size ", size, " /Root ") + Field("", 1, " 0 R >>\n")
  }

  function Start(xref: nat): string { Field("startxref\n", xref, TAIL) }

  function Pdf(pages: seq<seq<string>>): string
    requires pages != []
  {
    var last := PageId(|pages|) - 1;
    var body := Body(pages, last);
    body + (XrefHead(last + 1) + (Records(pages, last) + (TrailerDict(last + 1) + Start(|body|))))
  }

  /** `build_pdf`; an empty page list is refused. */
  method BuildPdf(pages: seq<seq<string>>) returns (out: Option<string>)
    ensures out.None? <==> pages == []
    ensures out.Some? ==> out.value == Pdf(pages)
  {
    hide Framed, Record, XrefHead, TrailerDict, Start;
    if pages == [] { return None; }
    var last := PageId(|pages|) - 1;
    var body, offsets := WriteObjects(pages, last);
    var records := "0000000000 65535 f \n";
    for n := 1 to last + 1
      invariant records == Records(pages, n - 1)
    {
      records := records + Record(offsets[n]);
    }
    out := Some(body + (XrefHead(last + 1) + (records + (TrailerDict(last + 1) + Start(|body|)))));
  }

  method WriteObjects(pages: seq<seq<string>>, last: nat) returns (file: string, offsets: seq<nat>)
    requires pages != [] && last < PageId(|pages|)
    ensures file == Body(pages, last)
    ensures |offsets| == last + 1 && forall k :: 1 <= k <= last ==> offsets[k] == Offset(pages, k)
  {
    hide Object, Field;
    file, offsets := "%PDF-1.4\n", [0];
    for n := 1 to last + 1
      invariant file == Body(pages, n - 1)
      invariant |offsets| == n && forall k :: 1 <= k < n ==> offsets[k] == Offset(pages, k)
    {
      offsets := offsets + [|file|];
      file := file + (Field("", n, " 0 obj\n") + (Object(pages, n) + "\nendobj\n"));
    }
  }

  // ----- reading ---------------------------------------------------------------

  predicate HasAt(f: string, i: nat, s: string) {
    i + |s| <= |f| && f[i..i + |s|] == s
  }

  function DigitsEnd(f: string, i: nat): (e: nat)
    requires i <= |f|
    ensures i <= e <= |f| && forall k :: i <= k < e ==> Decimals.IsDigit(f[k])
    decreases |f| - i
  {
    if i < |f| && Decimals.IsDigit(f[i]) then DigitsEnd(f, i + 1) else i
  }

  /** The unsigned number at `i` and the position after it. */
  function NumberAt(f: string, i: nat): (r: Option<(nat, nat)>)
    ensures r.Some? ==> i < r.value.1 <= |f|
  {
    if i > |f| || DigitsEnd(f, i) == i then None
    else Some((Decimals.Read(f[i..DigitsEnd(f, i)]), DigitsEnd(f, i)))
  }

  /** `s`, a number, `t`: the number and the position after `t`. */
  function Between(f: string, i: nat, s: string, t: string): (r: Option<(nat, nat)>)
    ensures r.Some? ==> i <= r.value.1 <= |f|
  {
    if !HasAt(f, i, s) then None
    else
      var n := NumberAt(f, i + |s|);
      if n.None? || !HasAt(f, n.value.1, t) then None else Some((n.value.0, n.value.1 + |t|))
  }

  /** The number `startxref` announces: the last "startxref\n", a number, and the
      end-of-file marker closing the file. */
  function StartXref(f: string, i: nat): Option<nat>
    requires i <= |f|
  {
    var n := Between(f, i, "startxref\n", TAIL);
    if n.Some? && n.value.1 == |f| then Some(n.value.0)
    else if i == 0 then None
    else StartXref(f, i - 1)
  }

  /** Entry `n` of the table at `xref`: a 20-byte record in use. */
  function EntryAt(f: string, xref: nat, n: nat): Option<nat> {
    var head := Between(f, xref, "xref\n0 ", "\n");
    if head.None? || n >= head.value.0 then None
    else
      var at := head.value.1 + 20 * n;
      if at + 20 <= |f| && Decimals.AllDigits(f[at..at + 10]) && HasAt(f, at + 10, " 00000 n \n")
      then Some(Decimals.Read(f[at..at + 10]))
      else None
  }

  /** Where object `n`'s contents start. */
  function ObjectAt(f: string, n: nat): Option<nat> {
    var xref := StartXref(f, |f|);
    if xref.None? then None
    else
      var at := EntryAt(f, xref.value, n);
      if at.None? then None
      else
        var id := Between(f, at.value, "", " 0 obj\n");
        if id.None? || id.value.0 != n then None else Some(id.value.1)
  }

  /** The catalog the trailer behind the table names; the trailer tells the table's
      size, and the table starts with the free entry. */
  function ReadRoot(f: string): Option<nat> {
    var xref := StartXref(f, |f|);
    if xref.None? then None
    else
      var head := Between(f, xref.value, "xref\n0 ", "\n");
      if head.None? || !HasAt(f, head.value.1, "0000000000 65535 f \n") then None
      else
        var size := Between(f, head.value.1 + 20 * head.value.0, "trailer\n<< /Size ", " /Root ");
        if size.None? || size.value.0 != head.value.0 then None
        else
          var root := Between(f, size.value.1, "", " 0 R >>\n");
          if root.None? || !HasAt(f, root.value.1, "startxref\n") then None else Some(root.value.0)
  }

  /** The page tree the catalog names. */
  function ReadTree(f: string): Option<nat> {
    var root := ReadRoot(f);
    if root.None? then None
    else
      var at := ObjectAt(f, root.value);
      if at.None? then None
      else
        var tree := Between(f, at.value, "<< /Type /Catalog /Pages ", " 0 R >>");
        if tree.None? || !HasAt(f, tree.value.1, "\nendobj\n") then None else Some(tree.value.0)
  }

  /** References up to the closing bracket, and the position after it. */
  function RefsAt(f: string, i: nat): Option<(seq<nat>, nat)>
    decreases |f| - i
  {
    var r := Between(f, i, "", " 0 R");
    if r.None? || r.value.1 <= i || r.value.1 >= |f| then None
    else if f[r.value.1] == ']' then Some(([r.value.0], r.value.1 + 1))
    else if f[r.value.1] == ' ' then
      var rest := RefsAt(f, r.value.1 + 1);
      if rest.None? then None else Some(([r.value.0] + rest.value.0, rest.value.1))
    else None
  }

  /** The pages of the tree, as many as it counts. */
  function ReadKids(f: string): Option<seq<nat>> {
    var tree := ReadTree(f);
    if tree.None? then None
    else
      var at := ObjectAt(f, tree.value);
      if at.None? || !HasAt(f, at.value, "<< /Type /Pages /Kids [") then None
      else
        var kids := RefsAt(f, at.value + |"<< /Type /Pages /Kids ["|);
        if kids.None? then None
        else
          var count := Between(f, kids.value.1, " /Count ", " >>");
          if count.None? || count.value.0 != |kids.value.0| || !HasAt(f, count.value.1, "\nendobj\n") then None
          else Some(kids.value.0)
  }

  /** Object `id` is the font the text is set in. */
  predicate IsFont(f: string, id: nat) {
    var at := ObjectAt(f, id);
    at.Some? && HasAt(f, at.value,
                      "<< /Type /Font /Subtype /Type1 /BaseFont /Helvetica /Encoding /WinAnsiEncoding >>")
  }

  /** The stream of exactly the declared length, with its end keyword. */
  function ReadStream(f: string, id: nat): Option<string> {
    var at := ObjectAt(f, id);
    if at.None? then None
    else
      var len := Between(f, at.value, "<< /Length ", " >>\nstream\n");
      if len.None? || !HasAt(f, len.value.1 + len.value.0, "\nendstream") then None
      else Some(f[len.value.1..len.value.1 + len.value.0])
  }

  /** Page `i` of the tree, whose parent is the tree and whose font is there, by its
      content reference. */
  function ReadPage(f: string, i: nat): Option<string> {
    var kids := ReadKids(f);
    if kids.None? || i >= |kids.value| then None
    else
      var at := ObjectAt(f, kids.value[i]);
      if at.None? then None
      else
        var parent := Between(f, at.value, "<< /Type /Page /Parent ", " 0 R /MediaBox [0 0 612 792] ");
        if parent.None? || Some(parent.value.0) != ReadTree(f) then None
        else
          var font := Between(f, parent.value.1, "/Resources << /Font << /F1 ", " 0 R >> >> ");
          if font.None? || !IsFont(f, font.value.0) then None
          else
            var content := Between(f, font.value.1, "/Contents ", " 0 R >>");
            if content.None? || !HasAt(f, content.value.1, "\nendobj\n") then None
            else ReadStream(f, content.value.0)
  }

  // ----- laying strings side by side -------------------------------------------

  lemma HasAtConcat(f: string, i: nat, a: string, b: string)
    ensures HasAt(f, i, a + b) <==> HasAt(f, i, a) && HasAt(f, i + |a|, b)
  {
    if HasAt(f, i, a + b) {
      assert f[i..i + |a|] == f[i..i + |a + b|][..|a|] == (a + b)[..|a|];
      assert f[i + |a|..i + |a| + |b|] == f[i..i + |a + b|][|a|..] == (a + b)[|a|..];
    }
    if HasAt(f, i, a) && HasAt(f, i + |a|, b) {
      assert f[i..i + |a + b|] == f[i..i + |a|] + f[i + |a|..i + |a| + |b|];
    }
  }

  lemma {:induction false} DigitsEndFinds(f: string, i: nat, e: nat)
    requires i <= e <= |f| && Decimals.AllDigits(f[i..e]) && (e == |f| || !Decimals.IsDigit(f[e]))
    ensures DigitsEnd(f, i) == e
    decreases e - i
  {
    if i < e {
      assert f[i..e][0] == f[i] && f[i + 1..e] == f[i..e][1..];
      DigitsEndFinds(f, i + 1, e);
    }
  }

  lemma NumberReads(f: string, i: nat, n: nat)
    requires HasAt(f, i, Decimals.Print(n))
    requires i + |Decimals.Print(n)| < |f| && !Decimals.IsDigit(f[i + |Decimals.Print(n)|])
    ensures NumberAt(f, i) == Some((n, i + |Decimals.Print(n)|))
  {
    DigitsEndFinds(f, i, i + |Decimals.Print(n)|);
    Decimals.ReadPrint(n);
  }

  lemma BetweenReads(f: string, i: nat, s: string, n: nat, t: string)
    requires t != "" && !Decimals.IsDigit(t[0])
    requires HasAt(f, i, Field(s, n, t))
    ensures Between(f, i, s, t) == Some((n, i + |Field(s, n, t)|))
  {
    var d := Decimals.Print(n);
    HasAtConcat(f, i, s + d, t);
    HasAtConcat(f, i, s, d);
    var at := i + |s| + |d|;
    assert f[at..at + |t|][0] == f[at];
    NumberReads(f, i + |s|, n);
  }

  // ----- startxref -------------------------------------------------------------

  lemma {:induction false} StartXrefReads(x: string, n: nat, i: nat)
    requires |x| <= i <= |x + Start(n)|
    ensures StartXref(x + Start(n), i) == Some(n)
    decreases i
  {
    var f := x + Start(n);
    if i == |x| {
      assert f[i..i + |Start(n)|] == Start(n);
      BetweenReads(f, i, "startxref\n", n, TAIL);
    } else {
      NoLaterStart(x, n, i);
      StartXrefReads(x, n, i - 1);
    }
  }

  lemma OneInitial(n: nat, k: nat)
    requires 0 < k < |Start(n)|
    ensures Start(n)[k] != 's'
  {
    var d := Decimals.Print(n);
    if k < 10 {
      assert Start(n)[k] == "startxref\n"[k];
    } else if k < 10 + |d| {
      assert Start(n)[k] == d[k - 10];
    } else {
      assert Start(n)[k] == TAIL[k - 10 - |d|];
    }
  }

  lemma NoLaterStart(x: string, n: nat, i: nat)
    requires |x| < i <= |x + Start(n)|
    ensures !HasAt(x + Start(n), i, "startxref\n")
  {
    hide Start;
    var f := x + Start(n);
    if i < |f| {
      OneInitial(n, i - |x|);
      assert i + 10 <= |f| ==> f[i..i + 10][0] == f[i];
    }
  }

  // ----- the cross-reference table ---------------------------------------------

  lemma {:induction false} ReadZeros(k: nat, d: string)
    requires Decimals.AllDigits(d)
    ensures Decimals.Read(Zeros(k) + d) == Decimals.Read(d)
    decreases |d|, k
  {
    var s := Zeros(k) + d;
    if d == "" {
      if k > 0 {
        assert s[..|s| - 1] == Zeros(k - 1) + d;
        ReadZeros(k - 1, d);
      }
    } else {
      assert s[..|s| - 1] == Zeros(k) + d[..|d| - 1];
      ReadZeros(k, d[..|d| - 1]);
    }
  }

  ghost function Pow10(k: nat): nat { if k == 0 then 1 else 10 * Pow10(k - 1) }

  lemma {:induction false} ShortPrint(n: nat, k: nat)
    requires n < Pow10(k) && k >= 1
    ensures |Decimals.Print(n)| <= k
  {
    if n >= 10 {
      ShortPrint(n / 10, k - 1);
    }
  }

  /** A ten-digit record reads back as its offset. */
  lemma PaddedReads(n: nat)
    requires n < Pow10(10)
    ensures |Padded(n)| == 10 && Decimals.Read(Padded(n)) == n
  {
    ShortPrint(n, 10);
    hide Pow10, Decimals.Print, Decimals.Read, Zeros;
    Decimals.ReadPrint(n);
    ReadZeros(10 - |Decimals.Print(n)|, Decimals.Print(n));
  }

  /** Ten digits hold every offset. */
  ghost predicate Small(pages: seq<seq<string>>)
    requires pages != []
  {
    |Body(pages, PageId(|pages|) - 1)| < 10_000_000_000
  }

  lemma TenDigits()
    ensures Pow10(10) == 10_000_000_000
  {
    assert Pow10(2) == 100 && Pow10(4) == 10_000 && Pow10(6) == 1_000_000 && Pow10(8) == 100_000_000;
  }

  lemma {:induction false} BodyGrows(pages: seq<seq<string>>, m: nat, n: nat)
    requires pages != [] && m <= n < PageId(|pages|)
    ensures |Body(pages, m)| <= |Body(pages, n)| && Body(pages, n)[..|Body(pages, m)|] == Body(pages, m)
    decreases n - m
  {
    hide Framed;
    if m < n {
      BodyGrows(pages, m, n - 1);
    }
  }

  lemma {:induction false} RecordsAreTwenty(pages: seq<seq<string>>, n: nat)
    requires pages != [] && Small(pages) && n < PageId(|pages|)
    ensures |Records(pages, n)| == 20 * (n + 1)
  {
    hide Body;
    if n > 0 {
      RecordsAreTwenty(pages, n - 1);
      OffsetSmall(pages, n);
      PaddedReads(Offset(pages, n));
    }
  }

  lemma OffsetSmall(pages: seq<seq<string>>, n: nat)
    requires pages != [] && Small(pages) && 1 <= n < PageId(|pages|)
    ensures Offset(pages, n) < Pow10(10)
  {
    TenDigits();
    hide Pow10, Body;
    BodyGrows(pages, n - 1, PageId(|pages|) - 1);
  }

  lemma {:induction false} RecordAt(f: string, i: nat, pages: seq<seq<string>>, n: nat, last: nat)
    requires pages != [] && Small(pages) && 1 <= n <= last < PageId(|pages|)
    requires HasAt(f, i, Records(pages, last))
    ensures HasAt(f, i + 20 * n, Record(Offset(pages, n)))
    decreases last
  {
    hide Record, Offset, Small;
    HasAtConcat(f, i, Records(pages, last - 1), Record(Offset(pages, last)));
    if n == last {
      RecordsAreTwenty(pages, n - 1);
    } else {
      RecordAt(f, i, pages, n, last - 1);
    }
  }

  /** The parts of the file, in place. */
  lemma FileLayout(pages: seq<seq<string>>)
    requires pages != []
    ensures var last := PageId(|pages|) - 1;
            var f, xref := Pdf(pages), |Body(pages, last)|;
            && HasAt(f, 0, Body(pages, last)) && HasAt(f, 0, "%PDF-1.4\n")
            && HasAt(f, xref, XrefHead(last + 1))
            && HasAt(f, xref + |XrefHead(last + 1)|, Records(pages, last))
            && HasAt(f, xref + |XrefHead(last + 1)| + |Records(pages, last)|, TrailerDict(last + 1) + Start(xref))
            && StartXref(f, |f|) == Some(xref)
  {
    hide Body, Records, XrefHead, TrailerDict, Start, StartXref;
    var last := PageId(|pages|) - 1;
    var body, head, records, dict := Body(pages, last), XrefHead(last + 1), Records(pages, last), TrailerDict(last + 1);
    var start := Start(|body|);
    var f := Pdf(pages);
    HeaderFirst(pages, last);
    assert HasAt(f, 0, f);
    HasAtConcat(f, 0, body, head + (records + (dict + start)));
    HasAtConcat(f, |body|, head, records + (dict + start));
    HasAtConcat(f, |body| + |head|, records, dict + start);
    assert HasAt(f, |body| + |head| + |records|, dict + start);
    Regroup(body, head, records, dict, start);
    StartXrefReads(body + head + records + dict, |body|, |f|);
  }

  lemma HeaderFirst(pages: seq<seq<string>>, n: nat)
    requires pages != [] && n < PageId(|pages|)
    ensures HasAt(Body(pages, n), 0, "%PDF-1.4\n")
  {
    BodyGrows(pages, 0, n);
    hide Framed;
    assert Body(pages, 0) == "%PDF-1.4\n";
  }

  lemma Regroup(a: string, b: string, c: string, d: string, e: string)
    ensures a + (b + (c + (d + e))) == a + b + c + d + e
  {}

  /** Every cross-reference leads to its object. */
  lemma ObjectIsThere(pages: seq<seq<string>>, n: nat)
    requires pages != [] && Small(pages) && 1 <= n < PageId(|pages|)
    ensures ObjectAt(Pdf(pages), n).Some?
    ensures HasAt(Pdf(pages), ObjectAt(Pdf(pages), n).value, Object(pages, n) + "\nendobj\n")
  {
    hide Pdf, Object, Small, Records, StartXref, EntryAt, Body, Field, XrefHead;
    var last := PageId(|pages|) - 1;
    var f, xref := Pdf(pages), |Body(pages, last)|;
    FileLayout(pages);
    EntryReads(pages, n, f, xref);
    BodyGrows(pages, n, last);
    FramedIsThere(pages, n, f, Body(pages, last));
    HasAtConcat(f, Offset(pages, n), Field("", n, " 0 obj\n"), Object(pages, n) + "\nendobj\n");
    BetweenReads(f, Offset(pages, n), "", n, " 0 obj\n");
  }

  lemma FramedIsThere(pages: seq<seq<string>>, n: nat, f: string, body: string)
    requires pages != [] && 1 <= n < PageId(|pages|)
    requires HasAt(f, 0, body) && |Body(pages, n)| <= |body| && body[..|Body(pages, n)|] == Body(pages, n)
    ensures HasAt(f, Offset(pages, n), Framed(pages, n))
  {
    hide Framed;
    var b := Body(pages, n);
    assert f[..|b|] == f[0..|body|][..|b|];
    assert HasAt(f, 0, b);
    HasAtConcat(f, 0, Body(pages, n - 1), Framed(pages, n));
  }

  lemma EntryReads(pages: seq<seq<string>>, n: nat, f: string, xref: nat)
    requires pages != [] && Small(pages) && 1 <= n < PageId(|pages|)
    requires var last := PageId(|pages|) - 1;
             HasAt(f, xref, XrefHead(last + 1)) && HasAt(f, xref + |XrefHead(last + 1)|, Records(pages, last))
    ensures EntryAt(f, xref, n) == Some(Offset(pages, n))
  {
    hide Small, Records, Offset, Padded, Field, Decimals.AllDigits;
    var last := PageId(|pages|) - 1;
    BetweenReads(f, xref, "xref\n0 ", last + 1, "\n");
    var at := xref + |XrefHead(last + 1)| + 20 * n;
    OffsetSmall(pages, n);
    RecordAt(f, xref + |XrefHead(last + 1)|, pages, n, last);
    var offset := Offset(pages, n);
    PaddedReads(offset);
    HasAtConcat(f, at, Padded(offset), " 00000 n \n");
  }

  // ----- the page tree ---------------------------------------------------------

  /** One reference, and what follows it. */
  lemma KidRead(f: string, at: nat, i: nat, n: nat)
    requires i < n && HasAt(f, at, Kids(i, n))
    ensures var e := at + |Ref(PageId(i))|;
            && Between(f, at, "", " 0 R") == Some((PageId(i), e)) && at < e < |f|
            && (i + 1 == n ==> f[e] == ']')
            && (i + 1 < n ==> f[e] == ' ' && HasAt(f, e + 1, Kids(i + 1, n)))
  {
    hide Field, Between;
    var ref := Ref(PageId(i));
    var rest := if i + 1 == n then "]" else " " + Kids(i + 1, n);
    HasAtConcat(f, at, ref, rest);
    BetweenReads(f, at, "", PageId(i), " 0 R");
    RefIsLong(PageId(i));
    var e := at + |ref|;
    assert f[e] == f[e..e + |rest|][0];
    if i + 1 < n {
      HasAtConcat(f, e, " ", Kids(i + 1, n));
    }
  }

  function PageIds(i: nat, n: nat): (r: seq<nat>)
    requires i <= n
    ensures |r| == n - i && forall k :: 0 <= k < n - i ==> r[k] == PageId(i + k)
    decreases n - i
  {
    if i == n then [] else [PageId(i)] + PageIds(i + 1, n)
  }

  lemma OneKidRead(f: string, at: nat, i: nat, n: nat)
    requires i < n && HasAt(f, at, Kids(i, n))
    ensures var e := at + |Ref(PageId(i))|;
            if i + 1 == n then RefsAt(f, at) == Some(([PageId(i)], e + 1))
            else
              HasAt(f, e + 1, Kids(i + 1, n))
              && (RefsAt(f, e + 1).Some? ==>
                    var rest := RefsAt(f, e + 1).value;
                    RefsAt(f, at) == Some(([PageId(i)] + rest.0, rest.1)))
  {
    hide Field, Between, HasAt, Kids, PageId, Ref, RefsAt;
    KidRead(f, at, i, n);
    RefsStep(f, at);
  }

  lemma LastId(n: nat)
    requires n > 0
    ensures PageIds(n - 1, n) == [PageId(n - 1)]
  {
    assert PageIds(n, n) == [];
  }

  lemma {:induction false} KidsRead(f: string, at: nat, i: nat, n: nat)
    requires i < n && HasAt(f, at, Kids(i, n))
    ensures RefsAt(f, at) == Some((PageIds(i, n), at + |Kids(i, n)|))
    decreases n - i
  {
    hide Field, HasAt, Kids, PageId, Ref, RefsAt;
    OneKidRead(f, at, i, n);
    KidsLength(i, n);
    if i + 1 == n {
      LastId(n);
    } else {
      KidsRead(f, at + |Ref(PageId(i))| + 1, i + 1, n);
      assert PageIds(i, n) == [PageId(i)] + PageIds(i + 1, n);
    }
  }

  /** One turn of the reader. */
  lemma RefsStep(f: string, i: nat)
    ensures var r := Between(f, i, "", " 0 R");
            r.Some? && i < r.value.1 < |f| ==>
              && (f[r.value.1] == ']' ==> RefsAt(f, i) == Some(([r.value.0], r.value.1 + 1)))
              && (f[r.value.1] == ' ' && RefsAt(f, r.value.1 + 1).Some? ==>
                    var rest := RefsAt(f, r.value.1 + 1).value;
                    RefsAt(f, i) == Some(([r.value.0] + rest.0, rest.1)))
  {
    hide Between;
  }

  lemma KidsLength(i: nat, n: nat)
    requires i < n
    ensures |Kids(i, n)| == |Ref(PageId(i))| + 1 + if i + 1 < n then |Kids(i + 1, n)| else 0
  {
    hide Field;
  }

  lemma RefIsLong(id: nat)
    ensures |Ref(id)| > 0
  {}

  lemma KidsAreRead(pages: seq<seq<string>>)
    requires pages != [] && Small(pages)
    ensures ReadKids(Pdf(pages)).Some? && |ReadKids(Pdf(pages)).value| == |pages|
    ensures forall i :: 0 <= i < |pages| ==> ReadKids(Pdf(pages)).value[i] == PageId(i)
  {
    hide Pdf, ObjectAt, Small, Field, RefsAt, Kids, ReadTree, Between, HasAt;
    TreeIsRead(pages);
    ObjectIsThere(pages, 2);
    var f, n := Pdf(pages), |pages|;
    var at, count := ObjectAt(f, 2).value, Field(" /Count ", |pages|, " >>");
    HasAtConcat(f, at, TREE_HEAD + (Kids(0, n) + count), "\nendobj\n");
    HasAtConcat(f, at, TREE_HEAD, Kids(0, n) + count);
    HasAtConcat(f, at + |TREE_HEAD|, Kids(0, n), count);
    KidsRead(f, at + |TREE_HEAD|, 0, n);
    BetweenReads(f, at + |TREE_HEAD| + |Kids(0, n)|, " /Count ", n, " >>");
  }

  /** The first record of the table. */
  lemma {:induction false} FreeRecord(f: string, i: nat, pages: seq<seq<string>>, n: nat)
    requires pages != [] && n < PageId(|pages|) && HasAt(f, i, Records(pages, n))
    ensures HasAt(f, i, "0000000000 65535 f \n")
  {
    hide Record, Offset;
    if n > 0 {
      HasAtConcat(f, i, Records(pages, n - 1), Record(Offset(pages, n)));
      FreeRecord(f, i, pages, n - 1);
    }
  }

  lemma RootIsRead(pages: seq<seq<string>>)
    requires pages != [] && Small(pages)
    ensures ReadRoot(Pdf(pages)) == Some(1)
  {
    hide Pdf, Small, Records, StartXref, Body, Field, XrefHead, Between, HasAt, Start;
    var size := PageId(|pages|);
    var f, xref := Pdf(pages), |Body(pages, size - 1)|;
    FileLayout(pages);
    HeadIsRead(f, xref, size);
    var at := xref + |XrefHead(size)|;
    FreeRecord(f, at, pages, size - 1);
    RecordsAreTwenty(pages, size - 1);
    TrailerIsRead(f, at + 20 * size, size, xref);
  }

  lemma TrailerIsRead(f: string, at: nat, size: nat, xref: nat)
    requires HasAt(f, at, TrailerDict(size) + Start(xref))
    ensures var e := at + |Field("trailer\n<< /Size ", size, " /Root ")|;
            && Between(f, at, "trailer\n<< /Size ", " /Root ") == Some((size, e))
            && Between(f, e, "", " 0 R >>\n") == Some((1, e + |Field("", 1, " 0 R >>\n")|))
            && HasAt(f, e + |Field("", 1, " 0 R >>\n")|, "startxref\n")
  {
    hide Between, HasAt;
    var first, second := Field("trailer\n<< /Size ", size, " /Root "), Field("", 1, " 0 R >>\n");
    StartBegins(xref);
    hide Field, Start;
    HasAtConcat(f, at, first + second, Start(xref));
    HasAtConcat(f, at, first, second);
    BetweenReads(f, at, "trailer\n<< /Size ", size, " /Root ");
    BetweenReads(f, at + |first|, "", 1, " 0 R >>\n");
    HasAtConcat(f, at + |first + second|, "startxref\n", Decimals.Print(xref) + TAIL);
  }

  lemma StartBegins(xref: nat)
    ensures Start(xref) == "startxref\n" + (Decimals.Print(xref) + TAIL)
  {
    Regroup("startxref\n", Decimals.Print(xref), TAIL, "", "");
  }

  lemma HeadIsRead(f: string, xref: nat, size: nat)
    requires HasAt(f, xref, XrefHead(size))
    ensures Between(f, xref, "xref\n0 ", "\n") == Some((size, xref + |XrefHead(size)|))
  {
    BetweenReads(f, xref, "xref\n0 ", size, "\n");
  }

  lemma TreeIsRead(pages: seq<seq<string>>)
    requires pages != [] && Small(pages)
    ensures ReadTree(Pdf(pages)) == Some(2)
  {
    hide Pdf, ObjectAt, Small, ReadRoot, Field, Between, HasAt;
    RootIsRead(pages);
    ObjectIsThere(pages, 1);
    var f := Pdf(pages);
    var at := ObjectAt(f, 1).value;
    HasAtConcat(f, at, Field("<< /Type /Catalog /Pages ", 2, " 0 R >>"), "\nendobj\n");
    BetweenReads(f, at, "<< /Type /Catalog /Pages ", 2, " 0 R >>");
  }

  lemma FontIsThere(pages: seq<seq<string>>)
    requires pages != [] && Small(pages)
    ensures IsFont(Pdf(pages), 3)
  {
    hide Pdf, ObjectAt, Small, HasAt;
    ObjectIsThere(pages, 3);
    var f := Pdf(pages);
    HasAtConcat(f, ObjectAt(f, 3).value, Object(pages, 3), "\nendobj\n");
  }

  lemma ContentObject(pages: seq<seq<string>>, i: nat)
    requires pages != [] && i < |pages|
    ensures var stream := ContentStream(pages[i]);
            Object(pages, PageId(i) + 1) == Field("<< /Length ", |stream|, " >>\nstream\n") + (stream + "\nendstream")
  {
    hide ContentStream, Field;
    assert (PageId(i) + 1 - 5) / 2 == i;
  }

  lemma StreamIsRead(pages: seq<seq<string>>, i: nat)
    requires pages != [] && Small(pages) && i < |pages|
    ensures ReadStream(Pdf(pages), PageId(i) + 1) == Some(ContentStream(pages[i]))
  {
    hide Pdf, ObjectAt, Small, ContentStream, Field, Between, Object;
    var id := PageId(i) + 1;
    ObjectIsThere(pages, id);
    ContentObject(pages, i);
    var f, stream := Pdf(pages), ContentStream(pages[i]);
    var at := ObjectAt(f, id).value;
    var head := Field("<< /Length ", |stream|, " >>\nstream\n");
    HasAtConcat(f, at, head + (stream + "\nendstream"), "\nendobj\n");
    HasAtConcat(f, at, head, stream + "\nendstream");
    HasAtConcat(f, at + |head|, stream, "\nendstream");
    BetweenReads(f, at, "<< /Length ", |stream|, " >>\nstream\n");
  }

  /** Read-back: following the cross-references and the page tree gives every page,
      in order, its exact content stream. */
  lemma PageReadBack(pages: seq<seq<string>>, i: nat)
    requires pages != [] && Small(pages) && i < |pages|
    ensures ReadPage(Pdf(pages), i) == Some(ContentStream(pages[i]))
    ensures ReadKids(Pdf(pages)).Some? && |ReadKids(Pdf(pages)).value| == |pages|
  {
    hide Pdf, ObjectAt, Small, ReadStream, ReadKids, Field, Between, ContentStream;
    hide IsFont, ReadTree, HasAt;
    KidsAreRead(pages);
    TreeIsRead(pages);
    FontIsThere(pages);
    var id := PageId(i);
    ObjectIsThere(pages, id);
    StreamIsRead(pages, i);
    var f := Pdf(pages);
    var at := ObjectAt(f, id).value;
    var parent := Field("<< /Type /Page /Parent ", 2, " 0 R /MediaBox [0 0 612 792] ");
    var font := Field("/Resources << /Font << /F1 ", 3, " 0 R >> >> ");
    var content := Field("/Contents ", id + 1, " 0 R >>");
    HasAtConcat(f, at, parent + (font + content), "\nendobj\n");
    HasAtConcat(f, at, parent, font + content);
    HasAtConcat(f, at + |parent|, font, content);
    BetweenReads(f, at, "<< /Type /Page /Parent ", 2, " 0 R /MediaBox [0 0 612 792] ");
    BetweenReads(f, at + |parent|, "/Resources << /Font << /F1 ", 3, " 0 R >> >> ");
    BetweenReads(f, at + |parent| + |font|, "/Contents ", id + 1, " 0 R >>");
  }

  // ----- the text of a page ----------------------------------------------------

  /** A literal string from just after its "(" to its closing ")": a backslash
      escapes the next character, nested parentheses balance, and an end-of-line
      marker reads as a line feed (section 7.3.4.2 of ISO 32000-1). */
  function Literal(f: string, depth: nat): Option<(string, string)>
    decreases |f|
  {
    if f == "" then None
    else if f[0] == ')' && depth == 0 then Some(("", f[1..]))
    else if f[0] == '\\' then
      if |f| == 1 then None else Then(f[1], Literal(f[2..], depth))
    else if f[0] == '\r' then
      if |f| > 1 && f[1] == '\n' then Then('\n', Literal(f[2..], depth)) else Then('\n', Literal(f[1..], depth))
    else if f[0] == '(' then Then('(', Literal(f[1..], depth + 1))
    else if f[0] == ')' then Then(')', Literal(f[1..], depth - 1))
    else Then(f[0], Literal(f[1..], depth))
  }

  function Then(c: char, r: Option<(string, string)>): Option<(string, string)> {
    if r.None? then None else Some(([c] + r.value.0, r.value.1))
  }

  lemma EscapeStep(t: string, tail: string)
    requires t != ""
    ensures var e := EscapeChar(t[0]);
            && Escape(t) + tail == e + (Escape(t[1..]) + tail)
            && (|e| == 2 ==> e[0] == '\\' && e[1] == t[0] && t[0] != '\r')
            && (|e| == 1 ==> e[0] == t[0] && t[0] !in "\\()")
            && 1 <= |e| <= 2
            && (e + (Escape(t[1..]) + tail))[|e|..] == Escape(t[1..]) + tail
  {
    var e, rest := EscapeChar(t[0]), Escape(t[1..]);
    hide EscapeChar;
    Assoc(e, rest, tail);
    EscapeCharIs(t[0]);
  }

  lemma Assoc(a: string, b: string, c: string)
    ensures a + b + c == a + (b + c) && (a + (b + c))[|a|..] == b + c
  {}

  lemma EscapeCharIs(c: char)
    ensures var e := EscapeChar(c);
            && 1 <= |e| <= 2
            && (|e| == 2 ==> e[0] == '\\' && e[1] == c && c != '\r')
            && (|e| == 1 ==> e[0] == c && c !in "\\()")
  {}

  /** Decoding undoes `_escape` on a text without carriage returns. */
  lemma {:induction false} LiteralUndoesEscape(t: string, rest: string)
    requires '\r' !in t
    ensures Literal(Escape(t) + (")" + rest), 0) == Some((t, rest))
  {
    hide Escape, EscapeChar;
    var tail := ")" + rest;
    if t == "" {
      EmptyEscape();
      assert "" + tail == tail && tail[1..] == rest;
    } else {
      LiteralUndoesEscape(t[1..], rest);
      EscapeStep(t, tail);
      assert t[0] in t && t == [t[0]] + t[1..];
    }
  }

  lemma EmptyEscape()
    ensures Escape("") == ""
  {}

  /** What is read back never holds a carriage return: each reads as a line feed. */
  lemma {:induction false} NoReturnIsRead(t: string, rest: string)
    ensures var r := Literal(Escape(t) + (")" + rest), 0); r.Some? ==> '\r' !in r.value.0
    decreases |t|
  {
    hide Escape, EscapeChar;
    var tail := ")" + rest;
    if t == "" {
      EmptyEscape();
      assert "" + tail == tail;
    } else {
      NoReturnIsRead(t[1..], rest);
      EscapeStep(t, tail);
      if |t| > 1 {
        NoReturnIsRead(t[2..], rest);
        EscapeStep(t[1..], tail);
        assert t[1..][1..] == t[2..];
      } else {
        EmptyEscape();
      }
    }
  }

  /** The escaping law with its exact condition. */
  lemma EscapeRoundTrips(t: string, rest: string)
    ensures Literal(Escape(t) + (")" + rest), 0) == Some((t, rest)) <==> '\r' !in t
  {
    if '\r' !in t {
      LiteralUndoesEscape(t, rest);
    } else {
      NoReturnIsRead(t, rest);
    }
  }

  /** The strings a stream shows, each on its own line. */
  function Shown(s: string): Option<seq<string>>
    decreases |s|
  {
    if s == "ET" then Some([])
    else if s == "" || s[0] != '(' then None
    else
      var r := Literal(s[1..], 0);
      if r.None? || !HasAt(r.value.1, 0, " Tj\nT*\n") || |r.value.1| >= |s| then None
      else
        var rest := Shown(r.value.1[7..]);
        if rest.None? then None else Some([r.value.0] + rest.value)
  }

  function ReadText(stream: string): Option<seq<string>> {
    var head := "BT\n/F1 12 Tf\n1 0 0 1 64 720 Tm\n18 TL\n";
    if HasAt(stream, 0, head) then Shown(stream[|head|..]) else None
  }

  /** The lines as Latin-1 keeps them: "?" for every other character. */
  function LatinLines(lines: seq<string>): (r: seq<string>)
    ensures |r| == |lines| && forall k :: 0 <= k < |r| ==> r[k] == Latin(lines[k])
  {
    seq(|lines|, k requires 0 <= k < |lines| => Latin(lines[k]))
  }

  ghost predicate NoReturns(lines: seq<string>) { forall k :: 0 <= k < |lines| ==> '\r' !in lines[k] }

  /** The same lines hold carriage returns. */
  ghost predicate SameReturns(a: seq<string>, b: seq<string>) {
    |a| == |b| && forall k :: 0 <= k < |a| ==> ('\r' in a[k] <==> '\r' in b[k])
  }

  function AfterLine(lines: seq<string>): string
    requires lines != []
  {
    " Tj\nT*\n" + ShowLines(lines[1..])
  }

  lemma ShownFirst(lines: seq<string>)
    requires lines != []
    ensures var s := ShowLines(lines);
            && s != "ET" && s != "" && s[0] == '(' && s[1..] == Escape(lines[0]) + (")" + AfterLine(lines))
            && |AfterLine(lines)| < |s| && HasAt(AfterLine(lines), 0, " Tj\nT*\n")
            && AfterLine(lines)[7..] == ShowLines(lines[1..])
  {
    hide Escape;
    var rest := AfterLine(lines);
    assert ShowLines(lines) == "(" + (Escape(lines[0]) + (")" + rest));
    assert rest[0..7] == " Tj\nT*\n";
  }

  /** A stream of shown lines reads as a list with carriage returns in the same lines
      only if it has none and is those lines. */
  lemma {:induction false} ShownReads(lines: seq<string>, want: seq<string>)
    requires SameReturns(lines, want)
    ensures Shown(ShowLines(lines)) == Some(want) <==> NoReturns(lines) && want == lines
  {
    if lines == [] {
      assert ShowLines(lines) == "ET";
    } else {
      hide Escape, Literal, ShowLines, AfterLine, HasAt, Shown, NoReturns;
      ShownFirst(lines);
      ShownReads(lines[1..], want[1..]);
      FirstReads(lines, want);
    }
  }

  lemma FirstReads(lines: seq<string>, want: seq<string>)
    requires lines != [] && SameReturns(lines, want)
    requires var s := ShowLines(lines);
             && s != "ET" && s != "" && s[0] == '(' && s[1..] == Escape(lines[0]) + (")" + AfterLine(lines))
             && |AfterLine(lines)| < |s| && HasAt(AfterLine(lines), 0, " Tj\nT*\n")
             && AfterLine(lines)[7..] == ShowLines(lines[1..])
    requires Shown(ShowLines(lines[1..])) == Some(want[1..]) <==> NoReturns(lines[1..]) && want[1..] == lines[1..]
    ensures Shown(ShowLines(lines)) == Some(want) <==> NoReturns(lines) && want == lines
  {
    hide Escape, Literal, ShowLines, AfterLine, HasAt;
    assert lines == [lines[0]] + lines[1..] && want == [want[0]] + want[1..];
    if '\r' in lines[0] {
      NoReturnIsRead(lines[0], AfterLine(lines));
    } else {
      LiteralUndoesEscape(lines[0], AfterLine(lines));
    }
  }

  // Encoding and escaping do not disturb each other.

  lemma LatinConcat(a: string, b: string)
    ensures Latin(a + b) == Latin(a) + Latin(b)
  {}

  lemma LatinChar(c: char)
    ensures Latin(EscapeChar(c)) == EscapeChar(if c as int < 256 then c else '?')
  {}

  lemma {:induction false} LatinEscape(t: string)
    ensures Latin(Escape(t)) == Escape(Latin(t))
  {
    if t != "" {
      LatinEscape(t[1..]);
      LatinConcat(EscapeChar(t[0]), Escape(t[1..]));
      LatinChar(t[0]);
      assert Latin(t)[1..] == Latin(t[1..]);
    }
  }

  lemma LatinIsItself(s: string)
    requires forall i :: 0 <= i < |s| ==> s[i] as int < 256
    ensures Latin(s) == s
  {}

  lemma {:induction false} LatinShowLines(lines: seq<string>)
    ensures Latin(ShowLines(lines)) == ShowLines(LatinLines(lines))
  {
    if lines == [] {
      LatinIsItself("ET");
    } else {
      var open, escaped, shown, rest := "(", Escape(lines[0]), ") Tj\nT*\n", ShowLines(lines[1..]);
      assert LatinLines(lines)[1..] == LatinLines(lines[1..]);
      assert ShowLines(lines) == open + escaped + shown + rest;
      LatinShowLines(lines[1..]);
      LatinEscape(lines[0]);
      LatinIsItself(open);
      LatinIsItself(shown);
      hide Latin, Escape;
      LatinConcat(open + escaped + shown, rest);
      LatinConcat(open + escaped, shown);
      LatinConcat(open, escaped);
    }
  }

  lemma LatinKeepsReturns(t: string)
    ensures '\r' in Latin(t) <==> '\r' in t
  {
    assert forall i :: 0 <= i < |t| ==> (Latin(t)[i] == '\r' <==> t[i] == '\r');
  }

  lemma LatinFixes(t: string)
    ensures Latin(t) == t <==> forall i :: 0 <= i < |t| ==> t[i] as int < 256
  {
    assert forall i :: 0 <= i < |t| ==> (Latin(t)[i] == t[i] <==> t[i] as int < 256 || t[i] == '?');
    assert '?' as int < 256;
  }

  lemma StreamIs(lines: seq<string>)
    ensures ContentStream(lines) == PREAMBLE + ShowLines(LatinLines(lines))
  {
    LatinConcat(PREAMBLE, ShowLines(lines));
    LatinIsItself(PREAMBLE);
    LatinShowLines(lines);
  }

  lemma AfterPreamble(shown: string)
    ensures ReadText(PREAMBLE + shown) == Shown(shown)
  {
    hide Shown;
    var s := PREAMBLE + shown;
    assert s[0..|PREAMBLE|] == PREAMBLE && s[|PREAMBLE|..] == shown;
  }

  lemma StreamReads(lines: seq<string>, want: seq<string>)
    requires SameReturns(LatinLines(lines), want)
    ensures ReadText(ContentStream(lines)) == Some(want) <==> NoReturns(LatinLines(lines)) && want == LatinLines(lines)
  {
    hide ShowLines, LatinLines, Shown, ReadText, ContentStream, NoReturns, SameReturns;
    StreamIs(lines);
    AfterPreamble(ShowLines(LatinLines(lines)));
    ShownReads(LatinLines(lines), want);
  }

  ghost predicate AllLatin(lines: seq<string>) {
    forall k, i :: 0 <= k < |lines| && 0 <= i < |lines[k]| ==> lines[k][i] as int < 256
  }

  lemma LinesKeep(lines: seq<string>)
    ensures SameReturns(LatinLines(lines), lines) && (NoReturns(LatinLines(lines)) <==> NoReturns(lines))
    ensures LatinLines(lines) == lines <==> AllLatin(lines)
  {
    hide Latin;
    forall k | 0 <= k < |lines|
      ensures '\r' in Latin(lines[k]) <==> '\r' in lines[k]
      ensures Latin(lines[k]) == lines[k] <==> forall i :: 0 <= i < |lines[k]| ==> lines[k][i] as int < 256
    {
      LatinKeepsReturns(lines[k]);
      LatinFixes(lines[k]);
    }
    if AllLatin(lines) {
      assert forall k :: 0 <= k < |lines| ==> LatinLines(lines)[k] == lines[k];
    }
    if LatinLines(lines) == lines {
      assert forall k :: 0 <= k < |lines| ==> Latin(lines[k]) == lines[k];
    }
  }

  /** From the file back to the page's lines, with "?" for what Latin-1 has not, if and
      only if no line holds a carriage return; the lines themselves, if and only if they
      are Latin-1 as well. */
  lemma TextReadBack(pages: seq<seq<string>>, i: nat)
    requires pages != [] && Small(pages) && i < |pages|
    ensures ReadPage(Pdf(pages), i).Some?
    ensures var text := ReadText(ReadPage(Pdf(pages), i).value);
            && (text == Some(LatinLines(pages[i])) <==> NoReturns(pages[i]))
            && (text == Some(pages[i]) <==> NoReturns(pages[i]) && AllLatin(pages[i]))
  {
    PageReadBack(pages, i);
    hide Pdf, ReadPage, Small, ContentStream, ReadText, LatinLines;
    LinesKeep(pages[i]);
    StreamReads(pages[i], LatinLines(pages[i]));
    StreamReads(pages[i], pages[i]);
  }
}

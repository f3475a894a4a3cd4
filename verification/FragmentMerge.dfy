/** Joining a page-split table, as a function of its rows. */
module FragmentMerge {
  import opened Common
  import opened Tables

  /** What the text recognisers say: a header row, a "(1)" cell, and a text
      without its citation sentinels. */
  datatype Recognisers = Recognisers(
    header: seq<Option<string>> -> bool,
    number: string -> bool,
    plain: string -> string)

  predicate Blank(t: string) {
    forall c :: c in t ==> c in " \t\n\r"
  }

  // ----- the lead row's rowspans -----------------------------------------------

  datatype Insert = Insert(row: nat, col: nat, colspan: nat)

  /** Rows k, k + 1, ... below a lead cell of the given rowspan. */
  function RowsBelow(k: nat, rowspan: nat, col: nat, colspan: nat): seq<Insert>
    decreases rowspan - k
  {
    if k >= rowspan then [] else [Insert(k, col, colspan)] + RowsBelow(k + 1, rowspan, col, colspan)
  }

  /** One insertion per row a lead cell spans beyond its own, cells left to right. */
  function Inserts(lead: seq<Cell>): seq<Insert> {
    if lead == [] then []
    else
      var n := |lead| - 1;
      Inserts(lead[..n]) + RowsBelow(1, lead[n].rowspan, ColspanSum(lead[..n]), lead[n].colspan)
  }

  /** The first index with at least `col` columns before it, or the row's end. */
  function IndexFor(row: seq<Cell>, col: nat, i: nat, run: nat): (r: nat)
    requires i <= |row|
    ensures i <= r <= |row|
    decreases |row| - i
  {
    if i == |row| || run >= col then i else IndexFor(row, col, i + 1, run + row[i].colspan)
  }

  function InsertInRow(row: seq<Cell>, col: nat, colspan: nat): (r: seq<Cell>)
    ensures |r| == |row| + 1
  {
    var idx := IndexFor(row, col, 0, 0);
    row[..idx] + [Cell("", colspan, 1)] + row[idx..]
  }

  function InsertOne(body: Rows, ins: Insert): (r: Rows)
    ensures |r| == |body|
  {
    if ins.row >= |body| then body
    else body[ins.row := InsertInRow(body[ins.row], ins.col, ins.colspan)]
  }

  function InsertAll(body: Rows, inserts: seq<Insert>): (r: Rows)
    ensures |r| == |body|
  {
    if inserts == [] then body
    else InsertOne(InsertAll(body, inserts[..|inserts| - 1]), inserts[|inserts| - 1])
  }

  function Lowered(c: Cell): Cell { if c.rowspan > 1 then c.(rowspan := 1) else c }

  function LoweredRow(row: seq<Cell>): (r: seq<Cell>)
    ensures |r| == |row| && forall i :: 0 <= i < |row| ==> r[i] == Lowered(row[i])
  {
    seq(|row|, i requires 0 <= i < |row| => Lowered(row[i]))
  }

  /** `_expand_lead_rowspans`. */
  function ExpandLead(body: Rows): (r: Rows)
    requires body != []
    ensures |r| == |body|
  {
    InsertAll(body[0 := LoweredRow(body[0])], Inserts(body[0]))
  }

  // ----- texts -----------------------------------------------------------------

  /** The non-blank texts of a row, left to right. */
  function RowTexts(row: seq<Cell>): seq<string> {
    if row == [] then []
    else RowTexts(row[..|row| - 1]) + if Blank(row[|row| - 1].text) then [] else [row[|row| - 1].text]
  }

  function AllTexts(rows: Rows): seq<string> {
    if rows == [] then [] else AllTexts(rows[..|rows| - 1]) + RowTexts(rows[|rows| - 1])
  }

  lemma {:induction false} RowTextsConcat(a: seq<Cell>, b: seq<Cell>)
    ensures RowTexts(a + b) == RowTexts(a) + RowTexts(b)
  {
    if b == [] {
      assert a + b == a;
    } else {
      RowTextsConcat(a, b[..|b| - 1]);
      assert (a + b)[..|a + b| - 1] == a + b[..|b| - 1];
    }
  }

  lemma {:induction false} AllTextsConcat(a: Rows, b: Rows)
    ensures AllTexts(a + b) == AllTexts(a) + AllTexts(b)
  {
    hide RowTexts;
    if b == [] {
      assert a + b == a;
    } else {
      AllTextsConcat(a, b[..|b| - 1]);
      assert (a + b)[..|a + b| - 1] == a + b[..|b| - 1];
    }
  }

  lemma InsertKeepsTexts(row: seq<Cell>, col: nat, colspan: nat)
    ensures RowTexts(InsertInRow(row, col, colspan)) == RowTexts(row)
  {
    var idx := IndexFor(row, col, 0, 0);
    var blank := [Cell("", colspan, 1)];
    RowTextsConcat(row[..idx] + blank, row[idx..]);
    RowTextsConcat(row[..idx], blank);
    RowTextsConcat(row[..idx], row[idx..]);
    assert row == row[..idx] + row[idx..];
    assert RowTexts(blank[..0]) == [];
  }

  /** Row by row the same texts in the same order. */
  ghost predicate SameTexts(a: Rows, b: Rows) {
    |a| == |b| && forall r :: 0 <= r < |a| ==> RowTexts(a[r]) == RowTexts(b[r])
  }

  lemma {:induction false} InsertAllKeepsTexts(body: Rows, inserts: seq<Insert>)
    ensures SameTexts(body, InsertAll(body, inserts))
  {
    if inserts != [] {
      var ins := inserts[|inserts| - 1];
      var before := InsertAll(body, inserts[..|inserts| - 1]);
      InsertAllKeepsTexts(body, inserts[..|inserts| - 1]);
      if ins.row < |body| {
        InsertKeepsTexts(before[ins.row], ins.col, ins.colspan);
      }
    }
  }

  lemma {:induction false} LoweredKeepsTexts(row: seq<Cell>)
    ensures RowTexts(LoweredRow(row)) == RowTexts(row)
  {
    if row != [] {
      LoweredKeepsTexts(row[..|row| - 1]);
      assert LoweredRow(row)[..|row| - 1] == LoweredRow(row[..|row| - 1]);
    }
  }

  /** Expansion adds only blank cells: no text is lost, doubled or moved to
      another row. */
  lemma ExpandKeepsTexts(body: Rows)
    requires body != []
    ensures SameTexts(body, ExpandLead(body))
  {
    LoweredKeepsTexts(body[0]);
    InsertAllKeepsTexts(body[0 := LoweredRow(body[0])], Inserts(body[0]));
  }

  lemma {:induction false} SameTextsSameAll(a: Rows, b: Rows)
    requires SameTexts(a, b)
    ensures AllTexts(a) == AllTexts(b)
  {
    if a != [] {
      SameTextsSameAll(a[..|a| - 1], b[..|b| - 1]);
    }
  }

  // ----- the merge -------------------------------------------------------------

  /** Sentinel-free texts, expanded over colspans. */
  function Expanded(rec: Recognisers, row: seq<Cell>): seq<Option<string>> {
    if row == [] then []
    else
      var c := row[|row| - 1];
      Expanded(rec, row[..|row| - 1]) + [Some(rec.plain(c.text))]
      + (if c.colspan > 1 then seq(c.colspan - 1, _ => None) else [])
  }

  predicate IsHeader(rec: Recognisers, row: seq<Cell>) { rec.header(Expanded(rec, row)) }

  /** How many leading rows of `b` repeat `a`'s leading header rows. */
  function Repeated(rec: Recognisers, a: Rows, b: Rows, k: nat): (n: nat)
    requires k <= |a| && k <= |b|
    ensures k <= n <= |a| && n <= |b|
    ensures forall i :: k <= i < n ==> IsHeader(rec, b[i]) && Expanded(rec, a[i]) == Expanded(rec, b[i])
    ensures n < |a| && n < |b| ==> !(IsHeader(rec, b[n]) && Expanded(rec, a[n]) == Expanded(rec, b[n]))
    decreases |a| - k
  {
    if k < |a| && k < |b| && IsHeader(rec, b[k]) && Expanded(rec, a[k]) == Expanded(rec, b[k]) then
      Repeated(rec, a, b, k + 1)
    else k
  }

  function Shown(texts: seq<Option<string>>): (r: seq<string>)
  {
    if texts == [] then []
    else
      var t := texts[|texts| - 1];
      Shown(texts[..|texts| - 1]) + if t.Some? && !Blank(t.value) then [t.value] else []
  }

  function Lifted(texts: seq<string>): (r: seq<Option<string>>)
    ensures |r| == |texts| && forall i :: 0 <= i < |r| ==> r[i] == Some(texts[i])
  {
    seq(|texts|, i requires 0 <= i < |texts| => Some(texts[i]))
  }

  predicate AllNumbers(rec: Recognisers, texts: seq<string>) {
    forall i :: 0 <= i < |texts| ==> rec.number(texts[i])
  }

  predicate HeaderOnly(rec: Recognisers, a: Rows) {
    forall r :: 0 <= r < |a| ==> IsHeader(rec, a[r])
  }

  /** The fragment opens a header of its own that is not the numbering row the
      table still lacks. */
  predicate OpensNewTable(rec: Recognisers, a: Rows, rest: Rows) {
    rest != [] && !HeaderOnly(rec, a) &&
    var t0 := Shown(Expanded(rec, rest[0]));
    && t0 != [] && rec.header(Lifted(t0))
    && (!AllNumbers(rec, t0)
        || exists r :: 0 <= r < |a| && Shown(Expanded(rec, a[r])) != [] && AllNumbers(rec, Shown(Expanded(rec, a[r]))))
  }

  /** The lead row is the tail of a row above: an empty serial, some other text. */
  predicate IsTail(rec: Recognisers, lead: seq<Cell>) {
    var texts := Expanded(rec, lead);
    && texts != []
    && (texts[0].None? || Blank(texts[0].value))
    && exists i :: 1 <= i < |texts| && texts[i].Some? && !Blank(texts[i].value)
  }

  /** Row `k` holds a cell with text as owner of column `w`. */
  predicate OwnsText(a: Rows, owners: seq<Owners>, w: nat, k: nat)
    requires k < |owners|
  {
    w < |owners[k]| && owners[k][w].Some? &&
    var id := owners[k][w].value;
    id.0 < |a| && id.1 < |a[id.0]| && !Blank(a[id.0][id.1].text)
  }

  /** The last cell with text owning column `w` among the first `n` rows. */
  function LastOwner(a: Rows, owners: seq<Owners>, w: nat, n: nat): (r: Option<Id>)
    requires n <= |owners|
    ensures r.None? <==> forall k :: 0 <= k < n ==> !OwnsText(a, owners, w, k)
    ensures r.Some? ==> exists k :: 0 <= k < n && OwnsText(a, owners, w, k) && owners[k][w] == r
                                    && forall j :: k < j < n ==> !OwnsText(a, owners, w, j)
    ensures r.Some? ==> r.value.0 < |a| && r.value.1 < |a[r.value.0]| && !Blank(a[r.value.0][r.value.1].text)
  {
    if n == 0 then None
    else if OwnsText(a, owners, w, n - 1) then owners[n - 1][w]
    else LastOwner(a, owners, w, n - 1)
  }

  datatype Fusion = Fusion(target: Id, text: string)

  /** Where each non-blank lead cell goes, or None when one has no owner above. */
  function Plan(a: Rows, owners: seq<Owners>, lead: seq<Cell>): (r: Option<seq<Fusion>>)
    requires |owners| == |a|
    ensures r.Some? ==> forall f :: f in r.value ==> f.target.0 < |a| && f.target.1 < |a[f.target.0]|
  {
    if lead == [] then Some([])
    else
      var n := |lead| - 1;
      var front := Plan(a, owners, lead[..n]);
      if front.None? || Blank(lead[n].text) then front
      else
        var target := LastOwner(a, owners, ColspanSum(lead[..n]), |a|);
        if target.None? then None else Some(front.value + [Fusion(target.value, lead[n].text)])
  }

  function Fuse(a: Rows, id: Id, text: string): (r: Rows)
    requires id.0 < |a| && id.1 < |a[id.0]|
    ensures |r| == |a| && forall i :: 0 <= i < |a| ==> |r[i]| == |a[i]|
  {
    var c := a[id.0][id.1];
    a[id.0 := a[id.0][id.1 := c.(text := c.text + "\n" + text)]]
  }

  function FuseAll(a: Rows, plan: seq<Fusion>): (r: Rows)
    requires forall f :: f in plan ==> f.target.0 < |a| && f.target.1 < |a[f.target.0]|
    ensures |r| == |a| && forall i :: 0 <= i < |a| ==> |r[i]| == |a[i]|
  {
    if plan == [] then a
    else
      var n := |plan| - 1;
      assert plan[n] in plan && forall f :: f in plan[..n] ==> f in plan;
      Fuse(FuseAll(a, plan[..n]), plan[n].target, plan[n].text)
  }

  /** The fragment once its repeated header is dropped and, where it continues a
      table with data, its lead row's rowspans are made explicit. */
  function Body(rec: Recognisers, a: Rows, b: Rows): Rows {
    var rest := b[Repeated(rec, a, b, 0)..];
    if rest != [] && !HeaderOnly(rec, a) then ExpandLead(rest) else rest
  }

  /** The fusions of the lead row; None when it is to stand as a row. */
  function LeadPlan(rec: Recognisers, a: Rows, b: Rows): (r: Option<seq<Fusion>>)
    ensures r.Some? ==> forall f :: f in r.value ==> f.target.0 < |a| && f.target.1 < |a[f.target.0]|
  {
    var body := Body(rec, a, b);
    if body != [] && !HeaderOnly(rec, a) && IsTail(rec, body[0]) then Plan(a, OwnersOf(a), body[0]) else None
  }

  /** `_try_merge_structs`. */
  function TryMerge(rec: Recognisers, a: Rows, b: Rows): Option<Rows> {
    if a == [] || b == [] || StructWidth(a) != StructWidth(b) then None
    else if OpensNewTable(rec, a, b[Repeated(rec, a, b, 0)..]) then None
    else
      var plan := LeadPlan(rec, a, b);
      if plan.Some? then Some(FuseAll(a, plan.value) + Body(rec, a, b)[1..])
      else Some(a + Body(rec, a, b))
  }

  // ----- nothing is lost -------------------------------------------------------

  function PlanTexts(plan: seq<Fusion>): seq<string> {
    if plan == [] then [] else PlanTexts(plan[..|plan| - 1]) + [plan[|plan| - 1].text]
  }

  /** What the plan appends to one cell, in order. */
  function Appended(plan: seq<Fusion>, id: Id): string {
    if plan == [] then ""
    else Appended(plan[..|plan| - 1], id)
         + if plan[|plan| - 1].target == id then "\n" + plan[|plan| - 1].text else ""
  }

  lemma {:induction false} PlanCarriesLead(a: Rows, owners: seq<Owners>, lead: seq<Cell>)
    requires |owners| == |a|
    ensures Plan(a, owners, lead).Some? ==> PlanTexts(Plan(a, owners, lead).value) == RowTexts(lead)
  {
    hide LastOwner;
    if lead != [] {
      var n := |lead| - 1;
      PlanCarriesLead(a, owners, lead[..n]);
      if Plan(a, owners, lead).Some? && !Blank(lead[n].text) {
        var front := Plan(a, owners, lead[..n]).value;
        var plan := Plan(a, owners, lead).value;
        assert plan[..|plan| - 1] == front;
      }
    }
  }

  lemma {:induction false} FuseAllAppends(a: Rows, plan: seq<Fusion>, r: nat, i: nat)
    requires forall f :: f in plan ==> f.target.0 < |a| && f.target.1 < |a[f.target.0]|
    requires r < |a| && i < |a[r]|
    ensures FuseAll(a, plan)[r][i] == a[r][i].(text := a[r][i].text + Appended(plan, (r, i)))
  {
    if plan != [] {
      var n := |plan| - 1;
      assert plan[n] in plan && forall f :: f in plan[..n] ==> f in plan;
      FuseAllAppends(a, plan[..n], r, i);
      assert a[r][i].text + Appended(plan[..n], (r, i)) + ("\n" + plan[n].text)
          == a[r][i].text + (Appended(plan[..n], (r, i)) + ("\n" + plan[n].text));
    } else {
      assert a[r][i].text + "" == a[r][i].text;
    }
  }

  /** Conservation.  A merge keeps `a`'s rows and cells in place; each of its
      texts survives as a prefix, extended by the fused texts planned for it; and
      the fused texts followed by the texts of the rows below are exactly the
      fragment's non-blank texts after its repeated header, in order. */
  lemma MergeConserves(rec: Recognisers, a: Rows, b: Rows)
    requires TryMerge(rec, a, b).Some?
    ensures var m, plan := TryMerge(rec, a, b).value, LeadPlan(rec, a, b).GetOr([]);
            && |m| >= |a|
            && (forall r :: 0 <= r < |a| ==> |m[r]| == |a[r]|)
            && (forall r, i :: 0 <= r < |a| && 0 <= i < |a[r]| ==>
                  m[r][i] == a[r][i].(text := a[r][i].text + Appended(plan, (r, i))))
            && PlanTexts(plan) + AllTexts(m[|a|..]) == AllTexts(b[Repeated(rec, a, b, 0)..])
  {
    hide OwnersOf, OpensNewTable, HeaderOnly, IsTail, Plan;
    var rest, body, plan := b[Repeated(rec, a, b, 0)..], Body(rec, a, b), LeadPlan(rec, a, b);
    BodyKeepsTexts(rec, a, b);
    var m := TryMerge(rec, a, b).value;
    if plan.Some? {
      PlanCarriesLead(a, OwnersOf(a), body[0]);
      AllTextsConcat([body[0]], body[1..]);
      assert body == [body[0]] + body[1..];
      assert AllTexts([body[0]]) == RowTexts(body[0]) by { assert [body[0]][..0] == []; }
      assert m[|a|..] == body[1..];
      forall r, i | 0 <= r < |a| && 0 <= i < |a[r]|
        ensures m[r][i] == a[r][i].(text := a[r][i].text + Appended(plan.value, (r, i)))
      {
        FuseAllAppends(a, plan.value, r, i);
      }
    } else {
      assert m[|a|..] == body;
      forall r, i | 0 <= r < |a| && 0 <= i < |a[r]|
        ensures m[r][i] == a[r][i].(text := a[r][i].text + Appended([], (r, i)))
      {
        assert a[r][i].text + "" == a[r][i].text;
      }
    }
  }

  lemma BodyKeepsTexts(rec: Recognisers, a: Rows, b: Rows)
    ensures AllTexts(Body(rec, a, b)) == AllTexts(b[Repeated(rec, a, b, 0)..])
  {
    var rest := b[Repeated(rec, a, b, 0)..];
    if rest != [] && !HeaderOnly(rec, a) {
      ExpandKeepsTexts(rest);
      SameTextsSameAll(rest, ExpandLead(rest));
    }
  }
}

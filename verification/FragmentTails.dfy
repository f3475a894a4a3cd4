/** Where the texts of a wrapped row go when two fragments are joined. */
module FragmentTails {
  import opened Common
  import opened Tables
  import opened FragmentMerge

  /** The text holds something other than whitespace. */
  ghost predicate HasInk(text: string) { exists c :: c in text && c != ' ' && c != '\t' && c != '\n' && c != '\r' }

  /** In row `k` of the table column `w` belongs to cell `id`, which has text. */
  ghost predicate TextAt(a: Rows, owners: seq<Owners>, w: nat, k: nat, id: Id) {
    && k < |owners| && w < |owners[k]| && owners[k][w] == Some(id)
    && id.0 < |a| && id.1 < |a[id.0]| && HasInk(a[id.0][id.1].text)
  }

  /** `id` is the cell a text over column `w` continues: it has text and owns the
      column in some row of the table, and in no later row a cell with text does. */
  ghost predicate LastTextOf(a: Rows, owners: seq<Owners>, w: nat, id: Id) {
    exists k: nat ::
      TextAt(a, owners, w, k, id) && forall j: nat, other: Id :: k < j ==> !TextAt(a, owners, w, j, other)
  }

  ghost predicate NoTextOf(a: Rows, owners: seq<Owners>, w: nat) {
    forall k: nat, id: Id :: !TextAt(a, owners, w, k, id)
  }

  lemma InkIsNotBlank(text: string)
    ensures HasInk(text) <==> !Blank(text)
  {
    if !Blank(text) {
      var c :| c in text && c !in " \t\n\r";
      assert c != " \t\n\r"[0] && c != " \t\n\r"[1] && c != " \t\n\r"[2] && c != " \t\n\r"[3];
    }
  }

  lemma TextIsOwned(a: Rows, owners: seq<Owners>, w: nat, k: nat, id: Id)
    ensures TextAt(a, owners, w, k, id) <==>
            k < |owners| && OwnsText(a, owners, w, k) && owners[k][w] == Some(id)
  {
    hide HasInk, Blank;
    if id.0 < |a| && id.1 < |a[id.0]| {
      InkIsNotBlank(a[id.0][id.1].text);
    }
  }

  /** The column lead cell `i` starts in. */
  function ColumnOf(lead: seq<Cell>, i: nat): nat
    requires i <= |lead|
  {
    ColspanSum(lead[..i])
  }

  lemma OneLastText(a: Rows, owners: seq<Owners>, w: nat, x: Id, y: Id)
    requires LastTextOf(a, owners, w, x) && LastTextOf(a, owners, w, y)
    ensures x == y
  {
    hide HasInk;
    var k: nat :| TextAt(a, owners, w, k, x) && forall j: nat, other: Id :: k < j ==> !TextAt(a, owners, w, j, other);
    var l: nat :| TextAt(a, owners, w, l, y) && forall j: nat, other: Id :: l < j ==> !TextAt(a, owners, w, j, other);
    assert !(k < l) && !(l < k);
  }

  /** The scan from the last row up finds that cell, or that there is none. */
  lemma ScanFinds(a: Rows, owners: seq<Owners>, w: nat)
    ensures var t := LastOwner(a, owners, w, |owners|);
            && (t.Some? ==> LastTextOf(a, owners, w, t.value))
            && (t.None? <==> NoTextOf(a, owners, w))
  {
    hide Blank, HasInk, TextAt;
    var t := LastOwner(a, owners, w, |owners|);
    forall k: nat, id: Id
      ensures TextAt(a, owners, w, k, id) ==> k < |owners| && OwnsText(a, owners, w, k)
    {
      TextIsOwned(a, owners, w, k, id);
    }
    if t.Some? {
      var k: nat :| k < |owners| && OwnsText(a, owners, w, k) && owners[k][w] == t
                    && forall j :: k < j < |owners| ==> !OwnsText(a, owners, w, j);
      TextIsOwned(a, owners, w, k, t.value);
    }
  }

  /** The lead cells with text, left to right. */
  ghost function TextCells(lead: seq<Cell>): (r: seq<nat>)
    ensures forall i: nat :: i in r <==> i < |lead| && HasInk(lead[i].text)
    ensures Climbs(r)
  {
    if lead == [] then []
    else
      var n := |lead| - 1;
      var front := TextCells(lead[..n]);
      assert forall i: nat :: i < n ==> lead[..n][i] == lead[i];
      OneMoreClimbs(front, n);
      if HasInk(lead[n].text) then front + [n] else front
  }

  /** `f` carries lead cell `i`'s text to the cell the text of its column ended in. */
  ghost predicate Continues(a: Rows, owners: seq<Owners>, lead: seq<Cell>, i: nat, f: Fusion) {
    i < |lead| && f.text == lead[i].text && LastTextOf(a, owners, ColumnOf(lead, i), f.target)
  }

  ghost predicate Continued(a: Rows, owners: seq<Owners>, lead: seq<Cell>, at: seq<nat>, plan: seq<Fusion>) {
    |plan| == |at| && forall j: nat :: j < |at| ==> Continues(a, owners, lead, at[j], plan[j])
  }

  lemma TextCellsOneMore(front: seq<Cell>, c: Cell)
    ensures TextCells(front + [c]) == if HasInk(c.text) then TextCells(front) + [|front|] else TextCells(front)
  {
    assert (front + [c])[..|front|] == front;
  }

  lemma ContinuedGrows(a: Rows, owners: seq<Owners>, front: seq<Cell>, c: Cell, plan: seq<Fusion>)
    requires Continued(a, owners, front, TextCells(front), plan)
    ensures Continued(a, owners, front + [c], TextCells(front), plan)
  {
    hide LastTextOf, TextCells;
    var at, lead := TextCells(front), front + [c];
    forall j: nat | j < |at|
      ensures Continues(a, owners, lead, at[j], plan[j])
    {
      assert at[j] in at && Continues(a, owners, front, at[j], plan[j]);
      assert lead[..at[j]] == front[..at[j]];
    }
  }

  lemma LastContinued(a: Rows, owners: seq<Owners>, front: seq<Cell>, c: Cell, plan: seq<Fusion>, f: Fusion)
    requires HasInk(c.text) && f.text == c.text && LastTextOf(a, owners, ColspanSum(front), f.target)
    requires Continued(a, owners, front + [c], TextCells(front), plan)
    ensures Continued(a, owners, front + [c], TextCells(front + [c]), plan + [f])
  {
    hide LastTextOf, TextCells, HasInk, Continues;
    var at, lead := TextCells(front), front + [c];
    TextCellsOneMore(front, c);
    LastContinues(a, owners, front, c, f);
    forall j: nat | j < |at| + 1
      ensures Continues(a, owners, lead, (at + [|front|])[j], (plan + [f])[j])
    {
      if j < |at| { assert Continues(a, owners, lead, at[j], plan[j]); }
    }
  }

  lemma LastContinues(a: Rows, owners: seq<Owners>, front: seq<Cell>, c: Cell, f: Fusion)
    requires f.text == c.text && LastTextOf(a, owners, ColspanSum(front), f.target)
    ensures Continues(a, owners, front + [c], |front|, f)
  {
    hide LastTextOf;
    assert (front + [c])[..|front|] == front;
  }

  lemma NothingContinued(a: Rows, owners: seq<Owners>)
    ensures Continued(a, owners, [], TextCells([]), []) && !Homeless(a, owners, [])
  {
  }

  /** Some lead cell with text starts in a column without text in the table. */
  ghost predicate Homeless(a: Rows, owners: seq<Owners>, lead: seq<Cell>) {
    exists i: nat :: i in TextCells(lead) && NoTextOf(a, owners, ColumnOf(lead, i))
  }

  lemma HomelessOneMore(a: Rows, owners: seq<Owners>, front: seq<Cell>, c: Cell)
    ensures Homeless(a, owners, front + [c]) <==>
            Homeless(a, owners, front) || (HasInk(c.text) && NoTextOf(a, owners, ColspanSum(front)))
  {
    hide TextCells, NoTextOf, HasInk;
    var lead := front + [c];
    TextCellsOneMore(front, c);
    assert lead[..|front|] == front;
    forall i: nat | i in TextCells(front)
      ensures ColumnOf(lead, i) == ColumnOf(front, i)
    {
      assert lead[..i] == front[..i];
    }
    if Homeless(a, owners, front) {
      var i: nat :| i in TextCells(front) && NoTextOf(a, owners, ColumnOf(front, i));
      assert i in TextCells(lead) && NoTextOf(a, owners, ColumnOf(lead, i));
    }
    if HasInk(c.text) && NoTextOf(a, owners, ColspanSum(front)) {
      assert |front| in TextCells(lead) && NoTextOf(a, owners, ColumnOf(lead, |front|));
    }
  }

  /** The plan fuses every lead cell with text, left to right, into the cell its
      own column's text ended in; there is no plan exactly when the column of one
      of them has no text in the table. */
  lemma {:induction false} PlanContinues(a: Rows, owners: seq<Owners>, lead: seq<Cell>)
    requires |owners| == |a|
    ensures var plan := Plan(a, owners, lead);
            && (plan.Some? ==> Continued(a, owners, lead, TextCells(lead), plan.value))
            && (plan.None? <==> Homeless(a, owners, lead))
  {
    hide TextCells, LastTextOf, NoTextOf, HasInk, OwnsText, LastOwner, Continued, Homeless;
    if lead != [] {
      var n := |lead| - 1;
      var front, last := lead[..n], lead[n];
      assert lead == front + [last];
      PlanContinues(a, owners, front);
      TextCellsOneMore(front, last);
      HomelessOneMore(a, owners, front, last);
      ScanFinds(a, owners, ColspanSum(front));
      InkIsNotBlank(last.text);
      var head := Plan(a, owners, front);
      if head.Some? {
        ContinuedGrows(a, owners, front, last, head.value);
        var target := LastOwner(a, owners, ColspanSum(front), |a|);
        if HasInk(last.text) && target.Some? {
          LastContinued(a, owners, front, last, head.value, Fusion(target.value, last.text));
        }
      }
    } else {
      NothingContinued(a, owners);
    }
  }

  // ----- the texts of a row ----------------------------------------------------

  /** The columns the first `i` cells take among the texts of a row: one at least. */
  function WidthOf(row: seq<Cell>, i: nat): nat
    requires i <= |row|
  {
    if i == 0 then 0 else WidthOf(row, i - 1) + Max(1, row[i - 1].colspan)
  }

  lemma {:induction false} WidthOfFront(row: seq<Cell>, i: nat)
    requires row != [] && i < |row|
    ensures WidthOf(row[..|row| - 1], i) == WidthOf(row, i)
  {
    if i > 0 {
      WidthOfFront(row, i - 1);
    }
  }

  /** Each cell's text stands in the first of its columns; the others hold none. */
  lemma {:induction false} ExpandedExactly(rec: Recognisers, row: seq<Cell>, i: nat, w: nat)
    requires i < |row| && WidthOf(row, i) <= w < WidthOf(row, i + 1)
    ensures |Expanded(rec, row)| == WidthOf(row, |row|)
    ensures w < |Expanded(rec, row)|
        && Expanded(rec, row)[w] == if w == WidthOf(row, i) then Some(rec.plain(row[i].text)) else None
  {
    var n := |row| - 1;
    var front := row[..n];
    WidthOfFront(row, i);
    ExpandedWidth(rec, front);
    WidthOfFront(row, n);
    if i < n {
      WidthOfFront(row, i + 1);
      ExpandedExactly(rec, front, i, w);
    }
  }

  lemma {:induction false} ExpandedWidth(rec: Recognisers, row: seq<Cell>)
    ensures |Expanded(rec, row)| == WidthOf(row, |row|)
  {
    if row != [] {
      ExpandedWidth(rec, row[..|row| - 1]);
      WidthOfFront(row, |row| - 1);
    }
  }

  // ----- the merged table ------------------------------------------------------

  /** What the lead row adds to the text of cell `id`: a line break and the text
      of each lead cell that continues it, left to right. */
  ghost function TailOf(a: Rows, owners: seq<Owners>, lead: seq<Cell>, id: Id): string {
    if lead == [] then ""
    else
      var n := |lead| - 1;
      TailOf(a, owners, lead[..n], id)
      + if HasInk(lead[n].text) && LastTextOf(a, owners, ColumnOf(lead, n), id) then "\n" + lead[n].text else ""
  }

  lemma {:induction false} PlanAppendsTails(a: Rows, owners: seq<Owners>, lead: seq<Cell>, id: Id)
    requires |owners| == |a| && Plan(a, owners, lead).Some?
    ensures Appended(Plan(a, owners, lead).value, id) == TailOf(a, owners, lead, id)
  {
    hide LastTextOf, NoTextOf, HasInk, OwnsText, LastOwner;
    if lead != [] {
      var n := |lead| - 1;
      var front, last := lead[..n], lead[n];
      PlanAppendsTails(a, owners, front, id);
      var w, plan := ColspanSum(front), Plan(a, owners, lead).value;
      InkIsNotBlank(last.text);
      if HasInk(last.text) {
        ScanFinds(a, owners, w);
        var target := LastOwner(a, owners, w, |a|).value;
        assert plan[..|plan| - 1] == Plan(a, owners, front).value;
        if LastTextOf(a, owners, w, id) {
          OneLastText(a, owners, w, id, target);
        }
      }
    }
  }

  /** No lead cell from `i` on continues cell `id`. */
  ghost predicate DoneFrom(a: Rows, owners: seq<Owners>, lead: seq<Cell>, i: nat, id: Id) {
    forall j: nat :: i <= j < |lead| && HasInk(lead[j].text) ==> !LastTextOf(a, owners, ColumnOf(lead, j), id)
  }

  lemma {:induction false} TailGrows(a: Rows, owners: seq<Owners>, lead: seq<Cell>, i: nat, id: Id)
    requires i <= |lead|
    ensures TailOf(a, owners, lead[..i], id) <= TailOf(a, owners, lead, id)
    ensures DoneFrom(a, owners, lead, i, id) ==> TailOf(a, owners, lead[..i], id) == TailOf(a, owners, lead, id)
  {
    hide LastTextOf, HasInk, ColumnOf;
    if i == |lead| {
      assert lead[..i] == lead;
    } else {
      var n := |lead| - 1;
      var front := lead[..n];
      assert front[..i] == lead[..i];
      TailGrows(a, owners, front, i, id);
      ColumnsOfFront(lead);
    }
  }

  lemma ColumnsOfFront(lead: seq<Cell>)
    requires lead != []
    ensures forall j: nat :: j < |lead| ==> ColumnOf(lead[..|lead| - 1], j) == ColumnOf(lead, j)
  {
    forall j: nat | j < |lead|
      ensures ColumnOf(lead[..|lead| - 1], j) == ColumnOf(lead, j)
    {
      assert lead[..|lead| - 1][..j] == lead[..j];
    }
  }

  /** Each lead text stands in the tail of the cell it continues, behind those to
      its left, and ends it where no cell to its right continues the same one. */
  lemma TailHolds(a: Rows, owners: seq<Owners>, lead: seq<Cell>, i: nat, id: Id)
    requires i < |lead| && HasInk(lead[i].text) && LastTextOf(a, owners, ColumnOf(lead, i), id)
    ensures TailOf(a, owners, lead[..i], id) + "\n" + lead[i].text <= TailOf(a, owners, lead, id)
    ensures DoneFrom(a, owners, lead, i + 1, id) ==>
              TailOf(a, owners, lead, id) == TailOf(a, owners, lead[..i], id) + "\n" + lead[i].text
  {
    hide LastTextOf, HasInk, DoneFrom;
    assert lead[..i + 1][..i] == lead[..i];
    assert TailOf(a, owners, lead[..i + 1], id) == TailOf(a, owners, lead[..i], id) + ("\n" + lead[i].text);
    TailGrows(a, owners, lead, i + 1, id);
  }

  /** Some row of the table is no header. */
  ghost predicate HasData(rec: Recognisers, a: Rows) { exists r :: 0 <= r < |a| && !rec.header(Expanded(rec, a[r])) }

  /** The row's first cell is empty and a later one is not. */
  ghost predicate Wrapped(rec: Recognisers, lead: seq<Cell>) {
    && lead != [] && !HasInk(rec.plain(lead[0].text))
    && exists i :: 1 <= i < |lead| && HasInk(rec.plain(lead[i].text))
  }

  lemma {:induction false} WrappedIsTail(rec: Recognisers, lead: seq<Cell>)
    ensures IsTail(rec, lead) <==> Wrapped(rec, lead)
  {
    hide Blank, HasInk, Expanded;
    if lead != [] {
      var texts := Expanded(rec, lead);
      ExpandedExactly(rec, lead, 0, 0);
      InkIsNotBlank(rec.plain(lead[0].text));
      if Wrapped(rec, lead) {
        var i :| 1 <= i < |lead| && HasInk(rec.plain(lead[i].text));
        ExpandedExactly(rec, lead, i, WidthOf(lead, i));
        WidthGrows(lead, 1, i);
        InkIsNotBlank(rec.plain(lead[i].text));
        assert texts[WidthOf(lead, i)].Some?;
      }
      if w :| 1 <= w < |texts| && texts[w].Some? && !Blank(texts[w].value) {
        var i := CellOver(rec, lead, w);
        ExpandedExactly(rec, lead, i, w);
        InkIsNotBlank(rec.plain(lead[i].text));
      }
    } else {
      EmptyExpanded(rec);
    }
  }

  lemma EmptyExpanded(rec: Recognisers)
    ensures Expanded(rec, []) == []
  {
  }

  lemma {:induction false} WidthGrows(row: seq<Cell>, i: nat, j: nat)
    requires i <= j <= |row|
    ensures WidthOf(row, i) + (j - i) <= WidthOf(row, j)
  {
    if i < j {
      WidthGrows(row, i, j - 1);
    }
  }

  /** The cell that takes column `w`. */
  lemma {:induction false} CellOver(rec: Recognisers, row: seq<Cell>, w: nat) returns (i: nat)
    requires w < |Expanded(rec, row)|
    ensures i < |row| && WidthOf(row, i) <= w < WidthOf(row, i + 1)
  {
    ExpandedWidth(rec, row);
    hide Expanded;
    i := |row| - 1;
    while w < WidthOf(row, i)
      invariant i < |row| && w < WidthOf(row, i + 1)
    {
      i := i - 1;
    }
  }

  /** The lead row is fused: the table has data, the row is wrapped, and each of its
      texts has one to continue. */
  ghost predicate Fuses(rec: Recognisers, a: Rows, b: Rows) {
    var body := Body(rec, a, b);
    body != [] && HasData(rec, a) && Wrapped(rec, body[0]) && !Homeless(a, OwnersOf(a), body[0])
  }

  lemma LeadIsPlanned(rec: Recognisers, a: Rows, b: Rows)
    ensures LeadPlan(rec, a, b).Some? <==> Fuses(rec, a, b)
    ensures Fuses(rec, a, b) ==> LeadPlan(rec, a, b) == Plan(a, OwnersOf(a), Body(rec, a, b)[0])
  {
    hide OwnersOf, IsTail, Plan, Homeless, Body, Wrapped;
    var body := Body(rec, a, b);
    if body != [] {
      PlanContinues(a, OwnersOf(a), body[0]);
      WrappedIsTail(rec, body[0]);
    }
  }

  /** What a merge yields.  Behind the repeated header, expanded where the table has
      data, a lead row that is fused gives each cell of the table its tail and stands
      nowhere else; any other stands as a row. */
  lemma MergeOutcome(rec: Recognisers, a: Rows, b: Rows)
    requires TryMerge(rec, a, b).Some?
    ensures var m, rest := TryMerge(rec, a, b).value, b[Repeated(rec, a, b, 0)..];
            var body := if rest != [] && HasData(rec, a) then ExpandLead(rest) else rest;
            && body == Body(rec, a, b)
            && if !Fuses(rec, a, b) then m == a + body
               else
                 && |m| == |a| + |body| - 1 && m[|a|..] == body[1..]
                 && (forall r :: 0 <= r < |a| ==> |m[r]| == |a[r]|)
                 && (forall r, c :: 0 <= r < |a| && 0 <= c < |a[r]| ==>
                       m[r][c] == a[r][c].(text := a[r][c].text + TailOf(a, OwnersOf(a), body[0], (r, c))))
  {
    hide OwnersOf, OpensNewTable, Plan, StructWidth, Repeated, ExpandLead, LeadPlan, TailOf, Fuses, Body, FuseAll;
    var body, owners := Body(rec, a, b), OwnersOf(a);
    LeadIsPlanned(rec, a, b);
    BodyIs(rec, a, b);
    if Fuses(rec, a, b) {
      var plan := LeadPlan(rec, a, b).value;
      FusesSome(rec, a, b);
      forall r, c | 0 <= r < |a| && 0 <= c < |a[r]|
        ensures FuseAll(a, plan)[r][c] == a[r][c].(text := a[r][c].text + TailOf(a, owners, body[0], (r, c)))
      {
        FuseAllAppends(a, plan, r, c);
        PlanAppendsTails(a, owners, body[0], (r, c));
      }
    }
  }

  lemma BodyIs(rec: Recognisers, a: Rows, b: Rows)
    ensures var rest := b[Repeated(rec, a, b, 0)..];
            Body(rec, a, b) == if rest != [] && HasData(rec, a) then ExpandLead(rest) else rest
  {
    hide Repeated, ExpandLead, Expanded;
  }

  lemma FusesSome(rec: Recognisers, a: Rows, b: Rows)
    requires Fuses(rec, a, b)
    ensures Body(rec, a, b) != []
  {
    hide Body;
  }

  /** Lead cell `i`'s text stands in cell `id` of the merged table, behind what the
      cell held and the lead texts to the left; it ends the cell where no lead
      cell to the right continues the same one. */
  ghost predicate Lands(a: Rows, owners: seq<Owners>, lead: seq<Cell>, i: nat, m: Rows, id: Id)
    requires i < |lead|
  {
    && id.0 < |a| && id.1 < |a[id.0]| && id.0 < |m| && id.1 < |m[id.0]|
    && var sofar, text := a[id.0][id.1].text + TailOf(a, owners, lead[..i], id), m[id.0][id.1].text;
    && sofar + "\n" + lead[i].text <= text
    && (DoneFrom(a, owners, lead, i + 1, id) ==> text == sofar + "\n" + lead[i].text)
  }

  lemma GluedInFront(front: string, x: string, y: string, z: string)
    requires x + y <= z
    ensures front + x + y <= front + z && (x + y == z ==> front + x + y == front + z)
  {
    assert front + x + y == front + (x + y);
    assert (front + z)[..|front + x + y|] == front + z[..|x + y|];
  }

  lemma OneLands(a: Rows, owners: seq<Owners>, lead: seq<Cell>, i: nat, m: Rows, id: Id)
    requires i < |lead| && HasInk(lead[i].text) && LastTextOf(a, owners, ColumnOf(lead, i), id)
    requires id.0 < |a| && id.1 < |a[id.0]| && id.0 < |m| && id.1 < |m[id.0]|
    requires m[id.0][id.1].text == a[id.0][id.1].text + TailOf(a, owners, lead, id)
    ensures Lands(a, owners, lead, i, m, id)
  {
    hide HasInk, LastTextOf, DoneFrom, TailOf, ColumnOf;
    TailHolds(a, owners, lead, i, id);
    var t, front, tail := a[id.0][id.1].text, TailOf(a, owners, lead[..i], id), TailOf(a, owners, lead, id);
    var piece := "\n" + lead[i].text;
    GluedInFront(t, front, piece, tail);
    assert t + front + "\n" + lead[i].text == t + front + piece;
    assert front + "\n" + lead[i].text == front + piece;
  }

  /** Every text of a fused lead row lands in the cell its column's text ended in. */
  lemma LeadTextLands(rec: Recognisers, a: Rows, b: Rows, i: nat)
    requires TryMerge(rec, a, b).Some? && Fuses(rec, a, b)
    requires i < |Body(rec, a, b)[0]| && HasInk(Body(rec, a, b)[0][i].text)
    ensures var m, owners, lead := TryMerge(rec, a, b).value, OwnersOf(a), Body(rec, a, b)[0];
            exists id: Id :: LastTextOf(a, owners, ColumnOf(lead, i), id) && Lands(a, owners, lead, i, m, id)
  {
    hide OwnersOf, Body, TryMerge, HasInk, TailOf, HasData, Wrapped, LastTextOf, NoTextOf, Lands;
    hide TextCells, ColumnOf, Repeated, ExpandLead;
    var owners, lead := OwnersOf(a), Body(rec, a, b)[0];
    var m: Rows, w := TryMerge(rec, a, b).value, ColumnOf(lead, i);
    MergeOutcome(rec, a, b);
    ScanFinds(a, owners, w);
    assert LastOwner(a, owners, w, |owners|).Some? by { assert i in TextCells(lead); }
    var id := LastOwner(a, owners, w, |owners|).value;
    assert id == (id.0, id.1);
    OneLands(a, owners, lead, i, m, id);
  }

  // ----- the fragment's own lead row -------------------------------------------

  lemma {:induction false} LeadStays(body: Rows, inserts: seq<Insert>)
    requires body != [] && forall i :: 0 <= i < |inserts| ==> inserts[i].row > 0
    ensures InsertAll(body, inserts)[0] == body[0]
  {
    hide InsertInRow;
    if inserts != [] {
      LeadStays(body, inserts[..|inserts| - 1]);
    }
  }

  lemma {:induction false} BelowTheLead(k: nat, rowspan: nat, col: nat, colspan: nat)
    requires k > 0
    ensures forall i :: 0 <= i < |RowsBelow(k, rowspan, col, colspan)| ==>
              RowsBelow(k, rowspan, col, colspan)[i].row > 0
    decreases rowspan - k
  {
    if k < rowspan {
      BelowTheLead(k + 1, rowspan, col, colspan);
    }
  }

  lemma {:induction false} InsertsBelow(lead: seq<Cell>)
    ensures forall i :: 0 <= i < |Inserts(lead)| ==> Inserts(lead)[i].row > 0
  {
    if lead != [] {
      var n := |lead| - 1;
      InsertsBelow(lead[..n]);
      BelowTheLead(1, lead[n].rowspan, ColspanSum(lead[..n]), lead[n].colspan);
    }
  }

  /** Expanded, the lead row holds the same cells, none of them over a second row. */
  lemma LeadIsLowered(body: Rows)
    requires body != []
    ensures |ExpandLead(body)[0]| == |body[0]|
    ensures forall i :: 0 <= i < |body[0]| ==>
              ExpandLead(body)[0][i] == body[0][i].(rowspan := Min(1, body[0][i].rowspan))
  {
    hide InsertAll, Inserts;
    InsertsBelow(body[0]);
    LeadStays(body[0 := LoweredRow(body[0])], Inserts(body[0]));
  }

  // ----- which fragments are refused -------------------------------------------

  /** The texts of a row that show something, left to right. */
  ghost function Visible(rec: Recognisers, row: seq<Cell>): seq<string> {
    if row == [] then []
    else
      var text := rec.plain(row[|row| - 1].text);
      Visible(rec, row[..|row| - 1]) + if HasInk(text) then [text] else []
  }

  lemma {:induction false} ShownConcat(a: seq<Option<string>>, b: seq<Option<string>>)
    ensures Shown(a + b) == Shown(a) + Shown(b)
  {
    hide Blank;
    if b == [] {
      assert a + b == a;
    } else {
      ShownConcat(a, b[..|b| - 1]);
      assert (a + b)[..|a + b| - 1] == a + b[..|b| - 1];
    }
  }

  lemma {:induction false} NoneShown(n: nat)
    ensures Shown(seq(n, _ => None)) == []
  {
    if n > 0 {
      NoneShown(n - 1);
      assert seq(n, _ => None)[..n - 1] == seq<Option<string>>(n - 1, _ => None);
    }
  }

  lemma {:induction false} ShownIsVisible(rec: Recognisers, row: seq<Cell>)
    ensures Shown(Expanded(rec, row)) == Visible(rec, row)
  {
    hide Blank, HasInk;
    if row != [] {
      var c := row[|row| - 1];
      var front, text := Expanded(rec, row[..|row| - 1]), rec.plain(c.text);
      ShownIsVisible(rec, row[..|row| - 1]);
      InkIsNotBlank(text);
      ShownConcat(front, [Some(text)]);
      assert [Some(text)][..0] == [];
      if c.colspan > 1 {
        ShownConcat(front + [Some(text)], seq(c.colspan - 1, _ => None));
        NoneShown(c.colspan - 1);
      } else {
        assert front + [Some(text)] + [] == front + [Some(text)];
      }
    }
  }

  /** A numbering row: some text, and all of it "(1)" and the like. */
  ghost predicate Numbering(rec: Recognisers, row: seq<Cell>) {
    Visible(rec, row) != [] && forall i :: 0 <= i < |Visible(rec, row)| ==> rec.number(Visible(rec, row)[i])
  }

  /** The row is a header, and no numbering row that the table still lacks. */
  ghost predicate OwnHeader(rec: Recognisers, a: Rows, row: seq<Cell>) {
    && Visible(rec, row) != [] && rec.header(Lifted(Visible(rec, row)))
    && (Numbering(rec, row) ==> exists r :: 0 <= r < |a| && Numbering(rec, a[r]))
  }

  /** A fragment is refused when one of the two is empty, their widths differ, or
      the table has data and the fragment opens a header of its own. */
  lemma MergeRefused(rec: Recognisers, a: Rows, b: Rows)
    ensures TryMerge(rec, a, b).None? <==>
            || a == [] || b == [] || ColspanSum(a[0]) != ColspanSum(b[0])
            || (var rest := b[Repeated(rec, a, b, 0)..];
                rest != [] && HasData(rec, a) && OwnHeader(rec, a, rest[0]))
  {
    hide Repeated, Visible, Shown, Expanded, Lifted, Plan, FuseAll, LeadPlan, Body, ColspanSum;
    var rest := b[Repeated(rec, a, b, 0)..];
    forall row
      ensures Shown(Expanded(rec, row)) == Visible(rec, row)
    {
      ShownIsVisible(rec, row);
    }
  }
}

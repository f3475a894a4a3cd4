/** The merge as the builder runs it: on cell objects it edits in place. */
module FragmentTables {
  import opened Common
  import opened Tables
  import opened FragmentMerge

  class CellNode {
    var text: string
    const colspan: nat
    var rowspan: nat

    constructor (text: string, colspan: nat, rowspan: nat)
      ensures Value() == Cell(text, colspan, rowspan)
    {
      this.text, this.colspan, this.rowspan := text, colspan, rowspan;
    }

    function Value(): Cell
      reads this
    {
      Cell(text, colspan, rowspan)
    }
  }

  type Nodes = seq<seq<CellNode>>

  ghost function CellsOf(rows: Nodes): set<CellNode> {
    set r, i | 0 <= r < |rows| && 0 <= i < |rows[r]| :: rows[r][i]
  }

  /** No cell object stands in two places. */
  ghost predicate Distinct(rows: Nodes) {
    forall r, i, s, j ::
      0 <= r < |rows| && 0 <= i < |rows[r]| && 0 <= s < |rows| && 0 <= j < |rows[s]| && rows[r][i] == rows[s][j]
      ==> r == s && i == j
  }

  function RowValue(row: seq<CellNode>): (r: seq<Cell>)
    reads row
    ensures |r| == |row| && forall i :: 0 <= i < |row| ==> r[i] == row[i].Value()
  {
    seq(|row|, i requires 0 <= i < |row| reads row => row[i].Value())
  }

  function RowsValue(rows: Nodes): (v: Rows)
    reads CellsOf(rows)
    ensures |v| == |rows| && forall r :: 0 <= r < |rows| ==> |v[r]| == |rows[r]|
    ensures forall r, i :: 0 <= r < |rows| && 0 <= i < |rows[r]| ==> v[r][i] == rows[r][i].Value()
  {
    if rows == [] then []
    else
      var front, last := rows[..|rows| - 1], rows[|rows| - 1];
      assert CellsOf(front) <= CellsOf(rows);
      assert forall i :: 0 <= i < |last| ==> last[i] in CellsOf(rows);
      RowsValue(front) + [RowValue(last)]
  }

  /** A table's rows are determined by its cells' values. */
  lemma SameValues(rows: Nodes, v: Rows)
    requires |v| == |rows| && forall r :: 0 <= r < |rows| ==> |v[r]| == |rows[r]|
    requires forall r, i :: 0 <= r < |rows| && 0 <= i < |rows[r]| ==> v[r][i] == rows[r][i].Value()
    ensures RowsValue(rows) == v
  {
    var w := RowsValue(rows);
    forall r | 0 <= r < |rows|
      ensures w[r] == v[r]
    {
      assert forall i :: 0 <= i < |rows[r]| ==> w[r][i] == v[r][i];
    }
  }

  /** `target["text"] = target["text"] + "\n" + text`. */
  method FuseInto(rows: Nodes, id: Id, text: string)
    requires Distinct(rows) && id.0 < |rows| && id.1 < |rows[id.0]|
    modifies rows[id.0][id.1]
    ensures RowsValue(rows) == Fuse(old(RowsValue(rows)), id, text)
  {
    var target := rows[id.0][id.1];
    ghost var v := RowsValue(rows);
    target.text := target.text + "\n" + text;
    ghost var fused := Fuse(v, id, text);
    forall r | 0 <= r < |rows|
      ensures RowsValue(rows)[r] == fused[r]
    {
      assert forall i :: 0 <= i < |rows[r]| ==> RowsValue(rows)[r][i] == fused[r][i];
    }
  }

  method FuseNodes(rows: Nodes, plan: seq<Fusion>)
    requires Distinct(rows)
    requires forall f :: f in plan ==> f.target.0 < |rows| && f.target.1 < |rows[f.target.0]|
    modifies CellsOf(rows)
    ensures RowsValue(rows) == FuseAll(old(RowsValue(rows)), plan)
  {
    ghost var v := RowsValue(rows);
    for n := 0 to |plan|
      invariant forall f :: f in plan[..n] ==> f.target.0 < |v| && f.target.1 < |v[f.target.0]|
      invariant RowsValue(rows) == FuseAll(v, plan[..n])
    {
      assert plan[n] in plan;
      assert rows[plan[n].target.0][plan[n].target.1] in CellsOf(rows);
      FuseInto(rows, plan[n].target, plan[n].text);
      assert plan[..n + 1][..n] == plan[..n];
    }
    assert plan[..|plan|] == plan;
  }

  method BelowLead(inserts0: seq<Insert>, rowspan: nat, pos: nat, colspan: nat) returns (inserts: seq<Insert>)
    ensures inserts == inserts0 + RowsBelow(1, rowspan, pos, colspan)
  {
    inserts := inserts0;
    var k := 1;
    while k < rowspan
      invariant 1 <= k
      invariant inserts + RowsBelow(k, rowspan, pos, colspan) == inserts0 + RowsBelow(1, rowspan, pos, colspan)
    {
      inserts := inserts + [Insert(k, pos, colspan)];
      k := k + 1;
    }
  }

  method FindIndex(row: seq<CellNode>, col: nat) returns (idx: nat)
    ensures idx == IndexFor(RowValue(row), col, 0, 0)
  {
    var run: nat := 0;
    idx := 0;
    while idx < |row| && run < col
      invariant idx <= |row|
      invariant IndexFor(RowValue(row), col, 0, 0) == IndexFor(RowValue(row), col, idx, run)
    {
      run, idx := run + row[idx].colspan, idx + 1;
    }
  }

  /** The first loop of `_expand_lead_rowspans`. */
  method LowerLead(lead: seq<CellNode>) returns (inserts: seq<Insert>)
    requires forall i, j :: 0 <= i < j < |lead| ==> lead[i] != lead[j]
    modifies lead
    ensures inserts == Inserts(old(RowValue(lead)))
    ensures RowValue(lead) == LoweredRow(old(RowValue(lead)))
  {
    hide Inserts, ColspanSum, RowsBelow;
    inserts := [];
    var pos := 0;
    ghost var v := RowValue(lead);
    NoInserts(v);
    for i := 0 to |lead|
      invariant inserts == Inserts(v[..i]) && pos == ColspanSum(v[..i])
      invariant forall j :: 0 <= j < |lead| ==> lead[j].Value() == if j < i then Lowered(v[j]) else v[j]
    {
      var c := lead[i];
      InsertsOneMore(v, i);
      if c.rowspan > 1 {
        inserts := BelowLead(inserts, c.rowspan, pos, c.colspan);
        c.rowspan := 1;
      }
      pos := pos + c.colspan;
    }
    assert v[..|lead|] == v;
  }

  lemma NoInserts(v: seq<Cell>)
    ensures Inserts(v[..0]) == [] && ColspanSum(v[..0]) == 0
  {
  }

  lemma InsertsOneMore(v: seq<Cell>, i: nat)
    requires i < |v|
    ensures Inserts(v[..i + 1]) == Inserts(v[..i]) + RowsBelow(1, v[i].rowspan, ColspanSum(v[..i]), v[i].colspan)
    ensures ColspanSum(v[..i + 1]) == ColspanSum(v[..i]) + v[i].colspan
    ensures v[i].rowspan <= 1 ==> RowsBelow(1, v[i].rowspan, ColspanSum(v[..i]), v[i].colspan) == []
  {
    assert v[..i + 1][..i] == v[..i];
  }

  function InsertNode(row: seq<CellNode>, idx: nat, node: CellNode): seq<CellNode>
    requires idx <= |row|
  {
    row[..idx] + [node] + row[idx..]
  }

  lemma InsertKeepsDistinct(rows: Nodes, k: nat, idx: nat, node: CellNode)
    requires Distinct(rows) && k < |rows| && idx <= |rows[k]| && node !in CellsOf(rows)
    ensures Distinct(rows[k := InsertNode(rows[k], idx, node)])
    ensures CellsOf(rows[k := InsertNode(rows[k], idx, node)]) <= CellsOf(rows) + {node}
  {
    var next := rows[k := InsertNode(rows[k], idx, node)];
    forall r, i | 0 <= r < |next| && 0 <= i < |next[r]|
      ensures next[r][i] == if r != k || i < idx then rows[r][i] else if i == idx then node else rows[r][i - 1]
    {}
    forall r, i, s, j | 0 <= r < |next| && 0 <= i < |next[r]| && 0 <= s < |next| && 0 <= j < |next[s]|
                        && next[r][i] == next[s][j]
      ensures r == s && i == j
    {
      assert forall x, y :: 0 <= x < |rows| && 0 <= y < |rows[x]| ==> rows[x][y] != node;
    }
  }

  lemma InsertValue(rows: Nodes, skip: nat, ins: Insert, node: CellNode)
    requires skip + ins.row < |rows| && node.Value() == Cell("", ins.colspan, 1)
    ensures var k := skip + ins.row;
            var idx := IndexFor(RowValue(rows[k]), ins.col, 0, 0);
            var next := rows[k := InsertNode(rows[k], idx, node)];
            RowsValue(next[skip..]) == InsertOne(RowsValue(rows[skip..]), ins)
  {
    var k := skip + ins.row;
    var row := RowValue(rows[k]);
    var idx := IndexFor(row, ins.col, 0, 0);
    var next := rows[k := InsertNode(rows[k], idx, node)];
    var v, w := RowsValue(rows[skip..]), RowsValue(next[skip..]);
    assert v[ins.row] == row;
    forall r | 0 <= r < |v|
      ensures w[r] == InsertOne(v, ins)[r]
    {
      assert rows[skip..][r] == rows[skip + r] && next[skip..][r] == next[skip + r];
    }
  }

  /** The rows with one blank cell more. */
  method Inserted(rows: Nodes, skip: nat, ins: Insert) returns (next: Nodes)
    requires Distinct(rows) && skip + ins.row < |rows|
    ensures |next| == |rows| && Distinct(next) && next[..skip] == rows[..skip]
    ensures RowsValue(next[skip..]) == InsertOne(old(RowsValue(rows[skip..])), ins)
    ensures fresh(CellsOf(next) - CellsOf(rows))
  {
    hide Distinct, IndexFor, InsertOne, InsertNode;
    var k := skip + ins.row;
    ghost var v := RowsValue(rows[skip..]);
    var idx := FindIndex(rows[k], ins.col);
    var blank := new CellNode("", ins.colspan, 1);
    assert blank !in CellsOf(rows);
    SameValues(rows[skip..], v);
    hide CellsOf;
    InsertKeepsDistinct(rows, k, idx, blank);
    InsertValue(rows, skip, ins, blank);
    next := rows[k := InsertNode(rows[k], idx, blank)];
  }

  class Table {
    var rows: Nodes

    constructor (rows: Nodes)
      ensures this.rows == rows
    {
      this.rows := rows;
    }

    /** `row.insert(idx, blank)`. */
    method InsertBlank(skip: nat, ins: Insert)
      requires Distinct(rows) && skip + ins.row < |rows|
      modifies this`rows
      ensures |rows| == old(|rows|) && Distinct(rows)
      ensures rows[..skip] == old(rows[..skip])
      ensures RowsValue(rows[skip..]) == InsertOne(old(RowsValue(rows[skip..])), ins)
      ensures fresh(CellsOf(rows) - old(CellsOf(rows)))
    {
      hide Distinct, InsertOne, CellsOf;
      var next := Inserted(rows, skip, ins);
      ghost var w := RowsValue(next[skip..]);
      rows := next;
      SameValues(next[skip..], w);
    }

    /** Every insertion, on the rows from `skip` on. */
    method InsertBlanks(skip: nat, inserts: seq<Insert>)
      requires skip <= |rows| && Distinct(rows)
      modifies this`rows
      ensures |rows| == old(|rows|) && Distinct(rows)
      ensures rows[..skip] == old(rows[..skip])
      ensures RowsValue(rows[skip..]) == InsertAll(old(RowsValue(rows[skip..])), inserts)
      ensures fresh(CellsOf(rows) - old(CellsOf(rows)))
    {
      hide Distinct, InsertOne;
      ghost var v := RowsValue(rows[skip..]);
      for n := 0 to |inserts|
        invariant |rows| == old(|rows|) && Distinct(rows)
        invariant rows[..skip] == old(rows[..skip])
        invariant RowsValue(rows[skip..]) == InsertAll(v, inserts[..n])
        invariant fresh(CellsOf(rows) - old(CellsOf(rows)))
      {
        assert inserts[..n + 1][..n] == inserts[..n];
        if skip + inserts[n].row < |rows| {
          InsertBlank(skip, inserts[n]);
        } else {
          OutOfRange(RowsValue(rows[skip..]), inserts[n]);
        }
      }
      assert inserts[..|inserts|] == inserts;
    }
  }

  /** Lead cells lowered in place, then their coverage inserted below. */
  method ExpandLeadRowspans(t: Table, skip: nat)
    requires skip < |t.rows| && Distinct(t.rows)
    modifies t`rows, CellsOf(t.rows)
    ensures |t.rows| == old(|t.rows|) && Distinct(t.rows) && t.rows[..skip] == old(t.rows[..skip])
    ensures RowsValue(t.rows[skip..]) == ExpandLead(old(RowsValue(t.rows[skip..])))
    ensures fresh(CellsOf(t.rows) - old(CellsOf(t.rows)))
    ensures forall c :: c in old(CellsOf(t.rows)) ==> c.text == old(c.text)
    ensures forall c :: c in old(CellsOf(t.rows)) && c !in old(t.rows[skip]) ==> c.rowspan == old(c.rowspan)
  {
    hide InsertAll, Inserts, LoweredRow;
    ghost var v := RowsValue(t.rows[skip..]);
    var lead := t.rows[skip];
    assert v[0] == RowValue(lead);
    assert forall i :: 0 <= i < |lead| ==> lead[i] in CellsOf(t.rows);
    var inserts := LowerLead(lead);
    SameValues(t.rows[skip..], v[0 := LoweredRow(v[0])]);
    t.InsertBlanks(skip, inserts);
  }

  lemma OutOfRange(body: Rows, ins: Insert)
    requires ins.row >= |body|
    ensures InsertOne(body, ins) == body
  {}

  lemma ValuesConcat(a: Nodes, b: Nodes)
    ensures RowsValue(a + b) == RowsValue(a) + RowsValue(b)
  {
    SameValues(a + b, RowsValue(a) + RowsValue(b));
  }

  method CountRepeated(rec: Recognisers, a: Rows, b: Rows) returns (skip: nat)
    ensures skip == Repeated(rec, a, b, 0) && skip <= |b|
  {
    hide IsHeader, Expanded;
    skip := 0;
    while skip < |a| && skip < |b| && IsHeader(rec, b[skip]) && Expanded(rec, a[skip]) == Expanded(rec, b[skip])
      invariant skip <= |a| && skip <= |b|
      invariant Repeated(rec, a, b, 0) == Repeated(rec, a, b, skip)
    {
      skip := skip + 1;
    }
  }

  /** The fusion plan of a lead row, cell by cell. */
  method MakePlan(a: Rows, lead: seq<Cell>) returns (plan: Option<seq<Fusion>>)
    ensures plan == Plan(a, OwnersOf(a), lead)
  {
    hide LastOwner, OwnersOf;
    var _, owners := StructOwners(a);
    var made: seq<Fusion>, w: nat := [], 0;
    for i := 0 to |lead|
      invariant Plan(a, owners, lead[..i]) == Some(made) && w == ColspanSum(lead[..i])
    {
      assert lead[..i + 1][..i] == lead[..i];
      if !Blank(lead[i].text) {
        var target := LastOwner(a, owners, w, |a|);
        if target.None? {
          PlanStaysNone(a, owners, lead, i + 1);
          return None;
        }
        made := made + [Fusion(target.value, lead[i].text)];
      }
      w := w + lead[i].colspan;
    }
    assert lead[..|lead|] == lead;
    plan := Some(made);
  }

  lemma {:induction false} PlanStaysNone(a: Rows, owners: seq<Owners>, lead: seq<Cell>, n: nat)
    requires |owners| == |a| && n <= |lead| && Plan(a, owners, lead[..n]).None?
    ensures Plan(a, owners, lead).None?
  {
    if n < |lead| {
      assert lead[..|lead| - 1][..n] == lead[..n];
      PlanStaysNone(a, owners, lead[..|lead| - 1], n);
    } else {
      assert lead[..n] == lead;
    }
  }

  /** The fragment's rows after its repeated header, expanded where they continue
      a table that has data. */
  method TakeBody(b: Table, skip: nat, hasData: bool) returns (body: Nodes)
    requires skip <= |b.rows| && Distinct(b.rows) && (hasData ==> skip < |b.rows|)
    modifies b`rows, CellsOf(b.rows)
    ensures RowsValue(body) ==
            if hasData then ExpandLead(old(RowsValue(b.rows[skip..]))) else old(RowsValue(b.rows[skip..]))
    ensures fresh(CellsOf(body) - old(CellsOf(b.rows)))
  {
    hide ExpandLead, Distinct;
    if hasData {
      ExpandLeadRowspans(b, skip);
    }
    body := b.rows[skip..];
    assert CellsOf(body) <= CellsOf(b.rows);
  }

  /** Fuse the lead row's texts where it is a tail, else let it stand. */
  method FuseTail(rec: Recognisers, a: Nodes, body0: Nodes, hasData: bool)
    returns (body: Nodes, ghost plan: Option<seq<Fusion>>)
    requires Distinct(a) && CellsOf(a) !! CellsOf(body0) && (hasData ==> body0 != [])
    modifies CellsOf(a)
    ensures plan == if hasData && IsTail(rec, old(RowsValue(body0))[0])
                    then Plan(old(RowsValue(a)), OwnersOf(old(RowsValue(a))), old(RowsValue(body0))[0]) else None
    ensures plan.Some? ==> forall f :: f in plan.value ==> f.target.0 < |a| && f.target.1 < |a[f.target.0]|
    ensures plan.Some? ==>
              body0 != [] && RowsValue(a) == FuseAll(old(RowsValue(a)), plan.value)
                  && RowsValue(body) == old(RowsValue(body0))[1..]
    ensures plan.None? ==> RowsValue(a) == old(RowsValue(a)) && RowsValue(body) == old(RowsValue(body0))
  {
    hide IsTail, OwnersOf, Plan, FuseAll, Distinct;
    ghost var vbody := RowsValue(body0);
    body, plan := body0, None;
    if hasData && IsTail(rec, RowValue(body0[0])) {
      assert vbody[0] == RowValue(body0[0]);
      var found := MakePlan(RowsValue(a), RowValue(body0[0]));
      plan := found;
      if found.Some? {
        FuseNodes(a, found.value);
        body := body0[1..];
        assert CellsOf(body) <= CellsOf(body0);
        SameValues(body, vbody[1..]);
      }
    } else {
      assert hasData ==> vbody[0] == RowValue(body0[0]);
    }
  }

  /** `_try_merge_structs`.  On None neither table has changed; otherwise the
      merged rows are `a`'s own cells, with the lead row's texts fused in, and the
      fragment's remaining cells. */
  method TryMergeStructs(rec: Recognisers, a: Table, b: Table) returns (merged: Option<Nodes>)
    requires a != b && Distinct(a.rows) && Distinct(b.rows) && CellsOf(a.rows) !! CellsOf(b.rows)
    modifies b`rows, CellsOf(a.rows), CellsOf(b.rows)
    ensures merged.None? <==> TryMerge(rec, old(RowsValue(a.rows)), old(RowsValue(b.rows))).None?
    ensures merged.None? ==>
              b.rows == old(b.rows) && RowsValue(a.rows) == old(RowsValue(a.rows))
                  && RowsValue(b.rows) == old(RowsValue(b.rows))
    ensures merged.Some? ==>
              && TryMerge(rec, old(RowsValue(a.rows)), old(RowsValue(b.rows))) == Some(RowsValue(merged.value))
              && a.rows <= merged.value
  {
    hide OpensNewTable, HeaderOnly, IsTail, OwnersOf, ExpandLead;
    hide Plan, FuseAll, StructWidth, Distinct, Repeated, RowsValue;
    var left, right := RowsValue(a.rows), RowsValue(b.rows);
    if left == [] || right == [] || StructWidth(left) != StructWidth(right) { return None; }
    var skip := CountRepeated(rec, left, right);
    if OpensNewTable(rec, left, right[skip..]) { return None; }
    var hasData := skip < |right| && !HeaderOnly(rec, left);
    SuffixValue(b.rows, skip, right);
    ghost var cells := CellsOf(a.rows);
    var body := TakeBody(b, skip, hasData);
    assert cells !! CellsOf(body);
    SameValues(a.rows, left);
    ghost var plan;
    body, plan := FuseTail(rec, a.rows, body, hasData);
    assert plan == LeadPlan(rec, left, right);
    ValuesConcat(a.rows, body);
    merged := Some(a.rows + body);
  }

  lemma SuffixValue(rows: Nodes, skip: nat, v: Rows)
    requires skip <= |rows| && v == RowsValue(rows)
    ensures RowsValue(rows[skip..]) == v[skip..]
  {
    SameValues(rows[skip..], v[skip..]);
  }
}

/** Token voting over several readings of a page: every other reading is aligned
    onto the first by an edit script (`vote_line_tokens`). */
module Voting {
  import opened Common

  datatype Tag = Equal | Replace | Delete | Insert

  /** A step of an edit script: anchor tokens [i1, i2) against tokens [j1, j2). */
  datatype Op = Op(tag: Tag, i1: nat, i2: nat, j1: nat, j2: nat)

  datatype Reading = Reading(tokens: seq<string>, script: seq<Op>)

  /** The script walks both sequences once, left to right. */
  ghost predicate ValidScript(ops: seq<Op>, n: nat, m: nat) {
    && (forall k :: 0 <= k < |ops| ==>
          && ops[k].i1 <= ops[k].i2 <= n && ops[k].j1 <= ops[k].j2 <= m
          && (ops[k].tag.Equal? ==> ops[k].i2 - ops[k].i1 == ops[k].j2 - ops[k].j1)
          && (ops[k].tag.Insert? ==> ops[k].i1 == ops[k].i2))
    && (forall k, l :: 0 <= k < l < |ops| ==> ops[k].i2 <= ops[l].i1)
  }

  function Join(tokens: seq<string>): string {
    if tokens == [] then ""
    else if |tokens| == 1 then tokens[0]
    else tokens[0] + " " + Join(tokens[1..])
  }

  /** The op writes an entry for anchor token `k`. */
  predicate Touches(op: Op, k: nat) {
    (op.tag.Equal? || op.tag.Replace?) && op.i1 <= k < op.i2
  }

  /** What the op puts against anchor token `k`: the token opposite, or the whole
      run joined at the first anchor token and nothing at the others. */
  function Entry(o: seq<string>, op: Op, k: nat): string
    requires Touches(op, k) && op.j1 <= op.j2 <= |o|
  {
    if op.i2 - op.i1 == op.j2 - op.j1 then o[op.j1 + (k - op.i1)]
    else if k == op.i1 then Join(o[op.j1..op.j2])
    else ""
  }

  function EntryAt(o: seq<string>, ops: seq<Op>, k: nat): Option<string>
    requires forall x :: 0 <= x < |ops| ==> ops[x].j1 <= ops[x].j2 <= |o|
  {
    if ops == [] then None
    else if Touches(ops[|ops| - 1], k) then Some(Entry(o, ops[|ops| - 1], k))
    else EntryAt(o, ops[..|ops| - 1], k)
  }

  function InsertedAt(o: seq<string>, ops: seq<Op>, i: nat): seq<seq<string>>
    requires forall x :: 0 <= x < |ops| ==> ops[x].j1 <= ops[x].j2 <= |o|
  {
    if ops == [] then []
    else
      var op := ops[|ops| - 1];
      InsertedAt(o, ops[..|ops| - 1], i) + if op.tag.Insert? && op.i1 == i then [o[op.j1..op.j2]] else []
  }

  type Slot = seq<Option<string>>

  ghost predicate ValidReadings(n: nat, others: seq<Reading>) {
    forall r :: 0 <= r < |others| ==> ValidScript(others[r].script, n, |others[r].tokens|)
  }

  /** Anchor token `k` and what each other reading has against it. */
  ghost function SlotOf(anchor: seq<string>, others: seq<Reading>, k: nat): (s: Slot)
    requires ValidReadings(|anchor|, others) && k < |anchor|
    ensures |s| == |others| + 1
  {
    if others == [] then [Some(anchor[k])]
    else
      var o := others[|others| - 1];
      SlotOf(anchor, others[..|others| - 1], k) + [EntryAt(o.tokens, o.script, k)]
  }

  ghost function GapOf(n: nat, others: seq<Reading>, i: nat): seq<seq<string>>
    requires ValidReadings(n, others)
  {
    if others == [] then []
    else
      var o := others[|others| - 1];
      GapOf(n, others[..|others| - 1], i) + InsertedAt(o.tokens, o.script, i)
  }

  // ----- aligning --------------------------------------------------------------

  type Gaps = map<nat, seq<seq<string>>>

  function GapIn(gaps: Gaps, i: nat): seq<seq<string>> {
    if i in gaps then gaps[i] else []
  }

  /** Slot `k` once the first `n` ops of a reading are applied to `base`. */
  ghost predicate PartlyAligned(o: seq<string>, ops: seq<Op>, n: nat, k: nat, base: Slot, slot: Slot, seen: bool)
    requires n <= |ops| && forall x :: 0 <= x < |ops| ==> ops[x].j1 <= ops[x].j2 <= |o|
  {
    var e := EntryAt(o, ops[..n], k);
    && (seen <==> e.Some?)
    && slot == if seen then base + [e] else base
  }

  /** One op's entries: each anchor token it touches gets one. */
  method ApplyOp(n: nat, o: seq<string>, op: Op, slots0: seq<Slot>, seen0: seq<bool>)
    returns (slots: seq<Slot>, seen: seq<bool>)
    requires |slots0| == |seen0| == n && op.i1 <= op.i2 <= n && op.j1 <= op.j2 <= |o|
        && (op.tag.Equal? || op.tag.Replace?)
    ensures |slots| == |seen| == n
    ensures forall k :: 0 <= k < n ==> seen[k] == (seen0[k] || Touches(op, k))
    ensures forall k :: 0 <= k < n ==>
              slots[k] == if Touches(op, k) then slots0[k] + [Some(Entry(o, op, k))] else slots0[k]
  {
    hide Entry;
    slots, seen := slots0, seen0;
    for k := op.i1 to op.i2
      invariant |slots| == |seen| == n
      invariant forall j :: 0 <= j < n ==> seen[j] == (seen0[j] || (Touches(op, j) && j < k))
      invariant forall j :: 0 <= j < n ==>
                  slots[j] == if Touches(op, j) && j < k then slots0[j] + [Some(Entry(o, op, j))] else slots0[j]
    {
      slots := slots[k := slots[k] + [Some(Entry(o, op, k))]];
      seen := seen[k := true];
    }
  }

  method AlignOne(n: nat, o: Reading, slots0: seq<Slot>, gaps0: Gaps) returns (slots: seq<Slot>, gaps: Gaps)
    requires |slots0| == n && ValidScript(o.script, n, |o.tokens|)
    ensures |slots| == n
    ensures forall k :: 0 <= k < n ==> slots[k] == slots0[k] + [EntryAt(o.tokens, o.script, k)]
    ensures forall i: nat :: GapIn(gaps, i) == GapIn(gaps0, i) + InsertedAt(o.tokens, o.script, i)
  {
    hide EntryAt, InsertedAt, GapIn;
    var seen;
    slots, seen := AlignSlots(n, o, slots0);
    gaps := AlignGaps(n, o, gaps0);
    var ops := o.script;
    assert ops[..|ops|] == ops;
    for k := 0 to n
      invariant |slots| == n
      invariant forall j :: 0 <= j < k ==> slots[j] == slots0[j] + [EntryAt(o.tokens, ops, j)]
      invariant forall j :: k <= j < n ==> PartlyAligned(o.tokens, ops, |ops|, j, slots0[j], slots[j], seen[j])
    {
      if !seen[k] {
        slots := slots[k := slots[k] + [None]];
      }
    }
  }

  method AlignGaps(n: nat, o: Reading, gaps0: Gaps) returns (gaps: Gaps)
    requires ValidScript(o.script, n, |o.tokens|)
    ensures forall i: nat :: GapIn(gaps, i) == GapIn(gaps0, i) + InsertedAt(o.tokens, o.script, i)
  {
    hide InsertedAt, ValidScript;
    gaps := gaps0;
    var ops := o.script;
    ScriptInBounds(ops, n, |o.tokens|);
    NothingInserted(o.tokens);
    for x := 0 to |ops|
      invariant forall i: nat :: GapIn(gaps, i) == GapIn(gaps0, i) + InsertedAt(o.tokens, ops[..x], i)
    {
      var run := o.tokens[ops[x].j1..ops[x].j2];
      forall i: nat
        ensures GapIn(gaps0, i) + InsertedAt(o.tokens, ops[..x + 1], i) ==
                GapIn(gaps0, i) + InsertedAt(o.tokens, ops[..x], i)
                + if ops[x].tag.Insert? && ops[x].i1 == i then [run] else []
      {
        InsertedStep(o.tokens, ops, x, i);
      }
      if ops[x].tag.Insert? {
        gaps := gaps[ops[x].i1 := GapIn(gaps, ops[x].i1) + [run]];
      }
    }
    assert ops[..|ops|] == ops;
  }

  lemma ScriptInBounds(ops: seq<Op>, n: nat, m: nat)
    requires ValidScript(ops, n, m)
    ensures forall x :: 0 <= x < |ops| ==> ops[x].j1 <= ops[x].j2 <= m
  {}

  lemma NothingInserted(o: seq<string>)
    ensures forall i: nat :: InsertedAt(o, [], i) == []
  {}

  lemma InsertedStep(o: seq<string>, ops: seq<Op>, x: nat, i: nat)
    requires x < |ops| && forall y :: 0 <= y < |ops| ==> ops[y].j1 <= ops[y].j2 <= |o|
    ensures InsertedAt(o, ops[..x + 1], i) ==
            InsertedAt(o, ops[..x], i) + if ops[x].tag.Insert? && ops[x].i1 == i then [o[ops[x].j1..ops[x].j2]] else []
  {
    assert ops[..x + 1][..x] == ops[..x];
  }

  method AlignSlots(n: nat, o: Reading, slots0: seq<Slot>) returns (slots: seq<Slot>, seen: seq<bool>)
    requires |slots0| == n && ValidScript(o.script, n, |o.tokens|)
    ensures |slots| == |seen| == n
    ensures forall k :: 0 <= k < n ==> PartlyAligned(o.tokens, o.script, |o.script|, k, slots0[k], slots[k], seen[k])
  {
    slots := slots0;
    seen := seq(n, _ => false);
    var ops := o.script;
    for x := 0 to |ops|
      invariant |slots| == |seen| == n
      invariant forall k :: 0 <= k < n ==> PartlyAligned(o.tokens, ops, x, k, slots0[k], slots[k], seen[k])
    {
      forall k | 0 <= k < n
        ensures EntryAt(o.tokens, ops[..x + 1], k) ==
                if Touches(ops[x], k) then Some(Entry(o.tokens, ops[x], k)) else EntryAt(o.tokens, ops[..x], k)
        ensures Touches(ops[x], k) ==> EntryAt(o.tokens, ops[..x], k).None?
      {
        assert ops[..x + 1][..x] == ops[..x];
        if Touches(ops[x], k) {
          UntouchedBelow(o.tokens, ops, x, x, k, n);
        }
      }
      hide EntryAt, Entry, ValidScript;
      if ops[x].tag.Equal? || ops[x].tag.Replace? {
        slots, seen := ApplyOp(n, o.tokens, ops[x], slots, seen);
      }
    }
  }

  lemma {:induction false} UntouchedBelow(o: seq<string>, ops: seq<Op>, x: nat, y: nat, k: nat, n: nat)
    requires ValidScript(ops, n, |o|) && y <= x < |ops| && ops[x].i1 <= k < ops[x].i2
    ensures EntryAt(o, ops[..y], k).None?
  {
    if y > 0 {
      UntouchedBelow(o, ops, x, y - 1, k, n);
      assert ops[..y][..y - 1] == ops[..y - 1];
    }
  }

  // ----- balloting -------------------------------------------------------------

  function Votes(slot: Slot, text: string): nat {
    if slot == [] then 0
    else Votes(slot[..|slot| - 1], text) + if slot[|slot| - 1] == Some(text) then 1 else 0
  }

  /** The first text in `slot` with the most votes, the anchor's own preferred. */
  function Best(slot: Slot, all: Slot, own: string): (r: Option<string>)
    ensures r.Some? ==> Some(r.value) in slot
    ensures r.None? ==> forall e :: e in slot ==> e.None?
    ensures r.Some? ==> forall e :: e in slot && e.Some? ==>
              Votes(all, e.value) <= Votes(all, r.value)
              && (Votes(all, e.value) == Votes(all, r.value) && e.value == own ==> r.value == own)
  {
    if slot == [] then None
    else
      var front, e := slot[..|slot| - 1], slot[|slot| - 1];
      var best := Best(front, all, own);
      assert forall x :: x in slot ==> x in front || x == e;
      if e.None? then best
      else if best.None? then e
      else if Votes(all, e.value) > Votes(all, best.value)
              || (Votes(all, e.value) == Votes(all, best.value) && e.value == own && best.value != own) then e
      else best
  }

  function Dropped(slot: Slot): nat {
    if slot == [] then 0 else Dropped(slot[..|slot| - 1]) + if slot[|slot| - 1].None? then 1 else 0
  }

  datatype Token = Token(text: string, votes: nat, anchor: nat)

  /** Output so far, and what was outvoted where. */
  datatype Ballot = Ballot(out: seq<Token>, rejected: seq<(nat, seq<string>)>)

  function Tokens(run: seq<string>, votes: nat, anchor: nat): (r: seq<Token>)
    ensures |r| == |run| && forall k :: 0 <= k < |r| ==> r[k] == Token(run[k], votes, anchor)
  {
    seq(|run|, k requires 0 <= k < |run| => Token(run[k], votes, anchor))
  }

  function Rejections(pos: nat, runs: seq<seq<string>>): (r: seq<(nat, seq<string>)>)
    ensures |r| == |runs| && forall k :: 0 <= k < |r| ==> r[k] == (pos, runs[k])
  {
    seq(|runs|, k requires 0 <= k < |runs| => (pos, runs[k]))
  }

  /** An insertion two readings agree on is emitted; otherwise each is rejected. */
  function EmitGap(b: Ballot, gap: seq<seq<string>>, i: nat): Ballot {
    if |gap| >= 2 && gap[0] == gap[1] then b.(out := b.out + Tokens(gap[0], 2, if i == 0 then 0 else i - 1))
    else b.(rejected := b.rejected + Rejections(|b.out|, gap))
  }

  function Own(slot: Slot): string {
    if slot != [] && slot[0].Some? then slot[0].value else ""
  }

  function CastSlot(b: Ballot, slot: Slot, i: nat): Ballot {
    if Dropped(slot) >= 2 then b.(rejected := b.rejected + [(|b.out|, [Own(slot)])])
    else
      var best := Best(slot, slot, Own(slot));
      if best.None? || best.value == "" then b
      else b.(out := b.out + [Token(best.value, Votes(slot, best.value), i)])
  }

  ghost function Cast(anchor: seq<string>, others: seq<Reading>, i: nat): Ballot
    requires ValidReadings(|anchor|, others) && i <= |anchor|
  {
    if i == 0 then Ballot([], [])
    else
      CastSlot(EmitGap(Cast(anchor, others, i - 1), GapOf(|anchor|, others, i - 1), i - 1),
               SlotOf(anchor, others, i - 1), i - 1)
  }

  /** The anchor's own token heads its slot. */
  lemma {:induction false} OwnFirst(anchor: seq<string>, others: seq<Reading>, k: nat)
    requires ValidReadings(|anchor|, others) && k < |anchor|
    ensures SlotOf(anchor, others, k)[0] == Some(anchor[k])
  {
    if others != [] {
      OwnFirst(anchor, others[..|others| - 1], k);
    }
  }

  /** The voted tokens and the outvoted runs. */
  ghost function Voted(anchor: seq<string>, others: seq<Reading>): Ballot
    requires ValidReadings(|anchor|, others)
  {
    EmitGap(Cast(anchor, others, |anchor|), GapOf(|anchor|, others, |anchor|), |anchor|)
  }

  method Align(anchor: seq<string>, others: seq<Reading>) returns (slots: seq<Slot>, gaps: Gaps)
    requires ValidReadings(|anchor|, others)
    ensures |slots| == |anchor|
    ensures forall k :: 0 <= k < |anchor| ==> slots[k] == SlotOf(anchor, others, k)
    ensures forall i: nat :: GapIn(gaps, i) == GapOf(|anchor|, others, i)
  {
    hide ValidScript, EntryAt, InsertedAt, GapIn;
    slots := seq(|anchor|, k requires 0 <= k < |anchor| => [Some(anchor[k])]);
    gaps := map[];
    NoGaps();
    for r := 0 to |others|
      invariant |slots| == |anchor|
      invariant forall k :: 0 <= k < |anchor| ==> slots[k] == SlotOf(anchor, others[..r], k)
      invariant forall i: nat :: GapIn(gaps, i) == GapOf(|anchor|, others[..r], i)
    {
      assert others[..r + 1][..r] == others[..r];
      slots, gaps := AlignOne(|anchor|, others[r], slots, gaps);
    }
    assert others[..|others|] == others;
  }

  lemma NoGaps()
    ensures forall i: nat :: GapIn(map[], i) == []
  {}

  /** `vote_line_tokens`. */
  method VoteLineTokens(anchor: seq<string>, others: seq<Reading>) returns (b: Ballot)
    requires ValidReadings(|anchor|, others)
    ensures b == Voted(anchor, others)
  {
    hide ValidReadings, EmitGap, CastSlot, SlotOf, GapOf, GapIn;
    var slots, gaps := Align(anchor, others);
    b := Ballot([], []);
    for i := 0 to |anchor|
      invariant b == Cast(anchor, others, i)
    {
      b := EmitGap(b, GapIn(gaps, i), i);
      b := CastSlot(b, slots[i], i);
    }
    b := EmitGap(b, GapIn(gaps, |anchor|), |anchor|);
  }

  // ----- what voting promises --------------------------------------------------

  /** Output anchors never step back; rejections stand in order, each within the
      output written when it was made. */
  ghost predicate Orderly(b: Ballot, last: nat) {
    && (forall k, l :: 0 <= k < l < |b.out| ==> b.out[k].anchor <= b.out[l].anchor)
    && (forall k :: 0 <= k < |b.out| ==> b.out[k].anchor <= last)
    && (forall k, l :: 0 <= k < l < |b.rejected| ==> b.rejected[k].0 <= b.rejected[l].0)
    && (forall k :: 0 <= k < |b.rejected| ==> b.rejected[k].0 <= |b.out|)
  }

  lemma {:induction false} CastOrderly(anchor: seq<string>, others: seq<Reading>, i: nat)
    requires ValidReadings(|anchor|, others) && i <= |anchor|
    ensures Orderly(Cast(anchor, others, i), if i == 0 then 0 else i - 1)
  {
    hide EmitGap, CastSlot, GapOf, ValidReadings;
    if i > 0 {
      CastOrderly(anchor, others, i - 1);
      var b := Cast(anchor, others, i - 1);
      var gap, slot := GapOf(|anchor|, others, i - 1), SlotOf(anchor, others, i - 1);
      EmitGapOrderly(b, gap, i - 1);
      CastSlotOrderly(EmitGap(b, gap, i - 1), slot, i - 1);
    }
  }

  lemma EmitGapOrderly(b: Ballot, gap: seq<seq<string>>, i: nat)
    requires Orderly(b, if i == 0 then 0 else i - 1)
    ensures Orderly(EmitGap(b, gap, i), if i == 0 then 0 else i - 1)
  {}

  lemma CastSlotOrderly(b: Ballot, slot: Slot, i: nat)
    requires Orderly(b, if i == 0 then 0 else i - 1)
    ensures Orderly(CastSlot(b, slot, i), i)
  {
    hide Best, Votes, Dropped;
  }

  lemma VotedOrderly(anchor: seq<string>, others: seq<Reading>)
    requires ValidReadings(|anchor|, others)
    ensures Orderly(Voted(anchor, others), if anchor == [] then 0 else |anchor| - 1)
  {
    CastOrderly(anchor, others, |anchor|);
    EmitGapOrderly(Cast(anchor, others, |anchor|), GapOf(|anchor|, others, |anchor|), |anchor|);
  }

  lemma {:induction false} VotesFit(slot: Slot, a: string, b: string)
    requires a != b
    ensures Votes(slot, a) + Votes(slot, b) + Dropped(slot) <= |slot|
  {
    if slot != [] {
      VotesFit(slot[..|slot| - 1], a, b);
    }
  }

  lemma {:induction false} VotedIsPresent(slot: Slot, a: string)
    requires Votes(slot, a) > 0
    ensures Some(a) in slot
  {
    if slot[|slot| - 1] != Some(a) {
      VotedIsPresent(slot[..|slot| - 1], a);
    }
  }

  /** A majority is never overruled: what more than half of the readings carry at
      an anchor token, and no majority lacks, is what the vote accepts there. */
  lemma MajorityWins(slot: Slot, text: string, b: Ballot, i: nat)
    requires slot != [] && slot[0].Some? && text != ""
    requires 2 * Votes(slot, text) > |slot| && |slot| <= 3
    ensures CastSlot(b, slot, i) == b.(out := b.out + [Token(text, Votes(slot, text), i)])
  {
    var own := slot[0].value;
    var best := Best(slot, slot, own);
    assert slot[0] in slot;
    VotedIsPresent(slot, text);
    assert Votes(slot, text) <= Votes(slot, best.value);
    if best.value != text {
      VotesFit(slot, text, best.value);
    }
    if text != own {
      VotesFit(slot, text, own);
    } else {
      VotesFit(slot, text, text + "x");
    }
  }

  lemma OutOnlyGrows(b: Ballot, gap: seq<seq<string>>, slot: Slot, i: nat)
    ensures b.out <= EmitGap(b, gap, i).out && b.out <= CastSlot(b, slot, i).out
  {
    hide Best, Votes, Dropped;
  }

  lemma {:induction false} CastKeeps(anchor: seq<string>, others: seq<Reading>, k: nat, i: nat)
    requires ValidReadings(|anchor|, others) && k <= i <= |anchor|
    ensures Cast(anchor, others, k).out <= Cast(anchor, others, i).out
    decreases i
  {
    hide EmitGap, CastSlot, SlotOf, GapOf, ValidReadings;
    if k < i {
      CastKeeps(anchor, others, k, i - 1);
      var b, gap := Cast(anchor, others, i - 1), GapOf(|anchor|, others, i - 1);
      OutOnlyGrows(b, gap, [], i - 1);
      OutOnlyGrows(EmitGap(b, gap, i - 1), [], SlotOf(anchor, others, i - 1), i - 1);
    }
  }

  /** With up to three readings, what more than half of them carry at token `k` of the
      anchor reading stands in the voted text at `k`, with all its votes. */
  lemma MajorityIsVoted(anchor: seq<string>, others: seq<Reading>, k: nat, text: string)
    requires ValidReadings(|anchor|, others) && |others| <= 2 && k < |anchor| && text != ""
    requires 2 * Votes(SlotOf(anchor, others, k), text) > |others| + 1
    ensures Token(text, Votes(SlotOf(anchor, others, k), text), k) in Voted(anchor, others).out
  {
    hide EmitGap, CastSlot, SlotOf, GapOf, ValidReadings, Votes;
    var slot, gap := SlotOf(anchor, others, k), GapOf(|anchor|, others, k);
    OwnFirst(anchor, others, k);
    MajorityWins(slot, text, EmitGap(Cast(anchor, others, k), gap, k), k);
    var t, after := Token(text, Votes(slot, text), k), Cast(anchor, others, k + 1);
    assert after.out[|after.out| - 1] == t;
    CastKeeps(anchor, others, k + 1, |anchor|);
    OutOnlyGrows(Cast(anchor, others, |anchor|), GapOf(|anchor|, others, |anchor|), [], |anchor|);
    assert Voted(anchor, others).out[|after.out| - 1] == t;
  }

  // ----- what becomes of each token and insertion ------------------------------

  /** The first two insertions at the place are the same. */
  predicate Agreed(gap: seq<seq<string>>) { |gap| > 1 && gap[0] == gap[1] }

  /** From `b` to `c`: an insertion two readings agree on is voted in, with two votes
      and behind the anchor token to its left; any other is rejected, every reading's
      in turn, at the place it would have had. */
  ghost predicate GapDecided(gap: seq<seq<string>>, i: nat, b: Ballot, c: Ballot) {
    && b.out <= c.out && b.rejected <= c.rejected
    && if Agreed(gap) then
         && |c.out| == |b.out| + |gap[0]| && c.rejected == b.rejected
         && forall x :: 0 <= x < |gap[0]| ==>
              c.out[|b.out| + x] == Token(gap[0][x], 2, if i > 0 then i - 1 else 0)
       else
         && c.out == b.out && |c.rejected| == |b.rejected| + |gap|
         && forall x :: 0 <= x < |gap| ==> c.rejected[|b.rejected| + x] == (|b.out|, gap[x])
  }

  /** Two readings have nothing at the token. */
  ghost predicate LackedTwice(slot: Slot) {
    exists x, y :: 0 <= x < y < |slot| && slot[x].None? && slot[y].None?
  }

  /** Entry `x` is the first of those with the most votes; the anchor's own is the
      first of all. */
  ghost predicate Wins(slot: Slot, all: Slot, x: nat) {
    && x < |slot| && slot[x].Some?
    && forall y :: 0 <= y < |slot| && slot[y].Some? ==>
         && Votes(all, slot[y].value) <= Votes(all, slot[x].value)
         && (y < x ==> Votes(all, slot[y].value) < Votes(all, slot[x].value))
  }

  /** From `c` to `d`: a token two readings lack is rejected; else the winning text
      is voted in with its votes, unless it is the tail of a joined run. */
  ghost predicate SlotDecided(slot: Slot, own: string, i: nat, c: Ballot, d: Ballot) {
    if LackedTwice(slot) then d == c.(rejected := c.rejected + [(|c.out|, [own])])
    else
      exists x: nat :: Wins(slot, slot, x)
        && var text := slot[x].value;
           d == if text == "" then c else c.(out := c.out + [Token(text, Votes(slot, text), i)])
  }

  lemma {:induction false} DroppedTwice(slot: Slot)
    ensures Dropped(slot) >= 2 <==> LackedTwice(slot)
    ensures Dropped(slot) >= 1 <==> exists x :: 0 <= x < |slot| && slot[x].None?
  {
    if slot != [] {
      var n := |slot| - 1;
      var front := slot[..n];
      DroppedTwice(front);
      if slot[n].None? && Dropped(front) >= 1 {
        var x :| 0 <= x < |front| && front[x].None?;
        assert slot[x].None?;
      }
      if LackedTwice(front) {
        var x, y :| 0 <= x < y < |front| && front[x].None? && front[y].None?;
        assert slot[x].None? && slot[y].None?;
      }
      if LackedTwice(slot) {
        var x, y :| 0 <= x < y < |slot| && slot[x].None? && slot[y].None?;
        assert front[x].None? && (y < n ==> front[y].None?);
      }
    }
  }

  lemma {:induction false} BestWins(slot: Slot, all: Slot, own: string) returns (x: nat)
    requires slot != [] && slot[0] == Some(own)
    ensures Wins(slot, all, x) && Best(slot, all, own) == slot[x]
  {
    var n := |slot| - 1;
    var front, e := slot[..n], slot[n];
    if n == 0 {
      assert front == [];
      x := 0;
    } else {
      x := BestWins(front, all, own);
      assert front[x] == slot[x] && front[0] == slot[0];
      assert forall y :: 0 <= y < n ==> front[y] == slot[y];
      if e.Some? && Votes(all, e.value) > Votes(all, slot[x].value) {
        x := n;
      }
    }
  }

  lemma SlotIsDecided(slot: Slot, i: nat, c: Ballot)
    requires slot != [] && slot[0].Some?
    ensures SlotDecided(slot, slot[0].value, i, c, CastSlot(c, slot, i))
  {
    DroppedTwice(slot);
    var own := slot[0].value;
    var x := BestWins(slot, slot, own);
    hide Dropped, LackedTwice, Votes, Best;
    assert Wins(slot, slot, x);
  }

  lemma GapIsDecided(gap: seq<seq<string>>, i: nat, b: Ballot)
    ensures GapDecided(gap, i, b, EmitGap(b, gap, i))
  {
  }

  /** The vote, place by place: first what the readings insert before an anchor
      token, then the token; after the last one the closing insertions. */
  lemma VoteDecides(anchor: seq<string>, others: seq<Reading>, i: nat)
    requires ValidReadings(|anchor|, others) && i <= |anchor|
    ensures Cast(anchor, others, 0) == Ballot([], [])
    ensures exists c ::
              && GapDecided(GapOf(|anchor|, others, i), i, Cast(anchor, others, i), c)
              && if i == |anchor| then c == Voted(anchor, others)
                 else SlotDecided(SlotOf(anchor, others, i), anchor[i], i, c, Cast(anchor, others, i + 1))
  {
    hide EmitGap, CastSlot, SlotDecided, GapDecided, SlotOf, GapOf;
    var gap, b := GapOf(|anchor|, others, i), Cast(anchor, others, i);
    GapIsDecided(gap, i, b);
    if i < |anchor| {
      OwnFirst(anchor, others, i);
      SlotIsDecided(SlotOf(anchor, others, i), i, EmitGap(b, gap, i));
    }
  }

  // ----- alignment loses no word -----------------------------------------------

  /** The op that touches an anchor token decides its entry. */
  lemma {:induction false} EntryOfOp(o: seq<string>, ops: seq<Op>, n: nat, x: nat, k: nat)
    requires ValidScript(ops, n, |o|) && x < |ops| && Touches(ops[x], k)
    ensures EntryAt(o, ops, k) == Some(Entry(o, ops[x], k))
  {
    hide Entry;
    var last := |ops| - 1;
    if x < last {
      EntryOfOp(o, ops[..last], n, x, k);
    }
  }

  /** A token no equal or replaced run covers is missing from the reading. */
  lemma {:induction false} EntryIsMissing(o: seq<string>, ops: seq<Op>, k: nat)
    requires forall x :: 0 <= x < |ops| ==> ops[x].j1 <= ops[x].j2 <= |o|
    ensures EntryAt(o, ops, k).None? <==>
            forall x :: 0 <= x < |ops| && (ops[x].tag == Equal || ops[x].tag == Replace) ==>
              !(ops[x].i1 <= k < ops[x].i2)
  {
    if ops != [] {
      var front := ops[..|ops| - 1];
      assert forall x :: 0 <= x < |front| ==> front[x] == ops[x];
      EntryIsMissing(o, front, k);
    }
  }

  /** Texts are joined by single blanks. */
  lemma {:induction false} JoinSplits(a: seq<string>, b: seq<string>)
    ensures |a| == 1 ==> Join(a) == a[0]
    ensures a != [] && b != [] ==> Join(a + b) == Join(a) + " " + Join(b)
  {
    if a != [] && b != [] {
      assert (a + b)[0] == a[0] && (a + b)[1..] == a[1..] + b;
      if |a| > 1 {
        JoinSplits(a[1..], b);
        assert a[0] + " " + (Join(a[1..]) + " " + Join(b)) == a[0] + " " + Join(a[1..]) + " " + Join(b);
      }
    }
  }

  /** What a reading has against the anchor tokens [lo, hi). */
  function Column(o: seq<string>, ops: seq<Op>, lo: nat, hi: nat): (r: seq<string>)
    requires forall x :: 0 <= x < |ops| ==> ops[x].j1 <= ops[x].j2 <= |o|
    ensures |r| == if hi <= lo then 0 else hi - lo
    decreases hi
  {
    if hi <= lo then [] else Column(o, ops, lo, hi - 1) + [EntryAt(o, ops, hi - 1).GetOr("")]
  }

  function Inked(texts: seq<string>): seq<string> {
    if texts == [] then []
    else
      var last := texts[|texts| - 1];
      Inked(texts[..|texts| - 1]) + if last == "" then [] else [last]
  }

  lemma {:induction false} AllInked(texts: seq<string>)
    requires forall i :: 0 <= i < |texts| ==> texts[i] != ""
    ensures Inked(texts) == texts
  {
    if texts != [] {
      AllInked(texts[..|texts| - 1]);
    }
  }

  lemma {:induction false} EvenColumn(o: seq<string>, ops: seq<Op>, n: nat, x: nat, k: nat)
    requires ValidScript(ops, n, |o|) && x < |ops| && (ops[x].tag.Equal? || ops[x].tag.Replace?)
    requires ops[x].i2 - ops[x].i1 == ops[x].j2 - ops[x].j1 && ops[x].i1 <= k <= ops[x].i2
    ensures Column(o, ops, ops[x].i1, k) == o[ops[x].j1..ops[x].j1 + (k - ops[x].i1)]
  {
    hide EntryAt;
    var op := ops[x];
    if k > op.i1 {
      EvenColumn(o, ops, n, x, k - 1);
      EntryOfOp(o, ops, n, x, k - 1);
      var j := op.j1 + (k - op.i1);
      assert o[op.j1..j] == o[op.j1..j - 1] + [o[j - 1]];
    }
  }

  lemma {:induction false} UnevenColumn(o: seq<string>, ops: seq<Op>, n: nat, x: nat, k: nat)
    requires ValidScript(ops, n, |o|) && x < |ops| && (ops[x].tag.Equal? || ops[x].tag.Replace?)
    requires ops[x].i2 - ops[x].i1 != ops[x].j2 - ops[x].j1 && ops[x].i1 < k <= ops[x].i2
    requires Join(o[ops[x].j1..ops[x].j2]) != ""
    ensures Inked(Column(o, ops, ops[x].i1, k)) == [Join(o[ops[x].j1..ops[x].j2])]
  {
    hide EntryAt, Join;
    var op := ops[x];
    var column := Column(o, ops, op.i1, k);
    EntryOfOp(o, ops, n, x, k - 1);
    assert column[..|column| - 1] == Column(o, ops, op.i1, k - 1);
    if k - 1 > op.i1 {
      UnevenColumn(o, ops, n, x, k - 1);
    }
  }

  /** Against the anchor tokens an op touches, a reading says the whole of its own
      run, in order and once, however the two runs differ in length. */
  lemma {:induction false} RunIsSpelled(o: seq<string>, ops: seq<Op>, n: nat, x: nat)
    requires ValidScript(ops, n, |o|) && x < |ops| && (ops[x].tag.Equal? || ops[x].tag.Replace?)
    requires ops[x].i1 < ops[x].i2 && ops[x].j1 < ops[x].j2 && forall i :: 0 <= i < |o| ==> o[i] != ""
    ensures Join(Inked(Column(o, ops, ops[x].i1, ops[x].i2))) == Join(o[ops[x].j1..ops[x].j2])
  {
    if ops[x].i2 - ops[x].i1 == ops[x].j2 - ops[x].j1 {
      EvenRunIsSpelled(o, ops, n, x);
    } else {
      UnevenRunIsSpelled(o, ops, n, x);
    }
  }

  lemma {:induction false} EvenRunIsSpelled(o: seq<string>, ops: seq<Op>, n: nat, x: nat)
    requires ValidScript(ops, n, |o|) && x < |ops| && (ops[x].tag.Equal? || ops[x].tag.Replace?)
    requires ops[x].i1 < ops[x].i2 && ops[x].j1 < ops[x].j2 && forall i :: 0 <= i < |o| ==> o[i] != ""
    requires ops[x].i2 - ops[x].i1 == ops[x].j2 - ops[x].j1
    ensures Inked(Column(o, ops, ops[x].i1, ops[x].i2)) == o[ops[x].j1..ops[x].j2]
  {
    hide EntryAt, Join, Column, Inked;
    RunHasInk(o, ops[x].j1, ops[x].j2);
    EvenColumn(o, ops, n, x, ops[x].i2);
    AllInked(o[ops[x].j1..ops[x].j2]);
  }

  lemma {:induction false} UnevenRunIsSpelled(o: seq<string>, ops: seq<Op>, n: nat, x: nat)
    requires ValidScript(ops, n, |o|) && x < |ops| && (ops[x].tag.Equal? || ops[x].tag.Replace?)
    requires ops[x].i1 < ops[x].i2 && ops[x].j1 < ops[x].j2 && forall i :: 0 <= i < |o| ==> o[i] != ""
    requires ops[x].i2 - ops[x].i1 != ops[x].j2 - ops[x].j1
    ensures Join(Inked(Column(o, ops, ops[x].i1, ops[x].i2))) == Join(o[ops[x].j1..ops[x].j2])
  {
    hide EntryAt, Join, Column, Inked;
    RunHasInk(o, ops[x].j1, ops[x].j2);
    UnevenColumn(o, ops, n, x, ops[x].i2);
    OneJoined(Join(o[ops[x].j1..ops[x].j2]));
  }

  lemma RunHasInk(o: seq<string>, lo: nat, hi: nat)
    requires lo < hi <= |o| && forall i :: 0 <= i < |o| ==> o[i] != ""
    ensures (forall i :: 0 <= i < hi - lo ==> o[lo..hi][i] != "") && Join(o[lo..hi]) != ""
  {
  }

  lemma OneJoined(text: string)
    ensures Join([text]) == text
  {
  }

  /** A reading's insertions at a place are the runs its script inserts there. */
  lemma {:induction false} InsertedExactly(o: seq<string>, ops: seq<Op>, i: nat, run: seq<string>)
    requires forall x :: 0 <= x < |ops| ==> ops[x].j1 <= ops[x].j2 <= |o|
    ensures run in InsertedAt(o, ops, i) <==>
            exists x :: 0 <= x < |ops| && ops[x].tag.Insert? && ops[x].i1 == i && o[ops[x].j1..ops[x].j2] == run
  {
    if ops != [] {
      var front := ops[..|ops| - 1];
      assert forall x :: 0 <= x < |front| ==> front[x] == ops[x];
      InsertedExactly(o, front, i, run);
    }
  }

  // ----- what the readings bring to the vote -----------------------------------

  /** A text has as many votes as there are entries that say it. */
  lemma {:induction false} VotesExactly(slot: Slot, text: string)
    ensures Votes(slot, text) == |Saying(slot, text)|
  {
    if slot != [] {
      var n := |slot| - 1;
      VotesExactly(slot[..n], text);
      assert Saying(slot, text) == Saying(slot[..n], text) + if slot[n] == Some(text) then {n} else {};
    } else {
      assert Saying(slot, text) == {};
    }
  }

  ghost function Saying(slot: Slot, text: string): set<nat> { set x: nat | x < |slot| && slot[x] == Some(text) }

  /** Behind the anchor's own token a slot holds each reading's entry, in turn. */
  lemma {:induction false} SlotReads(anchor: seq<string>, others: seq<Reading>, k: nat, r: nat)
    requires ValidReadings(|anchor|, others) && k < |anchor| && r < |others|
    ensures SlotOf(anchor, others, k)[r + 1] == EntryAt(others[r].tokens, others[r].script, k)
  {
    hide EntryAt;
    if r < |others| - 1 {
      SlotReads(anchor, others[..|others| - 1], k, r);
    }
  }

  /** What stands in a gap is what some reading inserts there. */
  lemma {:induction false} GapReads(n: nat, others: seq<Reading>, i: nat, run: seq<string>)
    requires ValidReadings(n, others)
    ensures run in GapOf(n, others, i) <==>
            exists r :: 0 <= r < |others| && run in InsertedAt(others[r].tokens, others[r].script, i)
  {
    hide InsertedAt, ValidScript;
    if others != [] {
      var front := others[..|others| - 1];
      assert forall r :: 0 <= r < |front| ==> front[r] == others[r];
      GapReads(n, front, i, run);
    }
  }

  /** Of two readings that insert at most once at a place, they agree there exactly
      when both insert one run. */
  lemma {:induction false} BothInsert(n: nat, p: Reading, q: Reading, i: nat)
    requires ValidScript(p.script, n, |p.tokens|) && ValidScript(q.script, n, |q.tokens|)
    requires |InsertedAt(p.tokens, p.script, i)| <= 1 && |InsertedAt(q.tokens, q.script, i)| <= 1
    ensures ValidReadings(n, [p, q])
    ensures Agreed(GapOf(n, [p, q], i)) <==>
            exists run :: run in InsertedAt(p.tokens, p.script, i) && run in InsertedAt(q.tokens, q.script, i)
  {
    assert ValidReadings(n, [p, q]) && ValidReadings(n, [p]);
    hide InsertedAt;
    var a, b := InsertedAt(p.tokens, p.script, i), InsertedAt(q.tokens, q.script, i);
    assert [p, q][..1] == [p] && [p][..0] == [];
    assert GapOf(n, [p], i) == [] + a;
    assert GapOf(n, [p, q], i) == a + b;
    if Agreed(a + b) {
      assert (a + b)[0] in a && (a + b)[1] in b;
    }
  }
}

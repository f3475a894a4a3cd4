/** Restoring what a reading order hid from the vote, and grouping the tokens by
    printed line (`vote_page`, `group_lines`). */
module VoteRescue {
  import opened Common
  import opened Voting

  /** A restored token and the gap it was rejected at. */
  datatype Restored = Restored(pos: nat, text: string)

  // ----- which words are restored ----------------------------------------------

  function CountIn(tokens: seq<string>, w: string): nat {
    if tokens == [] then 0 else CountIn(tokens[..|tokens| - 1], w) + if tokens[|tokens| - 1] == w then 1 else 0
  }

  function Counts(readings: seq<seq<string>>, w: string): (r: seq<int>)
    ensures |r| == |readings|
  {
    seq(|readings|, i requires 0 <= i < |readings| => CountIn(readings[i], w) as int)
  }

  /** The lower median of a word's count over the readings. */
  function MedianCount(readings: seq<seq<string>>, w: string): int
    requires readings != []
  {
    SortInts(Counts(readings, w))[(|readings| - 1) / 2]
  }

  function Texts(toks: seq<Token>): (r: seq<string>)
    ensures |r| == |toks| && forall i :: 0 <= i < |toks| ==> r[i] == toks[i].text
  {
    seq(|toks|, i requires 0 <= i < |toks| => toks[i].text)
  }

  /** The rejected words in order, each with its gap. */
  function Words(rejected: seq<(nat, seq<string>)>): (r: seq<Restored>)
  {
    if rejected == [] then []
    else
      var (pos, run) := rejected[|rejected| - 1];
      Words(rejected[..|rejected| - 1]) + seq(|run|, i requires 0 <= i < |run| => Restored(pos, run[i]))
  }

  datatype Rescue = Rescue(have: multiset<string>, restored: seq<Restored>)

  function RescueWords(readings: seq<seq<string>>, have: multiset<string>, words: seq<Restored>): Rescue
    requires readings != []
  {
    if words == [] then Rescue(have, [])
    else
      var before := RescueWords(readings, have, words[..|words| - 1]);
      var w := words[|words| - 1];
      if before.have[w.text] < MedianCount(readings, w.text) then
        Rescue(before.have + multiset{w.text}, before.restored + [w])
      else before
  }

  function Occurrences(words: seq<Restored>, w: string): nat {
    if words == [] then 0
    else Occurrences(words[..|words| - 1], w) + if words[|words| - 1].text == w then 1 else 0
  }

  /** Exactly how many of each word there are in the end: as many as voted, topped
      up from the rejected ones to the median and no further. */
  lemma {:induction false} RescueCounts(readings: seq<seq<string>>, have: multiset<string>, words: seq<Restored>,
                                        w: string)
    requires readings != []
    ensures RescueWords(readings, have, words).have[w] ==
            Min(Max(have[w], MedianCount(readings, w)), have[w] + Occurrences(words, w))
    ensures RescueWords(readings, have, words).have[w] ==
            have[w] + Occurrences(RescueWords(readings, have, words).restored, w)
  {
    hide MedianCount;
    if words != [] {
      RescueCounts(readings, have, words[..|words| - 1], w);
      var r := RescueWords(readings, have, words).restored;
      var before := RescueWords(readings, have, words[..|words| - 1]).restored;
      if r != before {
        assert r[..|r| - 1] == before;
      }
    }
  }

  /** The readings that hold a word at least `c` times. */
  ghost function Holding(readings: seq<seq<string>>, w: string, c: int): set<nat> {
    set i: nat | i < |readings| && multiset(readings[i])[w] >= c
  }

  lemma {:induction false} HoldingIs(readings: seq<seq<string>>, w: string, c: int)
    ensures |Holding(readings, w, c)| + CountLess(Counts(readings, w), c) == |readings|
  {
    hide CountIn;
    if readings == [] {
      assert Holding(readings, w, c) == {};
    } else {
      var n := |readings| - 1;
      HoldingIs(readings[..n], w, c);
      CountIsMultiplicity(readings[n], w);
      assert Counts(readings, w)[..n] == Counts(readings[..n], w);
      hide Holding;
      OneMoreHolding(readings, w, c);
    }
  }

  lemma {:induction false} OneMoreHolding(readings: seq<seq<string>>, w: string, c: int)
    requires readings != []
    ensures var n := |readings| - 1;
            |Holding(readings, w, c)|
            == |Holding(readings[..n], w, c)| + if multiset(readings[n])[w] >= c then 1 else 0
  {
    var n := |readings| - 1;
    assert Holding(readings, w, c)
        == Holding(readings[..n], w, c) + if multiset(readings[n])[w] >= c then {n} else {};
  }

  lemma {:induction false} LessGrows(s: seq<int>, c: int, x: int)
    requires c <= x
    ensures CountLess(s, c) <= CountLess(s, x)
  {
    if s != [] {
      LessGrows(s[..|s| - 1], c, x);
    }
  }

  /** The median count reaches `c` exactly when more than half of the readings hold
      the word that often. */
  lemma MedianIsMajority(readings: seq<seq<string>>, w: string, c: int)
    requires readings != []
    ensures MedianCount(readings, w) >= c <==> 2 * |Holding(readings, w, c)| > |readings|
  {
    hide Counts, SortInts, Holding;
    var s, k := Counts(readings, w), (|readings| - 1) / 2;
    var x := SortInts(s)[k];
    SortRanks(s, k);
    HoldingIs(readings, w, c);
    if c <= x {
      LessGrows(s, c, x);
    } else {
      CountsCross(s, x, c);
    }
  }

  /** The outvoted runs are taken apart word by word, in order, each word with its
      run's gap. */
  lemma {:induction false} WordsSplit(a: seq<(nat, seq<string>)>, b: seq<(nat, seq<string>)>)
    ensures Words(a + b) == Words(a) + Words(b)
    ensures |a| == 1 ==> |Words(a)| == |a[0].1|
                         && forall i :: 0 <= i < |a[0].1| ==> Words(a)[i] == Restored(a[0].0, a[0].1[i])
  {
    OneRunOfWords(a);
    if b == [] {
      assert a + b == a;
    } else {
      var n := |b| - 1;
      var last := RunWords(b[n]);
      assert (a + b)[..|a + b| - 1] == a + b[..n] && (a + b)[|a + b| - 1] == b[n];
      assert Words(a + b) == Words(a + b[..n]) + last && Words(b) == Words(b[..n]) + last;
      hide Words;
      WordsSplit(a, b[..n]);
    }
  }

  function RunWords(r: (nat, seq<string>)): seq<Restored> {
    seq(|r.1|, i requires 0 <= i < |r.1| => Restored(r.0, r.1[i]))
  }

  lemma OneRunOfWords(a: seq<(nat, seq<string>)>)
    ensures |a| == 1 ==> |Words(a)| == |a[0].1|
                         && forall i :: 0 <= i < |a[0].1| ==> Words(a)[i] == Restored(a[0].0, a[0].1[i])
  {
    if |a| == 1 {
      assert a[..0] == [];
    }
  }

  // ----- where they go ---------------------------------------------------------

  ghost predicate InGapOrder(restored: seq<Restored>, from: nat, n: nat) {
    && (forall i, j :: 0 <= i < j < |restored| ==> restored[i].pos <= restored[j].pos)
    && (forall i :: 0 <= i < |restored| ==> from <= restored[i].pos <= n)
  }

  /** The token a restored word becomes: it sits on the line of the voted token
      before its gap. */
  function Placed(toks: seq<Token>, r: Restored): Token {
    Token(r.text, 2, if 0 < r.pos <= |toks| then toks[r.pos - 1].anchor else 0)
  }

  /** The voted tokens from `from` on, with each restored word in its gap, those of
      one gap in rejection order. */
  function Weave(toks: seq<Token>, from: nat, restored: seq<Restored>): (w: seq<Token>)
    requires from <= |toks| && InGapOrder(restored, from, |toks|)
    decreases |restored|
  {
    if restored == [] then toks[from..]
    else toks[from..restored[0].pos] + [Placed(toks, restored[0])] + Weave(toks, restored[0].pos, restored[1..])
  }

  lemma WeaveFrom(toks: seq<Token>, from: nat, pos: nat, restored: seq<Restored>)
    requires from <= pos <= |toks| && InGapOrder(restored, pos, |toks|)
    ensures Weave(toks, from, restored) == toks[from..pos] + Weave(toks, pos, restored)
  {
    if restored != [] {
      assert toks[from..restored[0].pos] == toks[from..pos] + toks[pos..restored[0].pos];
    }
  }

  /** One more insertion, in a gap no later than those filled so far. */
  lemma InsertStep(toks: seq<Token>, r: Restored, rest: seq<Restored>)
    requires InGapOrder([r] + rest, 0, |toks|) && InGapOrder(rest, r.pos, |toks|)
    ensures InGapOrder(rest, 0, |toks|) && r.pos <= |Weave(toks, 0, rest)|
    ensures var w := Weave(toks, 0, rest);
            && w[..r.pos] == toks[..r.pos]
            && Weave(toks, 0, [r] + rest) == w[..r.pos] + [Placed(toks, r)] + w[r.pos..]
  {
    assert ([r] + rest)[1..] == rest && ([r] + rest)[0] == r;
    WeaveFrom(toks, 0, r.pos, rest);
  }

  lemma GapsFrom(restored: seq<Restored>, k: nat, n: nat)
    requires InGapOrder(restored, 0, n) && k < |restored|
    ensures restored[k..] == [restored[k]] + restored[k + 1..] && restored[k].pos <= n
    ensures InGapOrder(restored[k..], 0, n) && InGapOrder(restored[k + 1..], restored[k].pos, n)
  {
  }

  lemma WeaveOfNone(toks: seq<Token>, restored: seq<Restored>)
    requires restored == []
    ensures InGapOrder(restored, 0, |toks|) && Weave(toks, 0, restored) == toks
  {
  }

  /** Inserting from the last gap back to the first, each by its recorded position
      into the list as it stands, weaves: the earlier positions stay valid. */
  method InsertRestored(toks0: seq<Token>, restored: seq<Restored>) returns (toks: seq<Token>)
    requires InGapOrder(restored, 0, |toks0|)
    ensures toks == Weave(toks0, 0, restored)
  {
    toks := toks0;
    var k := |restored|;
    WeaveOfNone(toks0, restored[k..]);
    hide Weave, InGapOrder, Placed;
    while k > 0
      invariant k <= |restored|
      invariant InGapOrder(restored[k..], 0, |toks0|)
      invariant toks == Weave(toks0, 0, restored[k..])
    {
      k := k - 1;
      var r := restored[k];
      GapsFrom(restored, k, |toks0|);
      InsertStep(toks0, r, restored[k + 1..]);
      var t := Token(r.text, 2, if 0 < r.pos <= |toks| then toks[r.pos - 1].anchor else 0);
      SameAnchor(toks0, toks, r);
      toks := toks[..r.pos] + [t] + toks[r.pos..];
    }
    assert restored[0..] == restored;
  }

  /** The anchor read from the list as it stands is that of an original token. */
  lemma SameAnchor(toks0: seq<Token>, toks: seq<Token>, r: Restored)
    requires r.pos <= |toks0| && r.pos <= |toks| && toks[..r.pos] == toks0[..r.pos]
    ensures Placed(toks0, r) == Token(r.text, 2, if 0 < r.pos <= |toks| then toks[r.pos - 1].anchor else 0)
  {
    assert 0 < r.pos ==> toks[r.pos - 1] == toks[..r.pos][r.pos - 1] == toks0[..r.pos][r.pos - 1] == toks0[r.pos - 1];
  }

  lemma WeaveOpens(toks: seq<Token>, from: nat, restored: seq<Restored>)
    requires from <= |toks| && InGapOrder(restored, from, |toks|) && restored != []
    ensures var pos := restored[0].pos;
            && from <= pos <= |toks| && InGapOrder(restored[1..], pos, |toks|)
            && Weave(toks, from, restored)
               == toks[from..pos] + [Placed(toks, restored[0])] + Weave(toks, pos, restored[1..])
  {
  }

  /** Every voted token survives, shifted only by the restored words of the gaps up to
      its own: the voted tokens keep their order. */
  lemma {:induction false} WeaveKeepsVoted(toks: seq<Token>, from: nat, restored: seq<Restored>, at: nat)
    returns (p: nat)
    requires from <= |toks| && InGapOrder(restored, from, |toks|) && from <= at < |toks|
    ensures p < |Weave(toks, from, restored)| && Weave(toks, from, restored)[p] == toks[at]
    ensures p == at - from + GapRank(restored, at)
    decreases |restored|
  {
    if restored == [] || at < restored[0].pos {
      p := at - from;
      NoneBefore(restored, at);
    } else {
      var pos := restored[0].pos;
      WeaveOpens(toks, from, restored);
      RankOfHead(restored, at);
      hide Weave, GapRank, InGapOrder, Placed;
      var head, tail := toks[from..pos] + [Placed(toks, restored[0])], Weave(toks, pos, restored[1..]);
      var q := WeaveKeepsVoted(toks, pos, restored[1..], at);
      p := |head| + q;
      assert (head + tail)[p] == tail[q];
    }
  }

  /** How many restored words sit in gaps up to the one before token `at`. */
  function GapRank(restored: seq<Restored>, at: nat): nat {
    if restored == [] then 0
    else GapRank(restored[..|restored| - 1], at) + if restored[|restored| - 1].pos <= at then 1 else 0
  }

  lemma {:induction false} NoneBefore(restored: seq<Restored>, at: nat)
    requires restored == [] || at < restored[0].pos
    requires forall i, j :: 0 <= i < j < |restored| ==> restored[i].pos <= restored[j].pos
    ensures GapRank(restored, at) == 0
  {
    if restored != [] {
      NoneBefore(restored[..|restored| - 1], at);
    }
  }

  lemma {:induction false} RankOfHead(restored: seq<Restored>, at: nat)
    requires restored != []
    ensures GapRank(restored, at) == GapRank(restored[1..], at) + if restored[0].pos <= at then 1 else 0
  {
    if |restored| > 1 {
      RankOfHead(restored[..|restored| - 1], at);
      assert restored[..|restored| - 1][1..] == restored[1..][..|restored| - 2];
    }
  }

  lemma TextsConcat(a: seq<Token>, b: seq<Token>)
    ensures Texts(a + b) == Texts(a) + Texts(b)
  {
  }

  lemma {:induction false} OccurrencesOfHead(restored: seq<Restored>, w: string)
    requires restored != []
    ensures Occurrences(restored, w) == Occurrences(restored[1..], w) + if restored[0].text == w then 1 else 0
  {
    if |restored| > 1 {
      OccurrencesOfHead(restored[..|restored| - 1], w);
      assert restored[..|restored| - 1][1..] == restored[1..][..|restored| - 2];
    }
  }

  /** The weave holds each word as often as the voted tokens and the restored words
      together. */
  lemma {:induction false} WeaveCounts(toks: seq<Token>, from: nat, restored: seq<Restored>, w: string)
    requires from <= |toks| && InGapOrder(restored, from, |toks|)
    ensures multiset(Texts(Weave(toks, from, restored)))[w] ==
        multiset(Texts(toks[from..]))[w] + Occurrences(restored, w)
    decreases |restored|
  {
    if restored != [] {
      var pos := restored[0].pos;
      var head, t, tail := toks[from..pos], [Placed(toks, restored[0])], Weave(toks, pos, restored[1..]);
      WeaveCounts(toks, pos, restored[1..], w);
      OccurrencesOfHead(restored, w);
      assert Weave(toks, from, restored) == head + t + tail;
      assert toks[from..] == head + toks[pos..];
      hide Weave, Occurrences, InGapOrder, Texts;
      TextsConcat(head + t, tail);
      TextsConcat(head, t);
      TextsConcat(head, toks[pos..]);
      OneText(t[0]);
    }
  }

  lemma OneText(t: Token)
    ensures Texts([t]) == [t.text]
  {
  }

  lemma {:induction false} CountIsMultiplicity(s: seq<string>, w: string)
    ensures multiset(s)[w] == CountIn(s, w)
  {
    if s != [] {
      CountIsMultiplicity(s[..|s| - 1], w);
      assert s == s[..|s| - 1] + [s[|s| - 1]];
    }
  }

  /** How often a word stands on the page: as often as it was voted, topped up from
      the outvoted ones to the median of the readings. */
  function FinalCount(readings: seq<seq<string>>, out: seq<Token>, words: seq<Restored>, w: string): int
    requires readings != []
  {
    var voted := CountIn(Texts(out), w);
    Min(Max(voted, MedianCount(readings, w)), voted + Occurrences(words, w))
  }

  /** A word stands `c` times exactly when it was voted so often, or most readings hold
      it so often and the outvoted runs make up the difference. */
  lemma StandsAsOften(readings: seq<seq<string>>, out: seq<Token>, words: seq<Restored>, w: string, c: int)
    requires readings != []
    ensures FinalCount(readings, out, words, w) >= c <==>
            || multiset(Texts(out))[w] >= c
            || (2 * |Holding(readings, w, c)| > |readings| && multiset(Texts(out))[w] + Occurrences(words, w) >= c)
  {
    MedianIsMajority(readings, w, c);
    CountIsMultiplicity(Texts(out), w);
    hide MedianCount, Texts, CountIn, Occurrences, Holding;
  }

  lemma WovenCount(out: seq<Token>, restored: seq<Restored>, w: string)
    requires InGapOrder(restored, 0, |out|)
    ensures CountIn(Texts(Weave(out, 0, restored)), w) == CountIn(Texts(out), w) + Occurrences(restored, w)
  {
    WeaveCounts(out, 0, restored, w);
    hide Weave, Texts, InGapOrder, Occurrences, CountIn;
    assert out[0..] == out;
    CountIsMultiplicity(Texts(out), w);
    CountIsMultiplicity(Texts(Weave(out, 0, restored)), w);
  }

  lemma RescuedPage(readings: seq<seq<string>>, out: seq<Token>, words: seq<Restored>, w: string)
    requires readings != [] && InGapOrder(words, 0, |out|)
    ensures var restored := RescueWords(readings, multiset(Texts(out)), words).restored;
            && InGapOrder(restored, 0, |out|)
            && CountIn(Texts(Weave(out, 0, restored)), w) == FinalCount(readings, out, words, w)
  {
    hide RescueWords, MedianCount, Weave, Texts, InGapOrder, Occurrences, CountIn, Min, Max;
    var have := multiset(Texts(out));
    RescueInOrder(readings, have, words, |out|);
    RescueCounts(readings, have, words, w);
    WovenCount(out, RescueWords(readings, have, words).restored, w);
    CountIsMultiplicity(Texts(out), w);
  }

  ghost predicate AnchorsAscend(toks: seq<Token>) {
    forall i, j :: 0 <= i < j < |toks| ==> toks[i].anchor <= toks[j].anchor
  }

  /** Anchors never step back, nor below `lo` nor above `hi`. */
  ghost predicate Between(toks: seq<Token>, lo: int, hi: int) {
    AnchorsAscend(toks) && forall i :: 0 <= i < |toks| ==> lo <= toks[i].anchor <= hi
  }

  /** The anchor of the token before a gap. */
  function GapAnchor(toks: seq<Token>, pos: nat): int { if 0 < pos <= |toks| then toks[pos - 1].anchor else 0 }

  /** A weave of tokens whose anchors never step back never steps back. */
  lemma {:induction false} WeaveAscends(toks: seq<Token>, from: nat, restored: seq<Restored>)
    requires from <= |toks| && InGapOrder(restored, from, |toks|) && AnchorsAscend(toks)
    ensures Between(Weave(toks, from, restored), GapAnchor(toks, from), GapAnchor(toks, |toks|))
    decreases |restored|
  {
    if restored == [] {
      SliceAscends(toks, from, |toks|);
    } else {
      var pos := restored[0].pos;
      WeaveAscends(toks, pos, restored[1..]);
      var head, tail, t := toks[from..pos], Weave(toks, pos, restored[1..]), Placed(toks, restored[0]);
      assert Weave(toks, from, restored) == head + ([t] + tail) && t.anchor == GapAnchor(toks, pos);
      hide Weave, AnchorsAscend, InGapOrder, Between, GapAnchor, Placed;
      SliceAscends(toks, from, pos);
      GapsAscend(toks, from, pos, |toks|);
      OneBetween(t);
      JoinBetween([t], tail, t.anchor, t.anchor, GapAnchor(toks, |toks|));
      JoinBetween(head, [t] + tail, GapAnchor(toks, from), t.anchor, GapAnchor(toks, |toks|));
    }
  }

  lemma GapsAscend(toks: seq<Token>, a: nat, b: nat, c: nat)
    requires AnchorsAscend(toks) && a <= b <= c <= |toks|
    ensures GapAnchor(toks, a) <= GapAnchor(toks, b) <= GapAnchor(toks, c)
  {
  }

  lemma SliceAscends(toks: seq<Token>, from: nat, to: nat)
    requires AnchorsAscend(toks) && from <= to <= |toks|
    ensures Between(toks[from..to], GapAnchor(toks, from), GapAnchor(toks, to))
  {
  }

  lemma OneBetween(t: Token)
    ensures Between([t], t.anchor, t.anchor)
  {
  }

  lemma JoinBetween(a: seq<Token>, b: seq<Token>, lo: int, mid: int, hi: int)
    requires Between(a, lo, mid) && Between(b, mid, hi) && lo <= mid <= hi
    ensures Between(a + b, lo, hi)
  {
  }

  // ----- the page --------------------------------------------------------------

  lemma {:induction false} WordsInOrder(rejected: seq<(nat, seq<string>)>, n: nat)
    requires forall k, l :: 0 <= k < l < |rejected| ==> rejected[k].0 <= rejected[l].0
    requires forall k :: 0 <= k < |rejected| ==> rejected[k].0 <= n
    ensures InGapOrder(Words(rejected), 0, n)
    ensures forall i :: 0 <= i < |Words(rejected)| ==>
        rejected != [] && Words(rejected)[i].pos <= rejected[|rejected| - 1].0
  {
    if rejected != [] {
      WordsInOrder(rejected[..|rejected| - 1], n);
    }
  }

  lemma {:induction false} RescueInOrder(readings: seq<seq<string>>, have: multiset<string>, words: seq<Restored>,
                                         n: nat)
    requires readings != [] && InGapOrder(words, 0, n)
    ensures InGapOrder(RescueWords(readings, have, words).restored, 0, n)
    ensures forall r :: r in RescueWords(readings, have, words).restored ==> r in words
  {
    hide MedianCount;
    if words != [] {
      var front := words[..|words| - 1];
      RescueInOrder(readings, have, front, n);
      var before := RescueWords(readings, have, front).restored;
      forall i | 0 <= i < |before|
        ensures before[i].pos <= words[|words| - 1].pos
      {
        assert before[i] in front;
      }
    }
  }

  /** The rescue loop over the outvoted words. */
  method RestoreWords(readings: seq<seq<string>>, have0: multiset<string>, words: seq<Restored>)
    returns (restored: seq<Restored>)
    requires readings != []
    ensures restored == RescueWords(readings, have0, words).restored
  {
    hide MedianCount;
    var have := have0;
    restored := [];
    for k := 0 to |words|
      invariant RescueWords(readings, have0, words[..k]) == Rescue(have, restored)
    {
      assert words[..k + 1][..k] == words[..k];
      if have[words[k].text] < MedianCount(readings, words[k].text) {
        have := have + multiset{words[k].text};
        restored := restored + [words[k]];
      }
    }
    assert words[..|words|] == words;
  }

  /** An "illegible" mark inside the text. */
  predicate Illegible(text: string) {
    exists i :: 0 <= i < |text| - 2 && text[i] == '[' && text[i + 1] == '?' && text[i + 2] == ']'
  }

  /** An illegible reading keeps a single vote, however many agree on it. */
  function Marked(t: Token): Token { if Illegible(t.text) then t.(votes := 1) else t }

  ghost predicate MarkAt(text: string, i: int) { 0 <= i <= |text| - 3 && text[i..i + 3] == "[?]" }

  ghost predicate HoldsMark(text: string) { exists i :: MarkAt(text, i) }

  lemma MarkedExactly(t: Token)
    ensures Marked(t) == if HoldsMark(t.text) then Token(t.text, 1, t.anchor) else t
  {
    if HoldsMark(t.text) {
      var i :| MarkAt(t.text, i);
      assert t.text[i..i + 3][0] == '[' && t.text[i..i + 3][1] == '?' && t.text[i..i + 3][2] == ']';
    }
    if Illegible(t.text) {
      var i :| 0 <= i < |t.text| - 2 && t.text[i] == '[' && t.text[i + 1] == '?' && t.text[i + 2] == ']';
      assert MarkAt(t.text, i);
    }
  }

  function MarkAll(toks: seq<Token>): (r: seq<Token>)
    ensures |r| == |toks| && forall i :: 0 <= i < |r| ==> r[i] == Marked(toks[i])
  {
    seq(|toks|, i requires 0 <= i < |toks| => Marked(toks[i]))
  }

  method MarkIllegible(toks0: seq<Token>) returns (toks: seq<Token>)
    ensures toks == MarkAll(toks0)
  {
    hide Illegible;
    toks := toks0;
    for i := 0 to |toks0|
      invariant |toks| == |toks0|
      invariant forall k :: 0 <= k < i ==> toks[k] == Marked(toks0[k])
      invariant forall k :: i <= k < |toks| ==> toks[k] == toks0[k]
    {
      if Illegible(toks[i].text) {
        toks := toks[i := toks[i].(votes := 1)];
      }
    }
  }

  lemma MarkingKeeps(toks: seq<Token>)
    ensures Texts(MarkAll(toks)) == Texts(toks)
    ensures AnchorsAscend(MarkAll(toks)) <==> AnchorsAscend(toks)
  {
    hide Illegible;
  }

  /** `vote_page` once the anchor reading and the alignments onto it are chosen:
      vote, restore, mark. Each word stands as often as voted, topped up to the
      median; no illegible text has more than one vote; anchors never step back. */
  method VotePage(anchor: seq<string>, others: seq<Reading>) returns (toks: seq<Token>, restored: seq<Restored>)
    requires ValidReadings(|anchor|, others)
    ensures InGapOrder(restored, 0, |Voted(anchor, others).out|)
    ensures toks == MarkAll(Weave(Voted(anchor, others).out, 0, restored))
    ensures restored == RescueWords([anchor] + OtherTokens(others), multiset(Texts(Voted(anchor, others).out)),
                                    Words(Voted(anchor, others).rejected)).restored
    ensures forall w :: CountIn(Texts(toks), w) ==
              FinalCount([anchor] + OtherTokens(others), Voted(anchor, others).out,
                  Words(Voted(anchor, others).rejected), w)
    ensures forall t :: t in toks && Illegible(t.text) ==> t.votes == 1
    ensures AnchorsAscend(toks)
  {
    var b := VoteLineTokens(anchor, others);
    VotedOrderly(anchor, others);
    assert AnchorsAscend(b.out);
    hide ValidReadings, Voted, AnchorsAscend;
    var readings := [anchor] + OtherTokens(others);
    var words := Words(b.rejected);
    restored := RestoreWords(readings, multiset(Texts(b.out)), words);
    WordsInOrder(b.rejected, |b.out|);
    hide RescueWords, Weave, InGapOrder, Orderly, Words, Texts, FinalCount, Illegible;
    forall w
      ensures InGapOrder(restored, 0, |b.out|)
      ensures CountIn(Texts(Weave(b.out, 0, restored)), w) == FinalCount(readings, b.out, words, w)
    {
      RescuedPage(readings, b.out, words, w);
    }
    RescueInOrder(readings, multiset(Texts(b.out)), words, |b.out|);
    var woven := InsertRestored(b.out, restored);
    WeaveAscends(b.out, 0, restored);
    toks := MarkIllegible(woven);
    MarkingKeeps(woven);
  }

  function OtherTokens(others: seq<Reading>): (r: seq<seq<string>>)
    ensures |r| == |others|
  {
    seq(|others|, i requires 0 <= i < |others| => others[i].tokens)
  }

  // ----- lines -----------------------------------------------------------------

  /** The tokens of one printed line. */
  datatype PrintedLine = PrintedLine(number: nat, tokens: seq<Token>)

  function Flat(lines: seq<PrintedLine>): seq<Token> {
    if lines == [] then [] else Flat(lines[..|lines| - 1]) + lines[|lines| - 1].tokens
  }

  ghost predicate Uniform(line: PrintedLine, lineOf: Token -> nat) {
    line.tokens != [] && forall t :: t in line.tokens ==> lineOf(t) == line.number
  }

  ghost predicate Grouped(lines: seq<PrintedLine>, toks: seq<Token>, lineOf: Token -> nat) {
    && Flat(lines) == toks
    && (forall k :: 0 <= k < |lines| ==> Uniform(lines[k], lineOf))
    && (toks != [] ==> lines != [] && lines[|lines| - 1].number == lineOf(toks[|toks| - 1]))
    && (toks == [] ==> lines == [])
  }

  lemma GroupOneMore(lines: seq<PrintedLine>, toks: seq<Token>, lineOf: Token -> nat, t: Token)
    requires Grouped(lines, toks, lineOf)
    ensures Grouped(lines + [PrintedLine(lineOf(t), [t])], toks + [t], lineOf)
    ensures lines != [] && lines[|lines| - 1].number == lineOf(t) ==>
              var n := |lines| - 1;
              Grouped(lines[n := lines[n].(tokens := lines[n].tokens + [t])], toks + [t], lineOf)
  {
    hide Flat;
    FlatOneMore(lines, PrintedLine(lineOf(t), [t]));
    if lines != [] && lines[|lines| - 1].number == lineOf(t) {
      var n := |lines| - 1;
      var grown := lines[n].(tokens := lines[n].tokens + [t]);
      FlatOneMore(lines[..n], lines[n]);
      FlatOneMore(lines[..n], grown);
      assert lines == lines[..n] + [lines[n]] && lines[n := grown] == lines[..n] + [grown];
    }
  }

  /** `group_lines` over `lineOf`: nothing is lost or reordered, no group is empty,
      and where the tokens' lines never step back each line has one group. */
  method GroupLines(toks: seq<Token>, lineOf: Token -> nat) returns (lines: seq<PrintedLine>)
    ensures Grouped(lines, toks, lineOf)
    ensures forall k :: 1 <= k < |lines| ==> lines[k].number != lines[k - 1].number
    ensures (forall i, j :: 0 <= i < j < |toks| ==> lineOf(toks[i]) <= lineOf(toks[j])) ==>
              forall k, l :: 0 <= k < l < |lines| ==> lines[k].number < lines[l].number
  {
    hide Grouped;
    lines := [];
    NoLines(lineOf);
    ghost var ascending := forall i, j :: 0 <= i < j < |toks| ==> lineOf(toks[i]) <= lineOf(toks[j]);
    for i := 0 to |toks|
      invariant Grouped(lines, toks[..i], lineOf)
      invariant forall k :: 1 <= k < |lines| ==> lines[k].number != lines[k - 1].number
      invariant ascending ==> forall k, l :: 0 <= k < l < |lines| ==> lines[k].number < lines[l].number
    {
      assert toks[..i + 1] == toks[..i] + [toks[i]];
      GroupOneMore(lines, toks[..i], lineOf, toks[i]);
      LastLine(lines, toks[..i], lineOf);
      if lines == [] || lines[|lines| - 1].number != lineOf(toks[i]) {
        lines := lines + [PrintedLine(lineOf(toks[i]), [toks[i]])];
      } else {
        var n := |lines| - 1;
        lines := lines[n := lines[n].(tokens := lines[n].tokens + [toks[i]])];
      }
    }
    assert toks[..|toks|] == toks;
  }

  lemma NoLines(lineOf: Token -> nat)
    ensures Grouped([], [], lineOf)
  {}

  lemma LastLine(lines: seq<PrintedLine>, toks: seq<Token>, lineOf: Token -> nat)
    requires Grouped(lines, toks, lineOf)
    ensures lines != [] ==> toks != [] && lines[|lines| - 1].number == lineOf(toks[|toks| - 1])
  {}

  lemma FlatOneMore(lines: seq<PrintedLine>, line: PrintedLine)
    ensures Flat(lines + [line]) == Flat(lines) + line.tokens
  {
    assert (lines + [line])[..|lines|] == lines;
  }
}

/** Joining words wrapped at a line break (`_dehyphenate`): one substitution pass
    over the characters, repeated at most eight times, and exactly how far that
    reaches. */
module Dehyphenate {
  import opened Common

  predicate IsLower(c: char) { 'a' <= c <= 'z' }

  predicate IsLetter(c: char) { IsLower(c) || 'A' <= c <= 'Z' }

  predicate IsBlank(c: char) { c == ' ' || c == '\t' }

  function Blanks(s: string): (n: nat)
    ensures n <= |s| && (forall i :: 0 <= i < n ==> IsBlank(s[i])) && (n < |s| ==> !IsBlank(s[n]))
  {
    if s == "" || !IsBlank(s[0]) then 0 else 1 + Blanks(s[1..])
  }

  /** The gap of a wrap: blanks holding at most one newline. */
  function Gap(s: string): (n: nat)
    ensures n <= |s| && forall i :: 0 <= i < n ==> IsBlank(s[i]) || s[i] == '\n'
  {
    var b := Blanks(s);
    if b < |s| && s[b] == '\n' then b + 1 + Blanks(s[b + 1..]) else b
  }

  /** What follows a hyphen is a gap and then a lowercase letter. */
  predicate Continues(s: string) { 0 < Gap(s) < |s| && IsLower(s[Gap(s)]) }

  /** ... or two lowercase letters, which is what the pattern asks for. */
  predicate Wrap(s: string) { Continues(s) && Gap(s) + 1 < |s| && IsLower(s[Gap(s) + 1]) }

  function Fragment(s: string): (n: nat)
    ensures n <= |s| && (forall i :: 0 <= i < n ==> IsLower(s[i])) && (n < |s| ==> !IsLower(s[n]))
  {
    if s == "" || !IsLower(s[0]) then 0 else 1 + Fragment(s[1..])
  }

  // ----- the vocabulary --------------------------------------------------------

  datatype Vocabulary = Vocabulary(solid: map<string, nat>, hyphenated: map<string, nat>)

  const MIN_FREQ := 3

  function LowerChar(c: char): (r: char)
    ensures if IsLetter(c) then IsLower(r) && (r == c || r as int == c as int + 32) else r == c
  {
    if 'A' <= c <= 'Z' then c - 'A' + 'a' else c
  }

  function Lower(s: string): (r: string)
    ensures |r| == |s| && forall i :: 0 <= i < |s| ==> r[i] == LowerChar(s[i])
  {
    seq(|s|, i requires 0 <= i < |s| => LowerChar(s[i]))
  }

  function Lookup(m: map<string, nat>, s: string): nat { if s in m then m[s] else 0 }

  /** The hyphen stays unless the joined form is mostly written as one word. */
  predicate KeepsHyphen(v: Vocabulary, a: string, b: string) {
    !(Lookup(v.solid, Lower(a + b)) >= MIN_FREQ
      && Lookup(v.solid, Lower(a + b)) > Lookup(v.hyphenated, Lower(a + "-" + b)))
  }

  type Rule = (string, string) -> bool

  /** The rule a vocabulary gives: the nested `repl`. */
  function RuleOf(v: Vocabulary): Rule { (a, b) => KeepsHyphen(v, a, b) }

  // ----- one pass --------------------------------------------------------------

  /** The leftmost, non-overlapping substitution. `word` holds the letters read since
      the last match or the last other character: a wrap is matched only after some. */
  function Pass(s: string, word: string, keep: Rule): string
    decreases |s|
  {
    if s == "" then ""
    else if s[0] == '-' && word != "" && Wrap(s[1..]) then
      var t := s[1 + Gap(s[1..])..];
      var b := t[..Fragment(t)];
      (if keep(word, b) then "-" else "") + b + Pass(t[Fragment(t)..], "", keep)
    else [s[0]] + Pass(s[1..], if IsLetter(s[0]) then word + [s[0]] else "", keep)
  }

  function Passes(s: string, keep: Rule, n: nat): string {
    if n == 0 then s else Pass(Passes(s, keep, n - 1), "", keep)
  }

  /** `_dehyphenate`. */
  method DehyphenateText(text0: string, v: Vocabulary) returns (text: string)
    ensures text == Passes(text0, RuleOf(v), 8)
  {
    hide Pass, RuleOf;
    var keep := RuleOf(v);
    text := text0;
    for k := 0 to 8
      invariant text == Passes(text0, keep, k)
    {
      var next := Pass(text, "", keep);
      if next == text {
        StaysFixed(text0, keep, k, 8);
        break;
      }
      text := next;
    }
  }

  lemma {:induction false} StaysFixed(s: string, keep: Rule, k: nat, n: nat)
    requires k <= n && Pass(Passes(s, keep, k), "", keep) == Passes(s, keep, k)
    ensures Passes(s, keep, n) == Passes(s, keep, k)
  {
    hide Pass;
    if k < n {
      StaysFixed(s, keep, k, n - 1);
    }
  }

  // ----- the parts of a match --------------------------------------------------

  ghost predicate AllLower(s: string) { forall i :: 0 <= i < |s| ==> IsLower(s[i]) }

  /** A match at the head of `s`; what follows its gap, and what follows that word. */
  ghost predicate Site(s: string, prev: bool) { s != "" && s[0] == '-' && prev && Wrap(s[1..]) }

  function Behind(s: string): string
    requires s != ""
  {
    s[1 + Gap(s[1..])..]
  }

  function Piece(s: string): string
    requires s != ""
  {
    Behind(s)[..Fragment(Behind(s))]
  }

  function Rest(s: string): string
    requires s != ""
  {
    Behind(s)[Fragment(Behind(s))..]
  }

  lemma SiteParts(s: string, prev: bool)
    requires Site(s, prev)
    ensures |Behind(s)| < |s| && |Rest(s)| < |s| && Behind(s) == Piece(s) + Rest(s)
    ensures Piece(s) != "" && AllLower(Piece(s)) && (Rest(s) != "" ==> !IsLower(Rest(s)[0]))
  {
    hide Gap;
    var t := Behind(s);
    assert t[0] == s[1..][Gap(s[1..])];
    assert t == t[..Fragment(t)] + t[Fragment(t)..];
  }

  lemma PassJoins(s: string, word: string, keep: Rule)
    requires Site(s, true) && word != ""
    ensures Pass(s, word, keep) == (if keep(word, Piece(s)) then "-" else "") + Piece(s) + Pass(Rest(s), "", keep)
  {
  }

  lemma PassOfNothing(s: string, word: string, keep: Rule)
    requires s == ""
    ensures Pass(s, word, keep) == ""
  {
  }

  lemma PassEmits(s: string, word: string, keep: Rule)
    requires s != "" && !(s[0] == '-' && word != "" && Wrap(s[1..]))
    ensures Pass(s, word, keep) == [s[0]] + Pass(s[1..], if IsLetter(s[0]) then word + [s[0]] else "", keep)
  {
  }

  // ----- a pass loses no ink ---------------------------------------------------

  function InkOf(c: char): (r: string)
    ensures r == "" <==> c == ' ' || c == '\t' || c == '\n' || c == '-'
    ensures r != "" ==> r == [c]
  {
    if IsBlank(c) || c == '\n' || c == '-' then "" else [c]
  }

  /** The characters a pass may not touch. */
  function Ink(s: string): string { if s == "" then "" else InkOf(s[0]) + Ink(s[1..]) }

  lemma InkCons(c: char, s: string)
    ensures Ink([c] + s) == InkOf(c) + Ink(s)
  {
    assert ([c] + s)[1..] == s;
  }

  lemma {:induction false} InkSplits(s: string, t: string)
    ensures Ink(s + t) == Ink(s) + Ink(t)
  {
    if s == "" {
      assert s + t == t;
    } else {
      hide Ink, InkOf;
      var head, tail := s[0], s[1..];
      assert s == [head] + tail && s + t == [head] + (tail + t);
      InkSplits(tail, t);
      InkCons(head, tail);
      InkCons(head, tail + t);
      Assoc(InkOf(s[0]), Ink(s[1..]), Ink(t));
    }
  }

  lemma {:induction false} GapHasNoInk(s: string, n: nat)
    requires n <= |s| && forall i :: 0 <= i < n ==> IsBlank(s[i]) || s[i] == '\n'
    ensures Ink(s[n..]) == Ink(s)
  {
    if n > 0 {
      GapHasNoInk(s[1..], n - 1);
      assert s[1..][n - 1..] == s[n..];
    }
  }

  /** Every character that is no blank, newline or hyphen stays,
      in order. */
  lemma {:induction false} PassKeepsInk(s: string, word: string, keep: Rule)
    ensures Ink(Pass(s, word, keep)) == Ink(s)
    decreases |s|
  {
    hide Wrap, Behind, Rest, Ink, Pass;
    if s == "" {
      PassOfNothing(s, word, keep);
    } else if Site(s, true) && word != "" {
      SiteParts(s, true);
      PassKeepsInk(Rest(s), "", keep);
      JoinKeepsInk(s, word, keep);
    } else {
      var next := if IsLetter(s[0]) then word + [s[0]] else "";
      PassEmits(s, word, keep);
      PassKeepsInk(s[1..], next, keep);
      InkSplits([s[0]], s[1..]);
      InkSplits([s[0]], Pass(s[1..], next, keep));
      assert s == [s[0]] + s[1..];
    }
  }

  lemma JoinKeepsInk(s: string, word: string, keep: Rule)
    requires Site(s, true) && word != "" && Ink(Pass(Rest(s), "", keep)) == Ink(Rest(s))
    ensures Ink(Pass(s, word, keep)) == Ink(s)
  {
    SiteParts(s, true);
    PassJoins(s, word, keep);
    InkBehind(s);
    hide Ink, Pass, Site, Behind, Rest, Piece;
    InkSplits(Piece(s), Rest(s));
    InkOfJoin(Piece(s), Pass(Rest(s), "", keep), keep(word, Piece(s)));
  }

  lemma InkOfJoin(b: string, out: string, hyphen: bool)
    ensures Ink((if hyphen then "-" else "") + b + out) == Ink(b) + Ink(out)
  {
    hide Ink;
    InkSplits(b, out);
    if hyphen {
      assert "-" + b + out == "-" + (b + out);
      InkOfHyphen(b + out);
    } else {
      assert "" + b + out == b + out;
    }
  }

  lemma InkBehind(s: string)
    requires Site(s, true)
    ensures Ink(s) == Ink(Behind(s))
  {
    hide Ink, Gap, Wrap;
    var t := s[1..];
    assert s == "-" + t && t[Gap(t)..] == Behind(s);
    InkOfHyphen(t);
    GapHasNoInk(t, Gap(t));
  }

  lemma InkOfHyphen(s: string)
    ensures Ink("-" + s) == Ink(s)
  {
    assert ("-" + s)[1..] == s;
  }

  // ----- a pass deletes nothing but wraps --------------------------------------

  /** A wrap starts at position `h`; `prev` says whether a letter stands before `s`. */
  ghost predicate WrapAt(s: string, prev: bool, h: nat) {
    h < |s| && s[h] == '-' && (if h == 0 then prev else IsLetter(s[h - 1])) && Wrap(s[h + 1..])
  }

  /** Position `d` is the hyphen of a wrap or lies in its gap. */
  ghost predicate InWrap(s: string, prev: bool, d: nat) {
    exists h: nat :: WrapAt(s, prev, h) && h <= d <= h + Gap(s[h + 1..])
  }

  /** `s` less the marked positions. */
  function Less(s: string, cut: seq<bool>): string
    requires |cut| == |s|
  {
    if s == "" then "" else (if cut[0] then "" else [s[0]]) + Less(s[1..], cut[1..])
  }

  /** The positions a pass deletes: of each match the gap, and the hyphen where the
      joined form is solid. */
  ghost function CutBy(s: string, word: string, keep: Rule): (cut: seq<bool>)
    ensures |cut| == |s|
    decreases |s|
  {
    if s == "" then []
    else if Site(s, true) && word != "" then
      SiteParts(s, true);
      [!keep(word, Piece(s))] + (seq(Gap(s[1..]), i => true) + (seq(|Piece(s)|, i => false) + CutBy(Rest(s), "", keep)))
    else [false] + CutBy(s[1..], if IsLetter(s[0]) then word + [s[0]] else "", keep)
  }

  lemma {:induction false} LessSplits(s: string, t: string, a: seq<bool>, b: seq<bool>)
    requires |a| == |s| && |b| == |t|
    ensures Less(s + t, a + b) == Less(s, a) + Less(t, b)
  {
    if s == "" {
      assert s + t == t && a + b == b;
    } else {
      LessSplits(s[1..], t, a[1..], b);
      assert (s + t)[1..] == s[1..] + t && (a + b)[1..] == a[1..] + b;
      var head := if a[0] then "" else [s[0]];
      assert Less(s + t, a + b) == head + Less(s[1..] + t, a[1..] + b) && Less(s, a) == head + Less(s[1..], a[1..]);
      Assoc(head, Less(s[1..], a[1..]), Less(t, b));
    }
  }

  lemma {:induction false} LessAll(s: string, cut: seq<bool>, c: bool)
    requires |cut| == |s| && forall i :: 0 <= i < |cut| ==> cut[i] == c
    ensures Less(s, cut) == if c then "" else s
  {
    if s != "" {
      LessAll(s[1..], cut[1..], c);
    }
  }

  lemma ShiftedWrap(s: string, prev: bool, n: nat, d: nat)
    requires 1 <= n <= |s| && InWrap(s[n..], IsLetter(s[n - 1]), d)
    ensures InWrap(s, prev, d + n)
  {
    hide Wrap, Gap;
    var h: nat :| WrapAt(s[n..], IsLetter(s[n - 1]), h) && h <= d <= h + Gap(s[n..][h + 1..]);
    assert s[n..][h + 1..] == s[h + n + 1..];
    assert WrapAt(s, prev, h + n);
  }

  lemma SiteShape(s: string)
    requires Site(s, true)
    ensures |s| == 1 + Gap(s[1..]) + |Piece(s)| + |Rest(s)|
    ensures s == "-" + (s[1..1 + Gap(s[1..])] + (Piece(s) + Rest(s)))
    ensures Rest(s) == s[1 + Gap(s[1..]) + |Piece(s)|..] && IsLetter(s[Gap(s[1..]) + |Piece(s)|])
  {
    SiteParts(s, true);
    var g := Gap(s[1..]);
    assert Behind(s) == s[1 + g..] && s[0] == '-';
    assert IsLetter(Piece(s)[|Piece(s)| - 1]);
    hide Gap, Fragment, Behind, Piece, Rest, Site, AllLower;
    CutInThree(s, g, Piece(s), Rest(s));
  }

  lemma CutInThree(s: string, g: nat, b: string, r: string)
    requires 1 + g <= |s| && s[1 + g..] == b + r && b != "" && s[0] == '-'
    ensures |s| == 1 + g + |b| + |r| && s == "-" + (s[1..1 + g] + (b + r))
    ensures r == s[1 + g + |b|..] && s[g + |b|] == b[|b| - 1]
  {
    assert s == "-" + (s[1..1 + g] + s[1 + g..]);
    assert s[1 + g..][|b| - 1] == (b + r)[|b| - 1];
    assert s[1 + g..][|b|..] == s[1 + g + |b|..];
  }

  /** The output of a pass is its input with only these positions taken out, each the
      hyphen or in the gap of a wrap: nothing is added, and nothing else goes. */
  lemma {:induction false} PassDeletes(s: string, word: string, prev: bool, keep: Rule)
    requires word != "" ==> prev
    ensures Pass(s, word, keep) == Less(s, CutBy(s, word, keep))
    ensures forall d :: 0 <= d < |s| && CutBy(s, word, keep)[d] ==> InWrap(s, prev, d)
    decreases |s|
  {
    hide Pass, Wrap, Gap, InWrap, Piece, Rest, Behind;
    if s == "" {
      PassOfNothing(s, word, keep);
    } else if Site(s, true) && word != "" {
      SiteShape(s);
      SiteParts(s, true);
      PassDeletes(Rest(s), "", true, keep);
      JoinDeletes(s, word, keep);
    } else {
      var next := if IsLetter(s[0]) then word + [s[0]] else "";
      PassEmits(s, word, keep);
      PassDeletes(s[1..], next, IsLetter(s[0]), keep);
      var cut := CutBy(s, word, keep);
      assert cut[1..] == CutBy(s[1..], next, keep);
      forall d | 0 <= d < |s| && cut[d]
        ensures InWrap(s, prev, d)
      {
        assert cut[1..][d - 1];
        ShiftedWrap(s, prev, 1, d - 1);
      }
    }
  }

  lemma JoinDeletes(s: string, word: string, keep: Rule)
    requires Site(s, true) && word != ""
    requires Pass(Rest(s), "", keep) == Less(Rest(s), CutBy(Rest(s), "", keep))
    requires forall d :: 0 <= d < |Rest(s)| && CutBy(Rest(s), "", keep)[d] ==> InWrap(Rest(s), true, d)
    ensures Pass(s, word, keep) == Less(s, CutBy(s, word, keep))
    ensures forall d :: 0 <= d < |s| && CutBy(s, word, keep)[d] ==> InWrap(s, true, d)
  {
    hide Pass, Gap, Piece, Rest, Behind, Wrap, CutBy, Less, InWrap, Fragment;
    SiteShape(s);
    SiteParts(s, true);
    PassJoins(s, word, keep);
    JoinCut(s, word, keep);
    assert s[1 + Gap(s[1..]) + |Piece(s)|..] == Rest(s);
    JoinCutText(s, word, keep);
    CutInWraps(s, CutBy(s, word, keep), !keep(word, Piece(s)), CutBy(Rest(s), "", keep), Gap(s[1..]), |Piece(s)|);
  }

  lemma JoinCut(s: string, word: string, keep: Rule)
    requires Site(s, true) && word != ""
    ensures |s| == 1 + (Gap(s[1..]) + (|Piece(s)| + |Rest(s)|))
    ensures CutBy(s, word, keep)
         == [!keep(word, Piece(s))] + (seq(Gap(s[1..]), i => true)
             + (seq(|Piece(s)|, i => false) + CutBy(Rest(s), "", keep)))
  {
    hide Gap;
    SiteShape(s);
  }

  lemma JoinCutText(s: string, word: string, keep: Rule)
    requires Site(s, true) && word != ""
    ensures Less(s, CutBy(s, word, keep))
         == (if keep(word, Piece(s)) then "-" else "") + Piece(s) + Less(Rest(s), CutBy(Rest(s), "", keep))
  {
    SiteShape(s);
    JoinCut(s, word, keep);
    var g, b, rest := Gap(s[1..]), Piece(s), Rest(s);
    var kept, tail := keep(word, b), CutBy(rest, "", keep);
    var gap, piece := seq(g, i => true), seq(|b|, i => false);
    var gapText := s[1..1 + g];
    hide Less, Gap, Piece, Rest, CutBy, Site;
    assert |gapText| == |gap| && |piece| == |b| && |tail| == |rest|;
    LessKeeps(b, rest, piece, tail);
    LessDrops(gapText, b + rest, gap, piece + tail);
    LessHead('-', gapText + (b + rest), !kept, gap + (piece + tail));
    Assoc(if kept then "-" else "", b, Less(rest, tail));
  }

  lemma LessHead(c: char, s: string, gone: bool, cut: seq<bool>)
    requires |cut| == |s|
    ensures Less([c] + s, [gone] + cut) == (if gone then "" else [c]) + Less(s, cut)
  {
    assert ([c] + s)[1..] == s && ([gone] + cut)[1..] == cut;
  }

  lemma LessDrops(s: string, t: string, cut: seq<bool>, rest: seq<bool>)
    requires |cut| == |s| && |rest| == |t| && forall i :: 0 <= i < |cut| ==> cut[i]
    ensures Less(s + t, cut + rest) == Less(t, rest)
  {
    LessSplits(s, t, cut, rest);
    LessAll(s, cut, true);
    assert "" + Less(t, rest) == Less(t, rest);
  }

  lemma LessKeeps(s: string, t: string, cut: seq<bool>, rest: seq<bool>)
    requires |cut| == |s| && |rest| == |t| && forall i :: 0 <= i < |cut| ==> !cut[i]
    ensures Less(s + t, cut + rest) == s + Less(t, rest)
  {
    LessSplits(s, t, cut, rest);
    LessAll(s, cut, false);
  }

  lemma CutInWraps(s: string, cut: seq<bool>, gone: bool, tail: seq<bool>, g: nat, m: nat)
    requires Site(s, true) && g == Gap(s[1..]) && |s| == 1 + (g + (m + |tail|)) && m > 0
    requires cut == [gone] + (seq(g, i => true) + (seq(m, i => false) + tail))
    requires IsLetter(s[g + m])
    requires forall d :: 0 <= d < |tail| && tail[d] ==> InWrap(s[1 + g + m..], true, d)
    ensures forall d :: 0 <= d < |s| && cut[d] ==> InWrap(s, true, d)
  {
    hide Wrap, Gap, InWrap;
    forall d | 0 <= d < |s| && cut[d]
      ensures InWrap(s, true, d)
    {
      if d <= g {
        FirstWrap(s, d);
      } else {
        assert d >= 1 + g + m && tail[d - (1 + g + m)];
        ShiftedWrap(s, true, 1 + g + m, d - (1 + g + m));
      }
    }
  }

  lemma FirstWrap(s: string, d: nat)
    requires Site(s, true) && d <= Gap(s[1..])
    ensures InWrap(s, true, d)
  {
    hide Gap, Wrap;
    assert WrapAt(s, true, 0);
  }

  // ----- runs of adjacent wraps ------------------------------------------------

  /** A hyphen whose continuation is one letter: no wrap, unless a later pass makes the
      letter part of a longer word. */
  ghost predicate Weak(s: string, prev: bool) {
    s != "" && s[0] == '-' && prev && Continues(s[1..]) && !Wrap(s[1..])
  }

  /** The weight of the heaviest run of hyphens in `s`, each one's continuation ending
      where the next begins.  A wrap weighs 1, and the weak hyphens in front of one 2, 4,
      8 and so on, counted back from it; `soft` is what a wrap here adds with them.  `cur`
      is the weight up to the letters read so far; `prev` says whether one was read last. */
  function Run(s: string, prev: bool, cur: nat, soft: nat): nat
    decreases |s|
  {
    if s == "" then cur
    else if s[0] == '-' && prev && Wrap(s[1..]) then Run(s[1 + Gap(s[1..])..], false, cur + soft, 1)
    else if s[0] == '-' && prev && Continues(s[1..]) then Run(s[1 + Gap(s[1..])..], false, cur, 2 * soft + 1)
    else if IsLower(s[0]) then Run(s[1..], true, cur, soft)
    else Max(cur, Run(s[1..], IsLetter(s[0]), 0, 1))
  }

  lemma {:induction false} RunGrows(s: string, prev: bool, cur: nat, soft: nat)
    ensures Run(s, prev, cur, soft) >= cur
    decreases |s|
  {
    hide Wrap, Continues, Gap;
    if s == "" {
    } else if s[0] == '-' && prev && Wrap(s[1..]) {
      RunGrows(s[1 + Gap(s[1..])..], false, cur + soft, 1);
    } else if s[0] == '-' && prev && Continues(s[1..]) {
      RunGrows(s[1 + Gap(s[1..])..], false, cur, 2 * soft + 1);
    } else if IsLower(s[0]) {
      RunGrows(s[1..], true, cur, soft);
    }
  }

  lemma {:induction false} RunThroughLower(b: string, rest: string, prev: bool, cur: nat, soft: nat)
    requires AllLower(b) && b != ""
    ensures Run(b + rest, prev, cur, soft) == Run(rest, true, cur, soft)
    decreases |b|
  {
    hide Wrap, Continues, Gap;
    assert (b + rest)[1..] == b[1..] + rest;
    if |b| > 1 {
      RunThroughLower(b[1..], rest, true, cur, soft);
    } else {
      assert b[1..] + rest == rest;
    }
  }

  lemma RunOfNothing(s: string, prev: bool, cur: nat, soft: nat)
    requires s == ""
    ensures Run(s, prev, cur, soft) == cur
  {
  }

  lemma RunOfSite(s: string, cur: nat, soft: nat)
    requires Site(s, true)
    ensures Run(s, true, cur, soft) == Run(Behind(s), false, cur + soft, 1)
  {
    hide Wrap, Continues, Gap;
  }

  lemma RunOfWeak(s: string, cur: nat, soft: nat)
    requires Weak(s, true)
    ensures Run(s, true, cur, soft) == Run(Behind(s), false, cur, 2 * soft + 1)
  {
    hide Wrap, Continues, Gap;
  }

  /** A text that a pass changes. */
  ghost predicate HasWrap(s: string, prev: bool) {
    s != "" && (Site(s, prev) || HasWrap(s[1..], IsLetter(s[0])))
  }

  lemma {:induction false} NoWrapInGap(s: string, n: nat)
    requires n <= |s| && forall i :: 0 <= i < n ==> IsBlank(s[i]) || s[i] == '\n'
    ensures HasWrap(s, false) <==> HasWrap(s[n..], false)
  {
    hide Wrap;
    if n == 0 {
      assert s[n..] == s;
    } else {
      NoWrapInGap(s[1..], n - 1);
      assert s[1..][n - 1..] == s[n..];
    }
  }

  /** A text weighs nothing exactly when it holds no wrap. */
  lemma {:induction false} WeighsNothing(s: string, prev: bool, cur: nat, soft: nat)
    requires soft >= 1
    ensures Run(s, prev, cur, soft) == 0 <==> cur == 0 && !HasWrap(s, prev)
    decreases |s|
  {
    hide Wrap, Continues, Run, Gap;
    if s == "" {
      RunOfNothing(s, prev, cur, soft);
    } else if Site(s, prev) {
      RunOfSite(s, cur, soft);
      RunGrows(Behind(s), false, cur + soft, 1);
    } else if Weak(s, prev) {
      RunOfWeak(s, cur, soft);
      NoWrapInGap(s[1..], Gap(s[1..]));
      assert s[1..][Gap(s[1..])..] == Behind(s);
      WeighsNothing(Behind(s), false, cur, 2 * soft + 1);
    } else {
      RunOfOther(s, prev, cur, soft);
      WeighsNothing(s[1..], IsLetter(s[0]), if IsLower(s[0]) then cur else 0, if IsLower(s[0]) then soft else 1);
    }
  }

  lemma RunOfOther(s: string, prev: bool, cur: nat, soft: nat)
    requires s != "" && !Site(s, prev) && !Weak(s, prev)
    ensures Run(s, prev, cur, soft) == if IsLower(s[0]) then Run(s[1..], true, cur, soft)
                                       else Max(cur, Run(s[1..], IsLetter(s[0]), 0, 1))
  {
    hide Wrap, Continues;
  }

  // ----- what a pass leaves in front ------------------------------------------

  lemma {:induction false} PassThroughGap(s: string, n: nat, keep: Rule)
    requires n <= |s| && forall i :: 0 <= i < n ==> IsBlank(s[i]) || s[i] == '\n'
    ensures Pass(s, "", keep) == s[..n] + Pass(s[n..], "", keep)
  {
    hide Pass, Wrap;
    if n == 0 {
      assert s[n..] == s;
    } else {
      PassEmits(s, "", keep);
      PassThroughGap(s[1..], n - 1, keep);
      assert s[1..][n - 1..] == s[n..] && [s[0]] + s[1..][..n - 1] == s[..n];
    }
  }

  lemma PassKeepsFront(s: string, keep: Rule)
    requires s != ""
    ensures Pass(s, "", keep) != "" && Pass(s, "", keep)[0] == s[0]
    ensures |s| >= 2 && IsLower(s[1]) ==> |Pass(s, "", keep)| >= 2 && Pass(s, "", keep)[1] == s[1]
  {
  }

  lemma {:induction false} BlanksDecide(s: string, t: string)
    requires var n := Blanks(s); n <= |t| && s[..n] == t[..n] && (n < |t| ==> !IsBlank(t[n]))
    ensures Blanks(t) == Blanks(s)
  {
    if Blanks(s) > 0 {
      assert t[0] == s[..Blanks(s)][0];
      assert s[1..][..Blanks(s) - 1] == s[..Blanks(s)][1..] == t[..Blanks(s)][1..] == t[1..][..Blanks(s) - 1];
      BlanksDecide(s[1..], t[1..]);
    }
  }

  lemma SlicesAgree(s: string, t: string, n: nat, lo: nat, hi: nat)
    requires n <= |s| && n <= |t| && s[..n] == t[..n] && lo <= hi <= n
    ensures s[lo..][..hi - lo] == t[lo..][..hi - lo]
  {
    assert s[lo..][..hi - lo] == s[..n][lo..hi] && t[lo..][..hi - lo] == t[..n][lo..hi];
  }

  lemma GapDecides(s: string, t: string)
    requires var n := Gap(s); n <= |t| && s[..n] == t[..n] && ((n < |s|) == (n < |t|)) && (n < |s| ==> s[n] == t[n])
    ensures Gap(t) == Gap(s)
  {
    hide Blanks;
    var n, b := Gap(s), Blanks(s);
    assert b < n ==> s[..n][b] == s[b] && t[..n][b] == t[b];
    SlicesAgree(s, t, n, 0, b);
    assert s[0..] == s && t[0..] == t;
    BlanksDecide(s, t);
    if b < |s| && s[b] == '\n' {
      SlicesAgree(s, t, n, b + 1, n);
      BlanksDecide(s[b + 1..], t[b + 1..]);
    }
  }

  /** What stands behind a hyphen opens the same wrap after the pass. */
  lemma PassKeepsWrap(s: string, keep: Rule)
    ensures Gap(Pass(s, "", keep)) == Gap(s)
    ensures Pass(s, "", keep)[Gap(s)..] == Pass(s[Gap(s)..], "", keep)
    ensures Continues(Pass(s, "", keep)) == Continues(s)
    ensures Wrap(s) ==> Wrap(Pass(s, "", keep))
  {
    hide Pass, Gap;
    var n, t := Gap(s), Pass(s, "", keep);
    PassThroughGap(s, n, keep);
    assert t[..n] == s[..n] && t[n..] == Pass(s[n..], "", keep);
    if n < |s| {
      PassKeepsFront(s[n..], keep);
      assert t[n] == t[n..][0] && s[n] == s[n..][0];
      if n + 1 < |s| && IsLower(s[n + 1]) {
        assert s[n + 1] == s[n..][1];
        assert t[n + 1] == t[n..][1];
      }
    } else {
      assert Pass(s[n..], "", keep) == "" by { PassOfNothing(s[n..], "", keep); }
    }
    GapDecides(s, t);
  }

  // ----- each pass halves the runs ---------------------------------------------

  /** Nothing here reads on with a lowercase letter, and no wrap starts here. */
  ghost predicate Quiet(s: string) { s == "" || (!IsLower(s[0]) && !Site(s, true)) }

  /** How the weights leading up to here compare: before the pass (`cur`) and after it
      (`left`).  Right behind a match one more wrap has gone; behind a weak hyphen the
      letter has no wrap behind it. */
  ghost predicate Halved(s: string, word: string, prev: bool, cur: nat, soft: nat, left: nat) {
    && (word != "" ==> prev) && soft >= 1
    && (if word == "" && prev then 2 * left + 1 <= cur && soft == 1 && (s != "" ==> !IsLower(s[0]))
        else 2 * left <= cur && (soft > 1 ==> Quiet(s)))
  }

  lemma JoinHalves(s: string, word: string, cur: nat, left: nat, keep: Rule)
    requires Site(s, true) && word != "" && 2 * left <= cur
    requires 2 * Run(Pass(Rest(s), "", keep), true, left, 1) <= Run(Rest(s), true, cur + 1, 1)
    requires 2 * Run(Pass(Rest(s), "", keep), true, 0, 1) <= Run(Rest(s), true, cur + 1, 1)
    ensures 2 * Run(Pass(s, word, keep), true, left, 1) <= Run(s, true, cur, 1)
  {
    hide Pass, Behind, Rest, Piece, Run, Site;
    SiteParts(s, true);
    RunOfSite(s, cur, 1);
    PassJoins(s, word, keep);
    var b, out := Piece(s), Pass(Rest(s), "", keep);
    RunThroughLower(b, Rest(s), false, cur + 1, 1);
    RunGrows(Rest(s), true, cur + 1, 1);
    RunThroughLower(b, out, true, left, 1);
    RunThroughLower(b, out, false, 0, 1);
    assert "" + b + out == b + out;
    assert "-" + b + out == "-" + (b + out);
    HyphenKept(b, out, left, 1);
  }

  lemma HyphenKept(b: string, out: string, left: nat, soft: nat)
    requires b != "" && AllLower(b)
    ensures Run("-" + (b + out), true, left, soft) == Max(left, Run(b + out, false, 0, 1))
  {
    assert ("-" + (b + out))[1..] == b + out && (b + out)[0] == b[0];
  }

  lemma SkipHalves(s: string, cur: nat, left: nat, keep: Rule)
    requires Site(s, true)
    requires 2 * Run(Pass(Behind(s), "", keep), false, left + 1, 1) <= Run(Behind(s), false, cur + 1, 1)
    ensures 2 * Run(Pass(s, "", keep), true, left, 1) <= Run(s, true, cur, 1)
  {
    hide Pass, Wrap, Gap, Run;
    RunOfSite(s, cur, 1);
    PassEmits(s, "", keep);
    PassKeepsWrap(s[1..], keep);
    var p := Pass(s[1..], "", keep);
    var out := ['-'] + p;
    assert out[1..] == p;
    assert Behind(out) == p[Gap(p)..] && Behind(s) == s[1..][Gap(s[1..])..];
    RunOfSite(out, left, 1);
  }

  // ----- a weak hyphen ---------------------------------------------------------

  lemma WeakParts(s: string)
    requires Weak(s, true)
    ensures Behind(s) != "" && |Behind(s)| < |s| && IsLower(Behind(s)[0]) && AllLower([Behind(s)[0]])
    ensures |Behind(s)| > 1 ==> !IsLower(Behind(s)[1])
    ensures Behind(s) == [Behind(s)[0]] + Behind(s)[1..]
  {
    hide Gap;
    var t := Behind(s);
    assert t[0] == s[1..][Gap(s[1..])];
    assert |t| > 1 ==> t[1] == s[1..][Gap(s[1..]) + 1];
  }

  lemma WeakPass(s: string, word: string, keep: Rule)
    requires Weak(s, true) && Behind(s) != ""
    ensures var p := Pass(s[1..], "", keep);
            && Pass(s, word, keep) == ['-'] + p && Continues(p)
            && p[Gap(p)..] == [Behind(s)[0]] + Pass(Behind(s)[1..], [Behind(s)[0]], keep)
  {
    WeakParts(s);
    var t := Behind(s);
    hide Gap, Wrap, Continues;
    PassEmits(s, word, keep);
    PassEmits(t, "", keep);
    hide Pass, Weak;
    PassKeepsWrap(s[1..], keep);
    assert s[1..][Gap(s[1..])..] == t;
    assert "" + [t[0]] == [t[0]];
  }

  lemma HyphenShape(p: string, b: string, q: string)
    requires Continues(p) && p[Gap(p)..] == b + q && |b| == 1
    ensures var out := ['-'] + p;
            && (Site(out, true) || Weak(out, true)) && Behind(out) == b + q
            && (Site(out, true) <==> q != "" && IsLower(q[0]))
  {
    hide Gap;
    var out := ['-'] + p;
    assert out[1..] == p && Behind(out) == p[Gap(p)..];
    assert |p| == Gap(p) + 1 + |q|;
    assert q != "" ==> p[Gap(p) + 1] == p[Gap(p)..][1] == q[0];
  }

  /** What a pass leaves of a weak hyphen and its letter: a wrap exactly when the
      letter reads on. */
  lemma WeakOut(s: string, word: string, keep: Rule)
    requires Weak(s, true)
    ensures Behind(s) != ""
    ensures var b := [Behind(s)[0]];
            var out, q := Pass(s, word, keep), Pass(Behind(s)[1..], b, keep);
            && (Site(out, true) || Weak(out, true)) && Behind(out) == b + q
            && (Site(out, true) <==> q != "" && IsLower(q[0]))
  {
    WeakParts(s);
    WeakPass(s, word, keep);
    hide Pass, Gap, Weak, Site, Continues;
    HyphenShape(Pass(s[1..], "", keep), [Behind(s)[0]], Pass(Behind(s)[1..], [Behind(s)[0]], keep));
  }

  /** No wrap behind the letter: the hyphen stays weak. */
  lemma WeakStays(s: string, word: string, cur: nat, soft: nat, left: nat, keep: Rule)
    requires Weak(s, true) && Behind(s) != "" && Quiet(Behind(s)[1..])
    requires 2 * Run(Pass(Behind(s)[1..], [Behind(s)[0]], keep), true, left, 2 * soft + 1)
          <= Run(Behind(s)[1..], true, cur, 2 * soft + 1)
    ensures 2 * Run(Pass(s, word, keep), true, left, soft) <= Run(s, true, cur, soft)
  {
    var b, rest := [Behind(s)[0]], Behind(s)[1..];
    WeakParts(s);
    WeakOut(s, word, keep);
    RunOfWeak(s, cur, soft);
    var out, q := Pass(s, word, keep), Pass(rest, b, keep);
    if rest == "" {
      PassOfNothing(rest, b, keep);
    } else {
      PassEmits(rest, b, keep);
    }
    hide Pass, Run, Wrap, Continues, Behind;
    RunOfWeak(out, left, soft);
    RunThroughLower(b, rest, false, cur, 2 * soft + 1);
    RunThroughLower(b, q, false, left, 2 * soft + 1);
  }

  /** A wrap behind the letter is matched, whatever stood before: the weak hyphen gives
      a wrap of half the weight, or none where a hyphen is kept. */
  lemma WeakJoins(s: string, word: string, cur: nat, soft: nat, left: nat, keep: Rule, next: string, tail: string)
    requires Weak(s, true) && Behind(s) != "" && next == Behind(s)[1..] && Site(next, true) && 2 * left <= cur
    requires tail == Pass(Rest(next), "", keep)
    requires 2 * Run(tail, true, left + soft, 1) <= Run(Rest(next), true, cur + (2 * soft + 1), 1)
    requires 2 * Run(tail, true, 0, 1) <= Run(Rest(next), true, cur + (2 * soft + 1), 1)
    ensures 2 * Run(Pass(s, word, keep), true, left, soft) <= Run(s, true, cur, soft)
  {
    hide Run, Wrap, Continues, Gap, Weak, Behind;
    WeakParts(s);
    WeakSum(s, [Behind(s)[0]], next, cur, soft);
    RunGrows(Rest(next), true, cur + (2 * soft + 1), 1);
    WeakJoinOut(s, word, soft, left, keep, next);
  }

  lemma WeakJoinOut(s: string, word: string, soft: nat, left: nat, keep: Rule, next: string)
    requires Weak(s, true) && Behind(s) != "" && next == Behind(s)[1..] && Site(next, true)
    ensures var tail := Pass(Rest(next), "", keep);
            Run(Pass(s, word, keep), true, left, soft) ==
            if keep([Behind(s)[0]], Piece(next))
                then Max(left, Run(tail, true, 0, 1)) else Run(tail, true, left + soft, 1)
  {
    var b := [Behind(s)[0]];
    WeakParts(s);
    PassJoins(next, b, keep);
    SiteParts(next, true);
    hide Pass, Run, Behind, Rest, Piece, Site, Weak;
    WeakOut(s, word, keep);
    WeakJoined(Pass(s, word, keep), b, Piece(next), Pass(Rest(next), "", keep), keep(b, Piece(next)), soft, left);
  }

  lemma SumThrough(b: string, next: string, piece: string, rest: string, cur: nat, soft: nat)
    requires b != "" && AllLower(b) && Site(next, true)
    requires Behind(next) == piece + rest && piece != "" && AllLower(piece)
    ensures Run(b + next, false, cur, soft) == Run(rest, true, cur + soft, 1)
  {
    hide Run, Behind, Site, AllLower;
    RunThroughLower(b, next, false, cur, soft);
    RunOfSite(next, cur, soft);
    RunThroughLower(piece, rest, false, cur + soft, 1);
  }

  /** Before the pass the weak hyphen and the wrap weigh twice `soft` and one more. */
  lemma WeakSum(s: string, b: string, next: string, cur: nat, soft: nat)
    requires Weak(s, true) && Behind(s) == b + next && b != "" && AllLower(b) && Site(next, true)
    ensures Run(s, true, cur, soft) == Run(Rest(next), true, cur + (2 * soft + 1), 1)
  {
    hide Run, Behind, Rest, Piece, Weak, AllLower, Wrap;
    SiteParts(next, true);
    RunOfWeak(s, cur, soft);
    SumThrough(b, next, Piece(next), Rest(next), cur, 2 * soft + 1);
  }

  lemma WeakJoined(out: string, b: string, piece: string, tail: string, hyphen: bool, soft: nat, left: nat)
    requires var q := (if hyphen then "-" else "") + piece + tail;
             && (Site(out, true) || Weak(out, true)) && Behind(out) == b + q
             && (Site(out, true) <==> q != "" && IsLower(q[0]))
    requires |b| == 1 && AllLower(b) && piece != "" && AllLower(piece)
    ensures Run(out, true, left, soft) ==
            if hyphen then Max(left, Run(tail, true, 0, 1)) else Run(tail, true, left + soft, 1)
  {
    hide Run, Site, Weak, Behind;
    if hyphen {
      assert "-" + piece + tail == "-" + (piece + tail);
      RunOfWeak(out, left, soft);
      RunThroughLower(b, "-" + (piece + tail), false, left, 2 * soft + 1);
      HyphenKept(piece, tail, left, 2 * soft + 1);
      RunThroughLower(piece, tail, false, 0, 1);
    } else {
      assert "" + piece + tail == piece + tail;
      RunOfSite(out, left, soft);
      RunThroughLower(b, piece + tail, false, left + soft, 1);
      RunThroughLower(piece, tail, true, left + soft, 1);
    }
  }

  lemma EmitHalves(c: char, s: string, out: string, prev: bool, cur: nat, soft: nat, left: nat)
    requires 2 * left <= cur && (c == '-' && prev ==> !Continues(s) && !Continues(out))
    requires if IsLower(c) then 2 * Run(out, true, left, soft) <= Run(s, true, cur, soft)
             else 2 * Run(out, IsLetter(c), 0, 1) <= Run(s, IsLetter(c), 0, 1)
    ensures 2 * Run([c] + out, prev, left, soft) <= Run([c] + s, prev, cur, soft)
  {
    hide Continues, Gap;
    assert ([c] + out)[1..] == out && ([c] + s)[1..] == s;
  }

  /** A pass at least halves the weight of the heaviest run, whatever the vocabulary. */
  lemma {:induction false} PassHalves(s: string, word: string, prev: bool, cur: nat, soft: nat, left: nat, keep: Rule)
    requires Halved(s, word, prev, cur, soft, left)
    ensures 2 * Run(Pass(s, word, keep), prev, left, soft) <= Run(s, prev, cur, soft)
    decreases |s|
  {
    hide Run, Pass, Wrap, Continues, Rest, Behind;
    if s == "" {
      PassOfNothing(s, word, keep);
      RunOfNothing(s, prev, cur, soft);
      RunOfNothing(s, prev, left, soft);
    } else if Site(s, prev) {
      SiteParts(s, prev);
      if word != "" {
        PassHalves(Rest(s), "", true, cur + 1, 1, left, keep);
        PassHalves(Rest(s), "", true, cur + 1, 1, 0, keep);
        JoinHalves(s, word, cur, left, keep);
      } else {
        PassHalves(Behind(s), "", false, cur + 1, 1, left + 1, keep);
        SkipHalves(s, cur, left, keep);
      }
    } else if Weak(s, prev) {
      WeakParts(s);
      var next := Behind(s)[1..];
      if Site(next, true) {
        SiteParts(next, true);
        PassHalves(Rest(next), "", true, cur + (2 * soft + 1), 1, left + soft, keep);
        PassHalves(Rest(next), "", true, cur + (2 * soft + 1), 1, 0, keep);
        WeakJoins(s, word, cur, soft, left, keep, next, Pass(Rest(next), "", keep));
      } else {
        PassHalves(next, [Behind(s)[0]], true, cur, 2 * soft + 1, left, keep);
        WeakStays(s, word, cur, soft, left, keep);
      }
    } else {
      var c := s[0];
      var next := if IsLetter(c) then word + [c] else "";
      PassEmits(s, word, keep);
      if IsLower(c) {
        PassHalves(s[1..], next, true, cur, soft, left, keep);
      } else {
        PassHalves(s[1..], next, IsLetter(c), 0, 1, 0, keep);
      }
      if c == '-' && prev {
        PassKeepsWrap(s[1..], keep);
      }
      EmitHalves(c, s[1..], Pass(s[1..], next, keep), prev, cur, soft, left);
      assert s == [c] + s[1..];
    }
  }

  // ----- texts without weak hyphens --------------------------------------------

  /** Every wrap's continuation has two or more lowercase letters. */
  ghost predicate Robust(s: string, prev: bool) {
    s == "" || ((s[0] == '-' && prev && Continues(s[1..]) ==> Wrap(s[1..])) && Robust(s[1..], IsLetter(s[0])))
  }

  /** The number of wraps in the longest run of them. */
  function Wraps(s: string, prev: bool, cur: nat): nat
    decreases |s|
  {
    if s == "" then cur
    else if s[0] == '-' && prev && Wrap(s[1..]) then Wraps(s[1 + Gap(s[1..])..], false, cur + 1)
    else if IsLower(s[0]) then Wraps(s[1..], true, cur)
    else Max(cur, Wraps(s[1..], IsLetter(s[0]), 0))
  }

  lemma {:induction false} RobustTail(s: string, prev: bool, n: nat)
    requires Robust(s, prev) && n <= |s|
    ensures Robust(s[n..], if n == 0 then prev else IsLetter(s[n - 1]))
  {
    hide Wrap, Continues;
    if n == 0 {
      assert s[n..] == s;
    } else {
      RobustTail(s[1..], IsLetter(s[0]), n - 1);
      assert s[1..][n - 1..] == s[n..];
    }
  }

  lemma RobustBehind(s: string, prev: bool)
    requires Site(s, prev) && Robust(s, prev)
    ensures Robust(Behind(s), false) && Robust(Rest(s), true)
  {
    hide Robust;
    var g, t := Gap(s[1..]), Behind(s);
    assert s[g] == s[1..][g - 1];
    RobustTail(s, prev, 1 + g);
    SiteParts(s, prev);
    RobustTail(t, false, Fragment(t));
  }

  /** Without weak hyphens the weight of a run is its number of wraps. */
  lemma {:induction false} RobustRun(s: string, prev: bool, cur: nat)
    requires Robust(s, prev)
    ensures Run(s, prev, cur, 1) == Wraps(s, prev, cur)
    decreases |s|
  {
    hide Wrap, Continues, Gap;
    if s == "" {
    } else if Site(s, prev) {
      RobustBehind(s, prev);
      RobustRun(Behind(s), false, cur + 1);
    } else {
      RobustRun(s[1..], IsLetter(s[0]), if IsLower(s[0]) then cur else 0);
    }
  }

  lemma {:induction false} RobustAfterLower(b: string, rest: string, prev: bool)
    requires AllLower(b) && b != "" && Robust(rest, true)
    ensures Robust(b + rest, prev)
  {
    hide Wrap, Continues;
    assert (b + rest)[1..] == b[1..] + rest;
    if |b| > 1 {
      RobustAfterLower(b[1..], rest, true);
    } else {
      assert b[1..] + rest == rest;
    }
  }

  lemma HyphenStaysShut(b: string, out: string)
    requires AllLower(b) && b != "" && Robust(b + out, false)
    ensures Robust("-" + (b + out), true)
  {
    hide Robust;
    assert ("-" + (b + out))[1..] == b + out && (b + out)[0] == b[0];
    assert Gap(b + out) == 0;
    RobustCons('-', b + out, true);
  }

  lemma RobustCons(c: char, s: string, prev: bool)
    requires Robust(s, IsLetter(c)) && (c == '-' && prev && Continues(s) ==> Wrap(s))
    ensures Robust([c] + s, prev)
  {
    hide Wrap, Continues;
    assert ([c] + s)[1..] == s;
  }

  /** A pass leaves no wrap with a one-letter continuation where there was none. */
  lemma {:induction false} PassKeepsRobust(s: string, word: string, prev: bool, keep: Rule)
    requires Robust(s, prev) && (word != "" ==> prev)
    ensures Robust(Pass(s, word, keep), prev)
    decreases |s|
  {
    hide Pass, Wrap, Continues, Robust, Rest, Behind, Piece;
    if s == "" {
      PassOfNothing(s, word, keep);
    } else if Site(s, true) && word != "" {
      SiteParts(s, true);
      RobustBehind(s, true);
      PassKeepsRobust(Rest(s), "", true, keep);
      JoinKeepsRobust(s, word, keep);
    } else {
      var next := if IsLetter(s[0]) then word + [s[0]] else "";
      RobustTail(s, prev, 1);
      PassEmits(s, word, keep);
      PassKeepsRobust(s[1..], next, IsLetter(s[0]), keep);
      if s[0] == '-' && prev {
        RobustHead(s, prev);
        PassKeepsWrap(s[1..], keep);
      }
      RobustCons(s[0], Pass(s[1..], next, keep), prev);
    }
  }

  lemma RobustHead(s: string, prev: bool)
    requires Robust(s, prev) && s != "" && s[0] == '-' && prev
    ensures Continues(s[1..]) ==> Wrap(s[1..])
  {
  }

  lemma JoinKeepsRobust(s: string, word: string, keep: Rule)
    requires Site(s, true) && word != "" && Robust(Pass(Rest(s), "", keep), true)
    ensures Robust(Pass(s, word, keep), true)
  {
    SiteParts(s, true);
    PassJoins(s, word, keep);
    hide Pass, Robust, Rest, Behind, Piece, Site;
    RobustJoin(Piece(s), Pass(Rest(s), "", keep), keep(word, Piece(s)));
  }

  lemma RobustJoin(b: string, out: string, hyphen: bool)
    requires AllLower(b) && b != "" && Robust(out, true)
    ensures Robust((if hyphen then "-" else "") + b + out, true)
  {
    hide Robust;
    if hyphen {
      assert "-" + b + out == "-" + (b + out);
      RobustAfterLower(b, out, false);
      HyphenStaysShut(b, out);
    } else {
      assert "" + b + out == b + out;
      RobustAfterLower(b, out, true);
    }
  }

  // ----- a text without wraps is a fixpoint ------------------------------------

  /** A pass changes a text exactly when it holds a wrap, and then shortens it. */
  lemma {:induction false} PassShortens(s: string, word: string, prev: bool, keep: Rule)
    requires word != "" <==> prev
    ensures if HasWrap(s, prev) then |Pass(s, word, keep)| < |s| else Pass(s, word, keep) == s
    decreases |s|
  {
    hide Pass, Wrap, Rest, Behind, Piece;
    if s == "" {
      PassOfNothing(s, word, keep);
    } else if Site(s, prev) {
      PassNeverGrows(s, word, keep);
    } else {
      var next := if IsLetter(s[0]) then word + [s[0]] else "";
      PassEmits(s, word, keep);
      PassShortens(s[1..], next, IsLetter(s[0]), keep);
      assert s == [s[0]] + s[1..];
    }
  }

  lemma {:induction false} PassNeverGrows(s: string, word: string, keep: Rule)
    ensures |Pass(s, word, keep)| <= |s|
    ensures Site(s, true) && word != "" ==> |Pass(s, word, keep)| < |s|
    decreases |s|
  {
    hide Pass, Wrap, Rest, Behind, Piece, Gap;
    if s == "" {
      PassOfNothing(s, word, keep);
    } else if Site(s, true) && word != "" {
      SiteParts(s, true);
      PassJoins(s, word, keep);
      PassNeverGrows(Rest(s), "", keep);
      GapCounts(s);
    } else {
      PassEmits(s, word, keep);
      PassNeverGrows(s[1..], if IsLetter(s[0]) then word + [s[0]] else "", keep);
    }
  }

  lemma GapCounts(s: string)
    requires Site(s, true)
    ensures |Behind(s)| + 2 <= |s|
  {
    hide Gap;
  }

  // ----- eight passes ----------------------------------------------------------

  function Pow2(n: nat): nat { if n == 0 then 1 else 2 * Pow2(n - 1) }

  lemma {:induction false} PassesHalve(s: string, keep: Rule, n: nat)
    ensures Pow2(n) * Run(Passes(s, keep, n), false, 0, 1) <= Run(s, false, 0, 1)
  {
    hide Pass, Run;
    if n > 0 {
      PassesHalve(s, keep, n - 1);
      var t := Passes(s, keep, n - 1);
      PassHalves(t, "", false, 0, 1, 0, keep);
      Doubles(Pow2(n - 1), Run(t, false, 0, 1), Run(Pass(t, "", keep), false, 0, 1));
    }
  }

  lemma Doubles(p: nat, x: nat, y: nat)
    requires 2 * y <= x
    ensures (2 * p) * y <= p * x
  {
    assert (2 * p) * y == p * (2 * y);
  }

  /** Eight passes reach a true fixpoint on every text whose runs of adjacent hyphens
      weigh less than 256 each, whatever the vocabulary counts. */
  lemma EightPassesSuffice(s: string, keep: Rule)
    requires Run(s, false, 0, 1) < 256
    ensures !HasWrap(Passes(s, keep, 8), false)
    ensures Pass(Passes(s, keep, 8), "", keep) == Passes(s, keep, 8)
  {
    hide Pass, Run, Passes, Pow2, HasWrap;
    PassesHalve(s, keep, 8);
    assert Pow2(8) == 256 by { TwoToTheEighth(); }
    WeighsNothing(Passes(s, keep, 8), false, 0, 1);
    PassShortens(Passes(s, keep, 8), "", false, keep);
  }

  lemma TwoToTheEighth()
    ensures Pow2(8) == 256
  {
    assert Pow2(4) == 16;
    assert Pow2(8) == 2 * (2 * (2 * (2 * Pow2(4))));
  }

  // ----- the bound is exact ----------------------------------------------------

  /** One run of adjacent wraps. */
  function Chained(words: seq<string>): string
    requires words != []
  {
    if |words| == 1 then words[0] else words[0] + "- " + Chained(words[1..])
  }

  ghost predicate Words(words: seq<string>) {
    words != [] && forall i :: 0 <= i < |words| ==> AllLower(words[i]) && |words[i]| >= 2
  }

  function Merge(words: seq<string>): (r: seq<string>)
    ensures |r| == (|words| + 1) / 2
    decreases |words|
  {
    if |words| < 2 then words else [words[0] + words[1]] + Merge(words[2..])
  }

  lemma {:induction false} MergeKeepsWords(words: seq<string>)
    requires words == [] || Words(words)
    ensures Merge(words) == [] || Words(Merge(words))
    decreases |words|
  {
    if |words| >= 2 {
      MergeKeepsWords(words[2..]);
    }
  }

  ghost predicate AllLetters(s: string) {
    forall i :: 0 <= i < |s| ==> 'a' <= s[i] <= 'z' || 'A' <= s[i] <= 'Z'
  }

  lemma {:induction false} PassThroughLetters(b: string, t: string, word: string, keep: Rule)
    requires AllLetters(b)
    ensures Pass(b + t, word, keep) == b + Pass(t, word + b, keep)
    decreases |b|
  {
    hide Pass, Wrap;
    if b == "" {
      assert b + t == t && word + b == word;
    } else {
      PassEmits(b + t, word, keep);
      assert (b + t)[1..] == b[1..] + t;
      PassThroughLetters(b[1..], t, word + [b[0]], keep);
      assert word + [b[0]] + b[1..] == word + b;
    }
  }

  lemma PassThroughLower(b: string, t: string, word: string, keep: Rule)
    requires AllLower(b)
    ensures Pass(b + t, word, keep) == b + Pass(t, word + b, keep)
  {
    PassThroughLetters(b, t, word, keep);
  }

  lemma {:induction false} FragmentIs(b: string, t: string)
    requires AllLower(b) && (t != "" ==> !IsLower(t[0]))
    ensures Fragment(b + t) == |b|
  {
    if b == "" {
      assert b + t == t;
    } else {
      assert (b + t)[1..] == b[1..] + t;
      FragmentIs(b[1..], t);
    }
  }

  /** The wrap "- " in front of a word. */
  lemma WrapParts(b: string, t: string)
    requires AllLower(b) && |b| >= 2 && (t != "" ==> !IsLower(t[0]))
    ensures var s := "- " + (b + t); Site(s, true) && Piece(s) == b && Rest(s) == t
  {
    var s := "- " + (b + t);
    assert s[1..] == " " + (b + t) && s[2..] == b + t;
    assert s[1..][1..] == b + t && s[1..][0] == ' ' && (b + t)[0] == b[0] && (b + t)[1] == b[1];
    assert Blanks(b + t) == 0 && Blanks(s[1..]) == 1;
    FragmentIs(b, t);
    assert Behind(s) == b + t;
  }

  // ----- joins written solid ---------------------------------------------------

  function Cat(words: seq<string>): string { if words == [] then "" else words[0] + Cat(words[1..]) }

  /** Every join of neighbouring stretches of the run drops its hyphen: these are the
      only joins a run can meet. */
  ghost predicate Solid(words: seq<string>, keep: Rule) {
    forall i, j, k :: 0 <= i < j < k <= |words| ==> !keep(Cat(words[i..j]), Cat(words[j..k]))
  }

  lemma {:induction false} CatSplits(a: seq<string>, b: seq<string>)
    ensures Cat(a + b) == Cat(a) + Cat(b)
  {
    if a == [] {
      assert a + b == b;
    } else {
      assert (a + b)[1..] == a[1..] + b && (a + b)[0] == a[0];
      assert Cat(a + b) == a[0] + Cat(a[1..] + b) && Cat(a) == a[0] + Cat(a[1..]);
      hide Cat;
      CatSplits(a[1..], b);
      Assoc(a[0], Cat(a[1..]), Cat(b));
    }
  }

  lemma {:induction false} MergeFrom(words: seq<string>, i: nat)
    requires 2 * i <= |words|
    ensures i <= |Merge(words)| && Merge(words)[i..] == Merge(words[2 * i..])
    decreases i
  {
    if i > 0 {
      MergeFrom(words[2..], i - 1);
      assert words[2..][2 * (i - 1)..] == words[2 * i..];
      assert Merge(words)[i..] == Merge(words[2..])[i - 1..];
    }
  }

  lemma {:induction false} MergeUpTo(words: seq<string>, j: nat)
    requires j <= |Merge(words)|
    ensures Cat(Merge(words)[..j]) == Cat(words[..Min(2 * j, |words|)])
    decreases j
  {
    if j == 0 {
    } else if |words| < 2 {
      assert Merge(words)[..j] == words[..Min(2 * j, |words|)];
    } else {
      var rest := words[2..];
      MergeUpTo(rest, j - 1);
      assert Merge(words)[..j] == [words[0] + words[1]] + Merge(rest)[..j - 1];
      assert words[..Min(2 * j, |words|)] == [words[0]] + ([words[1]] + rest[..Min(2 * (j - 1), |rest|)]);
      MergedPair(words[0], words[1], Merge(rest)[..j - 1], rest[..Min(2 * (j - 1), |rest|)]);
    }
  }

  lemma MergedPair(a: string, b: string, m: seq<string>, w: seq<string>)
    requires Cat(m) == Cat(w)
    ensures Cat([a + b] + m) == Cat([a] + ([b] + w))
  {
    assert ([a + b] + m)[1..] == m && ([a] + ([b] + w))[1..] == [b] + w && ([b] + w)[1..] == w;
    Assoc(a, b, Cat(m));
  }

  /** A stretch of merged words is a stretch of the words they came from. */
  lemma MergedStretch(words: seq<string>, i: nat, j: nat)
    requires i < j <= |Merge(words)|
    ensures 2 * i <= Min(2 * j, |words|)
    ensures Cat(Merge(words)[i..j]) == Cat(words[2 * i..Min(2 * j, |words|)])
  {
    hide Merge, Cat;
    MergeFrom(words, i);
    var m, rest := Merge(words), words[2 * i..];
    MergeUpTo(rest, j - i);
    assert m[i..j] == m[i..][..j - i];
    var n := Min(2 * (j - i), |rest|);
    assert rest[..n] == words[2 * i..2 * i + n] && 2 * i + n == Min(2 * j, |words|);
  }

  lemma MergeKeepsSolid(words: seq<string>, keep: Rule)
    requires Solid(words, keep)
    ensures Solid(Merge(words), keep)
  {
    hide Merge, Cat;
    var m := Merge(words);
    forall i, j, k | 0 <= i < j < k <= |m|
      ensures !keep(Cat(m[i..j]), Cat(m[j..k]))
    {
      MergedStretch(words, i, j);
      MergedStretch(words, j, k);
      assert Min(2 * j, |words|) == 2 * j < Min(2 * k, |words|);
    }
  }

  lemma SolidTail(words: seq<string>, keep: Rule)
    requires Solid(words, keep) && |words| >= 2
    ensures Solid(words[2..], keep) && !keep(words[0], words[1])
  {
    var rest := words[2..];
    forall i, j, k | 0 <= i < j < k <= |rest|
      ensures !keep(Cat(rest[i..j]), Cat(rest[j..k]))
    {
      assert rest[i..j] == words[i + 2..j + 2] && rest[j..k] == words[j + 2..k + 2];
    }
    assert words[0..1] == [words[0]] && words[1..2] == [words[1]];
    OneCat(words[0]);
    OneCat(words[1]);
  }

  lemma OneCat(word: string)
    ensures Cat([word]) == word
  {
    assert [word][1..] == [];
    assert word + "" == word;
  }

  /** A pass over one run with every join solid merges its words in pairs. */
  lemma {:induction false} PassOnChain(words: seq<string>, keep: Rule)
    requires Words(words) && Solid(words, keep)
    ensures Pass(Chained(words), "", keep) == Chained(Merge(words))
    decreases |words|
  {
    hide Pass, Site, Rest, Piece, Solid;
    var a := words[0];
    if |words| == 1 {
      assert a + "" == a && "" + a == a;
      PassThroughLower(a, "", "", keep);
      PassOfNothing("", a, keep);
    } else {
      var b := words[1];
      var t := if |words| == 2 then "" else "- " + Chained(words[2..]);
      assert Chained(words[1..]) == b + t by { ChainTail(words); }
      SolidTail(words, keep);
      PassOnPair(words, t, keep);
      if |words| == 2 {
        PassOfNothing(t, "", keep);
        assert Merge(words[2..]) == [] && Merge(words) == [a + b];
      } else {
        PassOnChain(words[2..], keep);
        PassOverHyphen(Chained(words[2..]), "", keep);
        var m := Merge(words[2..]);
        assert ([a + b] + m)[1..] == m;
      }
    }
  }

  /** The first wrap of a run joins its two words. */
  lemma PassOnPair(words: seq<string>, t: string, keep: Rule)
    requires |words| >= 2 && words[0] != "" && AllLower(words[0]) && |words[1]| >= 2 && AllLower(words[1])
    requires !keep(words[0], words[1])
    requires Chained(words[1..]) == words[1] + t && (t != "" ==> !IsLower(t[0]))
    ensures Pass(Chained(words), "", keep) == words[0] + words[1] + Pass(t, "", keep)
  {
    hide Pass, Site, Rest, Piece;
    var a, b := words[0], words[1];
    var s := "- " + (b + t);
    Assoc(a, "- ", b + t);
    hide Chained;
    assert Chained(words) == a + s;
    hide AllLower;
    PassThroughLower(a, s, "", keep);
    assert "" + a == a;
    WrapParts(b, t);
    PassJoins(s, a, keep);
    Assoc(a, b, Pass(t, "", keep));
    assert "" + b == b;
  }

  lemma Assoc(a: string, b: string, c: string)
    ensures a + b + c == a + (b + c)
  {
  }

  lemma ChainTail(words: seq<string>)
    requires |words| >= 2
    ensures Chained(words[1..]) == words[1] + if |words| == 2 then "" else "- " + Chained(words[2..])
  {
    assert words[1..][1..] == words[2..];
    if |words| > 2 {
      assert words[1] + "- " + Chained(words[2..]) == words[1] + ("- " + Chained(words[2..]));
    }
  }

  lemma PassOverHyphen(t: string, word: string, keep: Rule)
    requires word == "" || !Wrap(" " + t)
    ensures Pass("- " + t, word, keep) == "- " + Pass(t, "", keep)
  {
    hide Pass, Wrap;
    assert ("- " + t)[1..] == " " + t && (" " + t)[1..] == t;
    PassEmits("- " + t, word, keep);
    PassEmits(" " + t, "", keep);
  }

  function MergeTimes(words: seq<string>, n: nat): seq<string> {
    if n == 0 then words else Merge(MergeTimes(words, n - 1))
  }

  lemma {:induction false} PassesOnChain(words: seq<string>, keep: Rule, n: nat)
    requires Words(words) && Solid(words, keep)
    ensures Words(MergeTimes(words, n)) && Solid(MergeTimes(words, n), keep)
    ensures Passes(Chained(words), keep, n) == Chained(MergeTimes(words, n))
  {
    hide Pass, Chained, Words, Merge, Solid;
    if n > 0 {
      PassesOnChain(words, keep, n - 1);
      MergeKeepsSolid(MergeTimes(words, n - 1), keep);
      MergeKeepsWords(MergeTimes(words, n - 1));
      WordsAreSome(MergeTimes(words, n - 1));
      PassOnChain(MergeTimes(words, n - 1), keep);
    }
  }

  lemma WordsAreSome(words: seq<string>)
    requires Words(words)
    ensures words != [] && Merge(words) != []
  {
  }

  lemma {:induction false} MergeTimesLength(words: seq<string>, n: nat)
    requires words != []
    ensures |MergeTimes(words, n)| >= 1
    ensures |words| > Pow2(n) <==> |MergeTimes(words, n)| >= 2
  {
    MergeShrinks(words, n, 1);
  }

  lemma {:induction false} MergeShrinks(words: seq<string>, n: nat, k: nat)
    requires words != [] && k >= 1
    ensures |MergeTimes(words, n)| >= 1
    ensures |words| > Pow2(n) * k <==> |MergeTimes(words, n)| > k
  {
    hide Merge;
    if n > 0 {
      MergeShrinks(words, n - 1, 2 * k);
      TwiceAsMany(Pow2(n - 1), k);
    }
  }

  lemma TwiceAsMany(p: nat, k: nat)
    ensures (2 * p) * k == p * (2 * k)
  {
  }

  /** When every join of a run is solid, eight passes finish it exactly when it holds
      fewer than 256 wraps: the loop's bound reaches no fixpoint beyond. */
  lemma EightPassesExactly(words: seq<string>, keep: Rule)
    requires Words(words) && Solid(words, keep)
    ensures var out := Passes(Chained(words), keep, 8);
            Pass(out, "", keep) == out <==> |words| - 1 < 256
  {
    hide Pass, Chained, Words, Merge, MergeTimes, Passes, Pow2, Solid;
    PassesOnChain(words, keep, 8);
    WordsAreSome(words);
    MergeTimesLength(words, 8);
    TwoToTheEighth();
    var m := MergeTimes(words, 8);
    WordsAreSome(m);
    PassOnChain(m, keep);
    if |m| >= 2 {
      MergingShortens(m);
    } else {
      OneWordMerged(m);
    }
  }

  lemma OneWordMerged(words: seq<string>)
    requires |words| == 1
    ensures Merge(words) == words
  {
  }

  lemma {:induction false} MergingShortens(words: seq<string>)
    requires |words| >= 2
    ensures |Chained(Merge(words))| < |Chained(words)|
    decreases |words|
  {
    ChainTail(words);
    if |words| == 2 {
      assert Merge(words[2..]) == [] && Merge(words) == [words[0] + words[1]];
    } else {
      var m := Merge(words[2..]);
      assert ([words[0] + words[1]] + m)[1..] == m;
      if |words| > 3 {
        MergingShortens(words[2..]);
      } else {
        OneWordMerged(words[2..]);
      }
    }
  }

  // ----- runs of single letters ------------------------------------------------

  ghost predicate Letters(letters: seq<string>) {
    forall i :: 0 <= i < |letters| ==> |letters[i]| == 1 && AllLower(letters[i])
  }

  /** Single letters and then a word: every hyphen but the last is weak. */
  function Spelled(letters: seq<string>, word: string): string { Chained(letters + [word]) }

  ghost predicate LongWord(word: string) { |word| >= 2 && AllLower(word) }

  lemma SpelledTail(letters: seq<string>, word: string)
    requires letters != []
    ensures Spelled(letters, word) == letters[0] + "- " + Spelled(letters[1..], word)
  {
    assert (letters + [word])[1..] == letters[1..] + [word];
  }

  /** A letter and its weak hyphen stay, and the pass goes on behind them. */
  lemma PassOverLetter(letter: string, t: string, keep: Rule)
    requires |letter| == 1 && AllLower(letter) && |t| >= 2 && IsLower(t[0]) && t[1] == '-'
    ensures Pass(letter + "- " + t, "", keep) == letter + "- " + Pass(t, "", keep)
  {
    var s := "- " + t;
    Assoc(letter, "- ", t);
    Assoc(letter, "- ", Pass(t, "", keep));
    NoWrapBefore(t);
    hide Pass, Wrap;
    PassThroughLower(letter, s, "", keep);
    assert "" + letter == letter;
    PassOverHyphen(t, letter, keep);
  }

  lemma NoWrapBefore(t: string)
    requires |t| >= 2 && IsLower(t[0]) && t[1] == '-'
    ensures !Wrap(" " + t)
  {
    assert (" " + t)[1..] == t;
    assert Blanks(t) == 0 && Blanks(" " + t) == 1;
  }

  /** A pass joins the last letter to the word, and no other. */
  lemma {:induction false} PassOnLetters(letters: seq<string>, word: string, keep: Rule)
    requires Letters(letters) && letters != [] && LongWord(word) && Solid(letters + [word], keep)
    ensures Pass(Spelled(letters, word), "", keep)
         == Spelled(letters[..|letters| - 1], letters[|letters| - 1] + word)
    decreases |letters|
  {
    hide Pass, Solid;
    var m := |letters|;
    if m == 1 {
      LastLetter(letters, word, keep);
    } else {
      SpelledTail(letters, word);
      SpelledTail(letters[1..], word);
      var t := Spelled(letters[1..], word);
      var rest := letters[1..];
      assert t == rest[0] + ("- " + Spelled(rest[1..], word)) && t[1] == ("- " + Spelled(rest[1..], word))[0];
      hide Spelled;
      PassOverLetter(letters[0], t, keep);
      SolidBehind(letters, word, keep);
      PassOnLetters(rest, word, keep);
      SpelledTail(letters[..m - 1], letters[m - 1] + word);
      assert letters[..m - 1][1..] == rest[..m - 2];
    }
  }

  lemma LastLetter(letters: seq<string>, word: string, keep: Rule)
    requires Letters(letters) && |letters| == 1 && LongWord(word) && Solid(letters + [word], keep)
    ensures Pass(Spelled(letters, word), "", keep) == Spelled([], letters[0] + word)
  {
    hide Pass;
    var words := letters + [word];
    assert words == [letters[0], word];
    assert words[1..] == [word] && words[0..1] == [letters[0]] && words[1..2] == [word];
    OneCat(letters[0]);
    OneCat(word);
    assert !keep(Cat(words[0..1]), Cat(words[1..2]));
    hide Solid;
    assert word + "" == word;
    PassOnPair(words, "", keep);
    PassOfNothing("", "", keep);
    assert letters[0] + word + "" == letters[0] + word;
    assert [] + [letters[0] + word] == [letters[0] + word];
  }

  lemma SolidBehind(letters: seq<string>, word: string, keep: Rule)
    requires letters != [] && Solid(letters + [word], keep)
    ensures Solid(letters[1..] + [word], keep)
  {
    hide Cat;
    var words, rest := letters + [word], letters[1..] + [word];
    assert words[1..] == rest;
    forall i, j, k | 0 <= i < j < k <= |rest|
      ensures !keep(Cat(rest[i..j]), Cat(rest[j..k]))
    {
      assert rest[i..j] == words[i + 1..j + 1] && rest[j..k] == words[j + 1..k + 1];
    }
  }

  /** Joining the last letter leaves only joins the run had. */
  lemma SolidJoined(letters: seq<string>, word: string, keep: Rule)
    requires letters != [] && Solid(letters + [word], keep)
    ensures Solid(letters[..|letters| - 1] + [letters[|letters| - 1] + word], keep)
  {
    var m := |letters|;
    var words, next := letters + [word], letters[..m - 1] + [letters[m - 1] + word];
    hide Cat;
    forall i, j, k | 0 <= i < j < k <= |next|
      ensures !keep(Cat(next[i..j]), Cat(next[j..k]))
    {
      assert next[i..j] == words[i..j];
      if k < m {
        assert next[j..k] == words[j..k];
      } else {
        JoinedStretch(letters, word, j);
      }
    }
  }

  lemma JoinedStretch(letters: seq<string>, word: string, j: nat)
    requires j < |letters|
    ensures var m := |letters|;
            Cat((letters[..m - 1] + [letters[m - 1] + word])[j..m]) == Cat((letters + [word])[j..m + 1])
  {
    var m := |letters|;
    var front, last := letters[j..m - 1], letters[m - 1];
    assert (letters[..m - 1] + [last + word])[j..m] == front + [last + word];
    assert (letters + [word])[j..m + 1] == front + ([last] + [word]);
    hide Cat;
    CatSplits(front, [last + word]);
    CatSplits(front, [last] + [word]);
    CatSplits([last], [word]);
    OneCat(last + word);
    OneCat(last);
    OneCat(word);
  }

  /** After `n` passes the last `n` letters have joined the word. */
  lemma {:induction false} PassesOnLetters(letters: seq<string>, word: string, keep: Rule, n: nat)
    returns (grown: string)
    requires Letters(letters) && n <= |letters| && LongWord(word) && Solid(letters + [word], keep)
    ensures LongWord(grown) && Solid(letters[..|letters| - n] + [grown], keep)
    ensures Passes(Spelled(letters, word), keep, n) == Spelled(letters[..|letters| - n], grown)
  {
    hide Pass, Solid, Spelled;
    if n == 0 {
      grown := word;
      assert letters[..|letters|] == letters;
    } else {
      var before := PassesOnLetters(letters, word, keep, n - 1);
      var left := letters[..|letters| - n + 1];
      PassOnLetters(left, before, keep);
      SolidJoined(left, before, keep);
      grown := left[|left| - 1] + before;
      assert left[..|left| - 1] == letters[..|letters| - n];
      assert Letters(left) && AllLower(left[|left| - 1]);
    }
  }

  lemma {:induction false} SpelledLength(letters: seq<string>, word: string)
    requires Letters(letters)
    ensures |Spelled(letters, word)| == 3 * |letters| + |word|
  {
    if letters == [] {
      assert letters + [word] == [word];
    } else {
      SpelledTail(letters, word);
      SpelledLength(letters[1..], word);
    }
  }

  /** When every join is solid, eight passes finish a word spelled with single letters
      in front exactly when there are at most eight of them. */
  lemma EightLettersExactly(letters: seq<string>, word: string, keep: Rule)
    requires Letters(letters) && LongWord(word) && Solid(letters + [word], keep)
    ensures var out := Passes(Spelled(letters, word), keep, 8);
            Pass(out, "", keep) == out <==> |letters| <= 8
  {
    hide Pass, Solid, Spelled, Passes;
    var s := Spelled(letters, word);
    if |letters| <= 8 {
      var grown := PassesOnLetters(letters, word, keep, |letters|);
      assert letters[..0] == [];
      OneWordStays(grown, keep);
      StaysFixed(s, keep, |letters|, 8);
    } else {
      var grown := PassesOnLetters(letters, word, keep, 8);
      var left := letters[..|letters| - 8];
      PassOnLetters(left, grown, keep);
      SpelledLength(left, grown);
      SpelledLength(left[..|left| - 1], left[|left| - 1] + grown);
    }
  }

  lemma OneWordStays(word: string, keep: Rule)
    requires AllLower(word)
    ensures Pass(Spelled([], word), "", keep) == Spelled([], word)
  {
    assert [] + [word] == [word];
    PassThroughLower(word, "", "", keep);
    assert word + "" == word;
    PassOfNothing("", word, keep);
  }

  // ----- both bounds are the weight's ------------------------------------------

  /** A run of words weighs as many wraps as it holds. */
  lemma {:induction false} ChainWeighs(words: seq<string>, cur: nat)
    requires Words(words)
    ensures Run(Chained(words), false, cur, 1) == cur + |words| - 1
    decreases |words|
  {
    hide Run, Site;
    var a := words[0];
    if |words| == 1 {
      assert a + "" == a;
      RunThroughLower(a, "", false, cur, 1);
      RunOfNothing("", true, cur, 1);
    } else {
      var t := if |words| == 2 then "" else "- " + Chained(words[2..]);
      ChainTail(words);
      FirstWeighs(a, words[1], t, cur);
      ChainWeighs(words[1..], cur + 1);
    }
  }

  lemma FirstWeighs(a: string, b: string, t: string, cur: nat)
    requires a != "" && AllLower(a) && AllLower(b) && |b| >= 2 && (t != "" ==> !IsLower(t[0]))
    ensures Run(a + "- " + (b + t), false, cur, 1) == Run(b + t, false, cur + 1, 1)
  {
    hide Run, Site;
    var s := "- " + (b + t);
    Assoc(a, "- ", b + t);
    WrapParts(b, t);
    assert Behind(s) == b + t by { assert s[2..] == b + t; SiteParts(s, true); }
    hide Behind, AllLower;
    RunThroughLower(a, s, false, cur, 1);
    RunOfSite(s, cur, 1);
  }

  /** Letters in front double the weight. */
  lemma {:induction false} LettersWeigh(letters: seq<string>, word: string, soft: nat)
    requires Letters(letters) && letters != [] && LongWord(word)
    ensures Run(Spelled(letters, word), false, 0, soft) + 1 == Pow2(|letters| - 1) * (soft + 1)
    decreases |letters|
  {
    hide Run, Site, Weak;
    SpelledTail(letters, word);
    var t := Spelled(letters[1..], word);
    var s := "- " + t;
    Assoc(letters[0], "- ", t);
    RunThroughLower(letters[0], s, false, 0, soft);
    if |letters| == 1 {
      assert letters[1..] + [word] == [word] && word + "" == word;
      WrapParts(word, "");
      RunOfSite(s, 0, soft);
      RunThroughLower(word, "", false, soft, 1);
      RunOfNothing("", true, soft, 1);
    } else {
      SpelledTail(letters[1..], word);
      LetterIsWeak(letters[1], t);
      RunOfWeak(s, 0, soft);
      LettersWeigh(letters[1..], word, 2 * soft + 1);
      TwiceAsMany(Pow2(|letters| - 2), soft + 1);
    }
  }

  lemma LetterIsWeak(letter: string, t: string)
    requires |letter| == 1 && AllLower(letter) && |t| >= 2 && t[0] == letter[0] && t[1] == '-'
    ensures Weak("- " + t, true) && Behind("- " + t) == t
  {
    var s := "- " + t;
    assert s[1..] == " " + t && (" " + t)[1..] == t;
    assert Blanks(t) == 0 && Blanks(" " + t) == 1;
    assert s[2..] == t;
  }

  // ----- vocabularies that reach the bound -------------------------------------

  /** A corpus that writes every stretch of the run as one word, three times. */
  function VocabularyOf(words: seq<string>): Vocabulary {
    Vocabulary(map s | s in JoinedForms(words) :: MIN_FREQ, map[])
  }

  function JoinedForms(words: seq<string>): set<string> {
    set i, k | 0 <= i < k <= |words| :: Lower(Cat(words[i..k]))
  }

  lemma VocabularyJoins(words: seq<string>)
    ensures Solid(words, RuleOf(VocabularyOf(words)))
  {
    hide Cat;
    forall i, j, k | 0 <= i < j < k <= |words|
      ensures !KeepsHyphen(VocabularyOf(words), Cat(words[i..j]), Cat(words[j..k]))
    {
      CatSplits(words[i..j], words[j..k]);
      assert words[i..j] + words[j..k] == words[i..k];
    }
  }

  /** For every run there is a vocabulary under which `_dehyphenate` leaves it finished
      if and only if it weighs less than 256: the bound for all texts is sharp. */
  lemma LongRunsStopShort(words: seq<string>)
    requires Words(words)
    ensures var out := Passes(Chained(words), RuleOf(VocabularyOf(words)), 8);
            Pass(out, "", RuleOf(VocabularyOf(words))) == out <==> Run(Chained(words), false, 0, 1) < 256
    ensures Run(Chained(words), false, 0, 1) == |words| - 1
  {
    hide Pass, Passes, Run, Chained, Words, Solid, RuleOf, VocabularyOf;
    VocabularyJoins(words);
    ChainWeighs(words, 0);
    EightPassesExactly(words, RuleOf(VocabularyOf(words)));
  }

  /** ... and so it is for every word spelled with single letters in front. */
  lemma SpelledWordsStopShort(letters: seq<string>, word: string)
    requires Letters(letters) && letters != [] && LongWord(word)
    ensures var keep := RuleOf(VocabularyOf(letters + [word]));
            var out := Passes(Spelled(letters, word), keep, 8);
            Pass(out, "", keep) == out <==> Run(Spelled(letters, word), false, 0, 1) < 256
    ensures Run(Spelled(letters, word), false, 0, 1) == Pow2(|letters|) - 1
  {
    hide Pass, Passes, Run, Spelled, Solid, RuleOf, VocabularyOf;
    VocabularyJoins(letters + [word]);
    LettersWeigh(letters, word, 1);
    PowersGrow(|letters|);
    EightLettersExactly(letters, word, RuleOf(VocabularyOf(letters + [word])));
  }

  lemma PowersGrow(n: nat)
    requires n >= 1
    ensures Pow2(n - 1) * 2 == Pow2(n) && (Pow2(n) - 1 < 256 <==> n <= 8)
  {
    TwoToTheEighth();
    if n > 8 {
      PowersAscend(9, n);
    } else {
      PowersAscend(n, 8);
    }
  }

  lemma {:induction false} PowersAscend(m: nat, n: nat)
    requires m <= n
    ensures Pow2(m) <= Pow2(n)
  {
    if m < n {
      PowersAscend(m, n - 1);
    }
  }

  /** "aa- aa- ... aa" with 256 wraps, in a corpus writing "aaaa" and the longer forms
      solid: the text `_dehyphenate` returns still changes under another pass. */
  lemma TwoHundredFiftySixWraps()
    ensures var words := seq(257, i => "aa");
            var keep := RuleOf(VocabularyOf(words));
            Pass(Passes(Chained(words), keep, 8), "", keep) != Passes(Chained(words), keep, 8)
  {
    hide Pass, Passes, Chained, Run, RuleOf, VocabularyOf;
    LongRunsStopShort(seq(257, i => "aa"));
  }

  /** "a- a- ... a- aa" with nine single letters: nine hyphens are enough. */
  lemma NineLetters()
    ensures var letters := seq(9, i => "a");
            var keep := RuleOf(VocabularyOf(letters + ["aa"]));
            Pass(Passes(Spelled(letters, "aa"), keep, 8), "", keep) != Passes(Spelled(letters, "aa"), keep, 8)
  {
    hide Pass, Passes, Spelled, Run, RuleOf, VocabularyOf;
    SpelledWordsStopShort(seq(9, i => "a"), "aa");
    PowersGrow(9);
  }

  // ----- one wrap --------------------------------------------------------------

  ghost predicate AllBlank(s: string) { forall i :: 0 <= i < |s| ==> s[i] == ' ' || s[i] == '\t' }

  ghost predicate LowerWord(s: string) { |s| >= 2 && forall i :: 0 <= i < |s| ==> 'a' <= s[i] <= 'z' }

  lemma {:induction false} BlanksThrough(p: string, t: string)
    requires AllBlank(p) && (t != "" ==> !IsBlank(t[0]))
    ensures Blanks(p + t) == |p|
  {
    if p == "" {
      assert p + t == t;
    } else {
      assert (p + t)[1..] == p[1..] + t;
      BlanksThrough(p[1..], t);
    }
  }

  /** Blanks with at most one newline among them. */
  ghost predicate IsGap(gap: string) {
    gap != "" && exists n :: 0 <= n <= |gap| && AllBlank(gap[..n])
                             && (n < |gap| ==> gap[n] == '\n' && AllBlank(gap[n + 1..]))
  }

  lemma BlankGap(p: string, b: string)
    requires AllBlank(p) && b != "" && IsLower(b[0])
    ensures Gap(p + b) == |p|
  {
    hide AllBlank, Blanks;
    BlanksThrough(p, b);
    assert (p + b)[|p|] == b[0];
  }

  lemma NewlineGap(p: string, q: string, b: string)
    requires AllBlank(p) && AllBlank(q) && b != "" && IsLower(b[0])
    ensures Gap(p + ("\n" + (q + b))) == |p| + 1 + |q|
  {
    hide AllBlank, Blanks;
    var back := "\n" + (q + b);
    BlanksThrough(p, back);
    BlanksThrough(q, b);
    assert (p + back)[|p|] == '\n' && (p + back)[|p| + 1..] == q + b;
  }

  lemma GapIs(gap: string, b: string)
    requires IsGap(gap) && b != "" && IsLower(b[0])
    ensures Gap(gap + b) == |gap|
  {
    hide AllBlank, Gap;
    var n :| 0 <= n <= |gap| && AllBlank(gap[..n]) && (n < |gap| ==> gap[n] == '\n' && AllBlank(gap[n + 1..]));
    if n == |gap| {
      assert gap[..n] == gap;
      BlankGap(gap, b);
    } else {
      assert gap + b == gap[..n] + ("\n" + (gap[n + 1..] + b));
      NewlineGap(gap[..n], gap[n + 1..], b);
    }
  }

  lemma NoEmptyGap(gap: string)
    requires IsGap(gap)
    ensures gap != ""
  {
  }

  lemma OneSite(gap: string, b: string)
    requires IsGap(gap) && |b| >= 2 && AllLower(b)
    ensures var s := "-" + gap + b; Site(s, true) && Piece(s) == b && Rest(s) == ""
  {
    var s := "-" + gap + b;
    hide Gap, Blanks, IsGap;
    GapIs(gap, b);
    assert s == "-" + (gap + b) && s[1..] == gap + b && s[1 + |gap|..] == b;
    assert |gap| > 0 by { NoEmptyGap(gap); }
    assert (gap + b)[|gap|] == b[0] && (gap + b)[|gap| + 1] == b[1];
    assert Wrap(gap + b);
    FragmentIs(b, "");
    assert b + "" == b;
  }

  lemma NoGapNoWrap(b: string)
    requires b != "" && IsLower(b[0])
    ensures !Wrap(b)
  {
    assert Blanks(b) == 0;
  }

  lemma PlainTextStays(a: string, b: string, keep: Rule)
    requires AllLetters(a) && b != "" && AllLower(b)
    ensures Pass(a + b, "", keep) == a + b && Pass(a + "-" + b, "", keep) == a + "-" + b
  {
    hide Pass, Wrap;
    assert a + b + "" == a + b && a + "-" + b == a + ("-" + b) && b + "" == b && "" + a == a && "" + b == b;
    PassThroughLetters(a + b, "", "", keep);
    PassThroughLetters(a, "-" + b, "", keep);
    NoGapNoWrap(b);
    assert ("-" + b)[1..] == b;
    PassEmits("-" + b, a, keep);
    PassThroughLetters(b, "", "", keep);
    PassOfNothing("", "" + (a + b), keep);
    PassOfNothing("", b, keep);
  }

  lemma OneWrapPass(a: string, gap: string, b: string, keep: Rule)
    requires a != "" && AllLetters(a) && IsGap(gap) && |b| >= 2 && AllLower(b)
    ensures Pass(a + "-" + gap + b, "", keep) == if keep(a, b) then a + "-" + b else a + b
  {
    var s := "-" + gap + b;
    hide Pass, Site, Rest, Piece, IsGap, AllLetters, AllLower;
    assert a + "-" + gap + b == a + s && "" + a == a;
    OneSite(gap, b);
    PassThroughLetters(a, s, "", keep);
    PassJoins(s, a, keep);
    PassOfNothing("", "", keep);
    if keep(a, b) {
      assert a + ("-" + b + "") == a + "-" + b;
    } else {
      assert a + ("" + b + "") == a + b;
    }
  }

  lemma OneWrapSettles(a: string, gap: string, b: string, keep: Rule)
    requires a != "" && AllLetters(a) && IsGap(gap) && |b| >= 2 && AllLower(b)
    ensures Passes(a + "-" + gap + b, keep, 8) == if keep(a, b) then a + "-" + b else a + b
  {
    hide Pass, IsGap, AllLetters, AllLower;
    var text := a + "-" + gap + b;
    OneWrapPass(a, gap, b, keep);
    PlainTextStays(a, b, keep);
    PassesOnce(text, keep);
    hide Passes;
    StaysFixed(text, keep, 1, 8);
  }

  lemma PassesOnce(s: string, keep: Rule)
    ensures Passes(s, keep, 1) == Pass(s, "", keep)
  {
    hide Pass;
    assert Passes(s, keep, 0) == s;
  }

  /** A word wrapped once keeps its hyphen unless the corpus writes it solid three
      times or more, and oftener than hyphenated. */
  lemma OneWrapDecided(a: string, gap: string, b: string, v: Vocabulary)
    requires a != "" && AllLetters(a) && IsGap(gap) && LowerWord(b)
    ensures var solid, hyphenated := Lookup(v.solid, Lower(a + b)), Lookup(v.hyphenated, Lower(a + "-" + b));
            Passes(a + "-" + gap + b, RuleOf(v), 8) ==
            if solid >= 3 && solid > hyphenated then a + b else a + "-" + b
  {
    assert AllLower(b);
    hide Pass, Passes, IsGap, AllLetters, AllLower, Lookup, Lower;
    OneWrapSettles(a, gap, b, RuleOf(v));
  }
}

/** Extended grapheme clusters: the rules of section 3.1.1 of UAX #29 and the engine's one-pass loop. */
module Graphemes {
  import opened UnicodeTable
  import opened CodePoints

  // ----- The rules -----

  predicate IsControl(g: GraphemeBreak) { g in {Control, CR, LF} }

  predicate Conjoining(c: CodePoint) { c.indicBreak in {IndicExtend, Linker} }

  /** What the Unicode data keeps between the two properties. */
  ghost predicate ConsistentProperties(s: Text)
  {
    forall i :: 0 <= i < |s| ==>
      && (Conjoining(s[i]) ==> s[i].breakProperty in {Extend, ZWJ})
      && (s[i].indicBreak == Consonant ==> s[i].breakProperty == Other)
  }

  /** GB9c: Consonant, Extend or Linker with at least one Linker, then Consonant. */
  ghost predicate IndicConjunct(s: Text, i: nat)
    requires 0 < i < |s|
  {
    s[i].indicBreak == Consonant &&
    exists a, l :: 0 <= a < l < i && s[a].indicBreak == Consonant && s[l].indicBreak == Linker &&
      forall k :: a < k < i ==> Conjoining(s[k])
  }

  /** GB11: ExtPict Extend* ZWJ, then ExtPict. */
  ghost predicate EmojiSequence(s: Text, i: nat)
    requires 0 < i < |s|
  {
    s[i - 1].breakProperty == ZWJ && s[i].breakProperty == ExtPict &&
    exists a :: 0 <= a < i - 1 && s[a].breakProperty == ExtPict &&
      forall k :: a < k < i - 1 ==> s[k].breakProperty == Extend
  }

  /** GB12 and GB13: an odd number of regional indicators, counted from the start of their run, then one more. */
  ghost predicate FlagPair(s: Text, i: nat)
    requires 0 < i < |s|
  {
    s[i].breakProperty == RegionalIndicator &&
    exists a :: 0 <= a < i && (i - a) % 2 == 1 && RunOfIndicators(s, a, i)
  }

  ghost predicate RunOfIndicators(s: Text, a: nat, i: nat)
    requires a <= i <= |s|
  {
    (a == 0 || s[a - 1].breakProperty != RegionalIndicator) &&
    forall k :: a <= k < i ==> s[k].breakProperty == RegionalIndicator
  }

  /** The rules in their order: the first that applies between s[i-1] and s[i] decides. */
  ghost predicate Break(s: Text, i: nat)
    requires 0 < i < |s|
  {
    var before, after := s[i - 1].breakProperty, s[i].breakProperty;
    if before == CR && after == LF then false                                     // GB3
    else if IsControl(before) then true                                           // GB4
    else if IsControl(after) then true                                            // GB5
    else if before == L && after in {L, V, LV, LVT} then false                    // GB6
    else if before in {LV, V} && after in {V, T} then false                       // GB7
    else if before in {LVT, T} && after == T then false                           // GB8
    else if after in {Extend, ZWJ} then false                                     // GB9
    else if after == SpacingMark then false                                       // GB9a
    else if before == Prepend then false                                          // GB9b
    else if IndicConjunct(s, i) then false                                        // GB9c
    else if EmojiSequence(s, i) then false                                        // GB11
    else if FlagPair(s, i) then false                                             // GB12, GB13
    else true                                                                     // GB999
  }

  /** What the rules decide, pair of classes by pair of classes; only the last three pairs need looking back. */
  lemma BreakByClasses(s: Text, i: nat)
    requires 0 < i < |s|
    ensures var x, y, b := s[i - 1].breakProperty, s[i].breakProperty, Break(s, i);
      if x in {Control, CR, LF} || y in {Control, CR, LF} then b <==> !(x == CR && y == LF)
      else if y in {Extend, ZWJ, SpacingMark} || x == Prepend then !b
      else if x == L && y in {L, V, LV, LVT} then !b
      else if x in {V, LV} && y in {V, T} then !b
      else if x in {T, LVT} && y == T then !b
      else b <==> !IndicConjunct(s, i) && !EmojiSequence(s, i) && !FlagPair(s, i)
  {
  }

  /** What looking back looks for. */
  lemma LookingBack(s: Text, i: nat)
    requires 0 < i < |s|
    ensures IndicConjunct(s, i) <==>
      && s[i].indicBreak == Consonant
      && exists a, l ::
           && 0 <= a < l < i && s[a].indicBreak == Consonant && s[l].indicBreak == Linker
           && forall k :: a < k < i ==> s[k].indicBreak in {IndicExtend, Linker}
    ensures EmojiSequence(s, i) <==>
      && s[i - 1].breakProperty == ZWJ && s[i].breakProperty == ExtPict
      && exists a ::
           && 0 <= a < i - 1 && s[a].breakProperty == ExtPict
           && forall k :: a < k < i - 1 ==> s[k].breakProperty == Extend
  {
  }

  // ----- The loop -----

  datatype GraphemeResult = GraphemeResult(allowed: bool, withinEmoji: bool, riOdd: bool)

  datatype IndicResult = IndicResult(allowed: bool, within: bool, seenLinker: bool)

  function IndicConjunctBreakAllowed(
    previous: IndicBreak, current: IndicBreak, within: bool, seenLinker: bool): IndicResult
  {
    match previous
    case Consonant =>
      if current in {IndicExtend, Linker} then IndicResult(false, true, false) else IndicResult(true, false, false)
    case IndicExtend =>
      if current in {IndicExtend, Linker} then IndicResult(!within, within, seenLinker)
      else if current == Consonant then IndicResult(!seenLinker, false, false)
      else IndicResult(true, false, false)
    case Linker =>
      if current in {IndicExtend, Linker} then IndicResult(!within, within, within)
      else if current == Consonant then IndicResult(!within, false, false)
      else IndicResult(true, false, false)
    case NoIndic => IndicResult(true, false, false)
  }

  function GraphemeBreakAllowed(
    previous: GraphemeBreak, current: GraphemeBreak, withinEmoji: bool, riOdd: bool): GraphemeResult
  {
    match previous
    case CR => GraphemeResult(current != LF, withinEmoji, riOdd)
    case Control => GraphemeResult(true, withinEmoji, riOdd)
    case LF => GraphemeResult(true, withinEmoji, riOdd)
    case L => GraphemeResult(current !in {L, V, LV, LVT, Extend, ZWJ, SpacingMark}, withinEmoji, riOdd)
    case LV => GraphemeResult(current !in {V, T, Extend, ZWJ, SpacingMark}, withinEmoji, riOdd)
    case V => GraphemeResult(current !in {V, T, Extend, ZWJ, SpacingMark}, withinEmoji, riOdd)
    case LVT => GraphemeResult(current !in {T, Extend, ZWJ, SpacingMark}, withinEmoji, riOdd)
    case T => GraphemeResult(current !in {T, Extend, ZWJ, SpacingMark}, withinEmoji, riOdd)
    case Prepend => GraphemeResult(current in {Control, CR, LF}, withinEmoji, riOdd)
    case Extend =>
      if current in {Extend, ZWJ} then GraphemeResult(false, withinEmoji, riOdd)
      else if current == SpacingMark then GraphemeResult(false, false, riOdd)
      else GraphemeResult(true, false, riOdd)
    case ZWJ =>
      if current in {Extend, ZWJ, SpacingMark} then GraphemeResult(false, withinEmoji, false)
      else if current == ExtPict then GraphemeResult(!withinEmoji, false, riOdd)
      else GraphemeResult(true, false, riOdd)
    case ExtPict =>
      if current == SpacingMark then GraphemeResult(false, withinEmoji, riOdd)
      else if current in {Extend, ZWJ} then GraphemeResult(false, true, riOdd)
      else GraphemeResult(true, withinEmoji, riOdd)
    case RegionalIndicator =>
      if current in {Extend, ZWJ, SpacingMark} then GraphemeResult(false, withinEmoji, false)
      else if current == RegionalIndicator then GraphemeResult(riOdd, withinEmoji, !riOdd)
      else GraphemeResult(true, withinEmoji, false)
    case _ => GraphemeResult(current !in {Extend, ZWJ, SpacingMark}, withinEmoji, riOdd)
  }

  // ----- What the flags mean -----

  /** The Extend/Linker run ending at p follows a Consonant. */
  ghost predicate WithinConjunct(s: Text, p: nat)
    requires p < |s|
  {
    Conjoining(s[p]) &&
    exists a :: 0 <= a < p && s[a].indicBreak == Consonant && forall k :: a < k <= p ==> Conjoining(s[k])
  }

  /** ... and a Linker lies in it before its last element. */
  ghost predicate SeenLinker(s: Text, p: nat)
    requires p < |s|
  {
    Conjoining(s[p]) &&
    exists a, l :: 0 <= a < l < p && s[a].indicBreak == Consonant && s[l].indicBreak == Linker &&
      forall k :: a < k <= p ==> Conjoining(s[k])
  }

  /** Neighbours between which the emoji flag survives. */
  predicate KeepsEmojiFlag(x: GraphemeBreak, y: GraphemeBreak)
  {
    (x == Extend ==> y in {Extend, ZWJ}) && (x == ZWJ ==> y in {Extend, ZWJ, SpacingMark})
  }

  /** An ExtPict followed by Extend or ZWJ, and nothing since that clears the flag. */
  ghost predicate WithinEmoji(s: Text, p: nat)
    requires p < |s|
  {
    exists a :: 0 <= a < p && EmojiTail(s, a, p)
  }

  ghost predicate EmojiTail(s: Text, a: nat, p: nat)
    requires a < p < |s|
  {
    s[a].breakProperty == ExtPict && s[a + 1].breakProperty in {Extend, ZWJ} &&
    forall k :: a < k < p ==> KeepsEmojiFlag(s[k].breakProperty, s[k + 1].breakProperty)
  }

  function IndicatorRun(s: Text, p: nat): nat
    requires p < |s|
  {
    if s[p].breakProperty != RegionalIndicator then 0
    else if p == 0 then 1
    else 1 + IndicatorRun(s, p - 1)
  }

  datatype Flags = Flags(withinEmoji: bool, riOdd: bool, withinIndic: bool, seenLinker: bool)

  /** The four flags when the loop stands between s[p] and s[p+1]. */
  ghost predicate FlagsAt(s: Text, p: nat, f: Flags)
    requires p < |s|
  {
    && (f.withinEmoji <==> WithinEmoji(s, p))
    && (f.riOdd <==> IndicatorRun(s, p) > 0 && IndicatorRun(s, p) % 2 == 0)
    && (f.withinIndic <==> WithinConjunct(s, p))
    && (f.seenLinker <==> SeenLinker(s, p))
  }

  /** Where the loop breaks: as the rules, save that its emoji flag reaches further than GB11. */
  ghost predicate LoopBreaks(s: Text, i: nat)
    requires 0 < i < |s|
  {
    Break(s, i) &&
    !(s[i - 1].breakProperty == ZWJ && s[i].breakProperty == ExtPict && WithinEmoji(s, i - 1))
  }

  lemma {:induction false} RunLength(s: Text, i: nat)
    requires 0 < i <= |s|
    ensures IndicatorRun(s, i - 1) <= i
    ensures RunOfIndicators(s, i - IndicatorRun(s, i - 1), i)
  {
    if s[i - 1].breakProperty == RegionalIndicator && i > 1 {
      RunLength(s, i - 1);
    }
  }

  lemma FlagPairIsOddRun(s: Text, i: nat)
    requires 0 < i < |s|
    ensures FlagPair(s, i) <==> s[i].breakProperty == RegionalIndicator && IndicatorRun(s, i - 1) % 2 == 1
  {
    RunLength(s, i);
    var start := i - IndicatorRun(s, i - 1);
    forall a | 0 <= a < i && a != start
      ensures !RunOfIndicators(s, a, i)
    {
      if a < start { NoEarlierStart(s, a, start, i); } else { NoLaterStart(s, start, a, i); }
    }
  }

  lemma NoEarlierStart(s: Text, a: nat, b: nat, i: nat)
    requires a < b <= i <= |s| && RunOfIndicators(s, b, i)
    ensures !RunOfIndicators(s, a, i)
  {
    assert s[b - 1].breakProperty != RegionalIndicator;
  }

  lemma NoLaterStart(s: Text, a: nat, b: nat, i: nat)
    requires a < b <= i <= |s| && RunOfIndicators(s, a, i)
    ensures !RunOfIndicators(s, b, i)
  {
    assert s[b - 1].breakProperty == RegionalIndicator;
  }

  lemma ConjunctStep(s: Text, p: nat)
    requires p + 1 < |s|
    ensures WithinConjunct(s, p + 1) <==> Conjoining(s[p + 1]) && (s[p].indicBreak == Consonant || WithinConjunct(s, p))
    ensures SeenLinker(s, p + 1) <==>
      Conjoining(s[p + 1]) && WithinConjunct(s, p) && (s[p].indicBreak == Linker || SeenLinker(s, p))
    ensures IndicConjunct(s, p + 1) <==>
      s[p + 1].indicBreak == Consonant && WithinConjunct(s, p) && (s[p].indicBreak == Linker || SeenLinker(s, p))
  {
  }

  lemma EmojiStep(s: Text, p: nat)
    requires p + 1 < |s|
    ensures WithinEmoji(s, p + 1) <==>
      (s[p].breakProperty == ExtPict && s[p + 1].breakProperty in {Extend, ZWJ}) ||
      (WithinEmoji(s, p) && KeepsEmojiFlag(s[p].breakProperty, s[p + 1].breakProperty))
  {
    if s[p].breakProperty == ExtPict && s[p + 1].breakProperty in {Extend, ZWJ} {
      assert EmojiTail(s, p, p + 1);
    }
    if WithinEmoji(s, p) && KeepsEmojiFlag(s[p].breakProperty, s[p + 1].breakProperty) {
      var a :| 0 <= a < p && EmojiTail(s, a, p);
      assert EmojiTail(s, a, p + 1);
    }
    if WithinEmoji(s, p + 1) {
      var a :| 0 <= a < p + 1 && EmojiTail(s, a, p + 1);
      assert a < p ==> EmojiTail(s, a, p);
    }
  }

  /** The emoji rule never asks for more than the flag gives. */
  lemma RuleWithinFlag(s: Text, i: nat)
    requires 0 < i < |s| && EmojiSequence(s, i)
    ensures WithinEmoji(s, i - 1)
  {
    var a :| 0 <= a < i - 1 && s[a].breakProperty == ExtPict &&
      forall k :: a < k < i - 1 ==> s[k].breakProperty == Extend;
    assert EmojiTail(s, a, i - 1);
  }

  lemma GraphemeFlagsStep(s: Text, p: nat, f: Flags)
    requires p + 1 < |s| && FlagsAt(s, p, f)
    ensures var g := GraphemeBreakAllowed(s[p].breakProperty, s[p + 1].breakProperty, f.withinEmoji, f.riOdd);
      && (g.withinEmoji <==> WithinEmoji(s, p + 1))
      && (g.riOdd <==> IndicatorRun(s, p + 1) > 0 && IndicatorRun(s, p + 1) % 2 == 0)
  {
    EmojiStep(s, p);
  }

  lemma IndicFlagsStep(s: Text, p: nat, f: Flags)
    requires p + 1 < |s| && FlagsAt(s, p, f)
    ensures var c := IndicConjunctBreakAllowed(s[p].indicBreak, s[p + 1].indicBreak, f.withinIndic, f.seenLinker);
      && (c.within <==> WithinConjunct(s, p + 1))
      && (c.seenLinker <==> SeenLinker(s, p + 1))
      && (s[p + 1].indicBreak == Consonant ==> (c.allowed <==> !IndicConjunct(s, p + 1)))
      && (!Conjoining(s[p + 1]) && s[p + 1].indicBreak != Consonant ==> c.allowed)
  {
    ConjunctStep(s, p);
  }

  /** The grapheme test is the rules without GB9c, its emoji rule widened to the flag. */
  lemma GraphemeStep(s: Text, p: nat, f: Flags)
    requires ConsistentProperties(s) && p + 1 < |s| && FlagsAt(s, p, f)
    ensures var allowed :=
        GraphemeBreakAllowed(s[p].breakProperty, s[p + 1].breakProperty, f.withinEmoji, f.riOdd).allowed;
      if s[p + 1].indicBreak == Consonant && s[p].breakProperty in {Extend, ZWJ} then allowed
      else allowed <==> LoopBreaks(s, p + 1)
  {
    FlagPairIsOddRun(s, p + 1);
    assert EmojiSequence(s, p + 1) ==> WithinEmoji(s, p) by {
      if EmojiSequence(s, p + 1) { RuleWithinFlag(s, p + 1); }
    }
    assert IndicConjunct(s, p + 1) ==> Conjoining(s[p]);
  }

  /** One turn of the loop: the flags keep their meaning, and the break is decided as LoopBreaks says. */
  lemma LoopStep(s: Text, p: nat, f: Flags)
    requires ConsistentProperties(s) && p + 1 < |s| && FlagsAt(s, p, f)
    ensures var g := GraphemeBreakAllowed(s[p].breakProperty, s[p + 1].breakProperty, f.withinEmoji, f.riOdd);
      var c := IndicConjunctBreakAllowed(s[p].indicBreak, s[p + 1].indicBreak, f.withinIndic, f.seenLinker);
      && FlagsAt(s, p + 1, Flags(g.withinEmoji, g.riOdd, c.within, c.seenLinker))
      && (g.allowed && c.allowed <==> LoopBreaks(s, p + 1))
  {
    GraphemeFlagsStep(s, p, f);
    IndicFlagsStep(s, p, f);
    GraphemeStep(s, p, f);
    ConjunctBreak(s, p + 1);
  }

  /** After an extender only GB9c can join a consonant, and nothing joins where GB9c speaks. */
  lemma ConjunctBreak(s: Text, i: nat)
    requires ConsistentProperties(s) && 0 < i < |s|
    ensures IndicConjunct(s, i) ==> s[i - 1].breakProperty in {Extend, ZWJ} && !LoopBreaks(s, i)
    ensures Conjoining(s[i]) ==> s[i].breakProperty in {Extend, ZWJ}
    ensures s[i].indicBreak == Consonant && s[i - 1].breakProperty in {Extend, ZWJ} ==>
      (LoopBreaks(s, i) <==> !IndicConjunct(s, i))
  {
    if IndicConjunct(s, i) {
      assert Conjoining(s[i - 1]);
    }
  }

  /** A place where the flag has outlived the one joiner GB11 allows. */
  ghost predicate StaleEmojiFlag(s: Text, i: nat)
    requires 0 < i < |s|
  {
    s[i - 1].breakProperty == ZWJ && s[i].breakProperty == ExtPict && WithinEmoji(s, i - 1) && !EmojiSequence(s, i)
  }

  /** With the flags of the characters before, the two tests never break where the rules forbid it, and depart from
      them only where the emoji flag is stale. */
  lemma LoopAgainstRules(s: Text, p: nat, f: Flags)
    requires ConsistentProperties(s) && p + 1 < |s| && FlagsAt(s, p, f)
    ensures var allowed :=
        GraphemeBreakAllowed(s[p].breakProperty, s[p + 1].breakProperty, f.withinEmoji, f.riOdd).allowed &&
        IndicConjunctBreakAllowed(s[p].indicBreak, s[p + 1].indicBreak, f.withinIndic, f.seenLinker).allowed;
      && (allowed ==> Break(s, p + 1))
      && (allowed != Break(s, p + 1) <==> StaleEmojiFlag(s, p + 1))
  {
    LoopStep(s, p, f);
    StaleFlagOnly(s, p + 1);
  }

  lemma StaleFlagOnly(s: Text, i: nat)
    requires ConsistentProperties(s) && 0 < i < |s|
    ensures LoopBreaks(s, i) != Break(s, i) <==> StaleEmojiFlag(s, i)
  {
  }

  /** Where every ZWJ ends its run of extenders, the flag says no more than GB11. */
  ghost predicate JoinersEndRuns(s: Text)
  {
    forall k :: 0 <= k < |s| - 1 && s[k].breakProperty == ZWJ ==> s[k + 1].breakProperty !in {Extend, ZWJ, SpacingMark}
  }

  lemma {:induction false} TailIsExtends(s: Text, a: nat, p: nat, k: nat)
    requires JoinersEndRuns(s) && a < k <= p < |s| && EmojiTail(s, a, p)
    ensures k < p ==> s[k].breakProperty == Extend
    ensures s[k].breakProperty in {Extend, ZWJ}
    decreases k
  {
    if k > a + 1 {
      TailIsExtends(s, a, p, k - 1);
    }
    if k < p {
      assert KeepsEmojiFlag(s[k].breakProperty, s[k + 1].breakProperty);
    }
  }

  /** On such sequences the loop breaks exactly where UAX #29 does. */
  lemma LoopMeetsRules(s: Text, i: nat)
    requires JoinersEndRuns(s) && 0 < i < |s|
    ensures LoopBreaks(s, i) <==> Break(s, i)
  {
    if s[i - 1].breakProperty == ZWJ && s[i].breakProperty == ExtPict && WithinEmoji(s, i - 1) {
      var a :| 0 <= a < i - 1 && EmojiTail(s, a, i - 1);
      forall k | a < k < i - 1
        ensures s[k].breakProperty == Extend
      {
        TailIsExtends(s, a, i - 1, k);
      }
      assert EmojiSequence(s, i);
    }
  }

  /** The loop segments a sequence as UAX #29 does if and only if the flag is nowhere stale. */
  lemma SegmentationAgreement(s: Text)
    requires ConsistentProperties(s)
    ensures (forall i :: 0 < i < |s| ==> (LoopBreaks(s, i) <==> Break(s, i))) <==>
      (forall i :: 0 < i < |s| ==> !StaleEmojiFlag(s, i))
  {
    forall i | 0 < i < |s|
      ensures LoopBreaks(s, i) != Break(s, i) <==> StaleEmojiFlag(s, i)
    {
      StaleFlagOnly(s, i);
    }
  }

  /** Pictograph, two joiners, pictograph: UAX #29 breaks before the last, the loop does not. */
  lemma StaleFlagWitness(pict: CodePoint, joiner: CodePoint)
    requires pict.breakProperty == ExtPict && joiner.breakProperty == ZWJ
    requires ConsistentProperties([pict, joiner, joiner, pict])
    ensures var s := [pict, joiner, joiner, pict]; Break(s, 3) && !LoopBreaks(s, 3)
  {
    var s := [pict, joiner, joiner, pict];
    assert EmojiTail(s, 0, 2);
    assert forall a :: 0 <= a < 2 && s[a].breakProperty == ExtPict ==> a == 0 && s[1].breakProperty != Extend;
  }
}

/** Concrete lines and how each generation of the classifier reads them. */
module ClassifierExamples {
  import opened Text
  import opened Patterns
  import opened Classifier

  /** Stripped lines the current rules accept. */
  lemma ExampleDigitChapter()
    ensures AnyRule(Current, "第1章 黎明")
  {
    var t := "第1章 黎明";
    assert t[0..1] == "第";
    assert SkipSpaces(t, 1) == 1;
    assert RunEnd(t, 1, Digits) == 2;
    assert SkipSpaces(t, 2) == 2;
    assert MatchAt(RuleOf(Current, 0), t, 0).Some?;
  }

  lemma ExampleEnglishChapter()
    ensures AnyRule(Current, "CHAPTER 7")
  {
    var t := "CHAPTER 7";
    assert Lower(t[0..7]) == "chapter";
    assert SkipSpaces(t, 7) == 8;
    assert RunEnd(t, 8, Digits) == 9;
    assert MatchAt(RuleOf(Current, 2), t, 0).Some?;
  }

  /** "第1章课": the legacy rule 第\s*\d+\s*章 accepts it, its guarded
      successor does not. */
  lemma ExampleRunOnHeading()
    ensures MatchAt(RuleOf(Legacy, 0), "第1章课", 0).Some?
    ensures MatchAt(RuleOf(Current, 0), "第1章课", 0).None?
  {
    var t := "第1章课";
    assert t[0..1] == "第";
    assert SkipSpaces(t, 1) == 1;
    assert RunEnd(t, 1, Digits) == 2;
    assert SkipSpaces(t, 2) == 2;
  }

  /** "第1章节课" is not a heading for the current classifier: no rule
      reaches a guard or keyword that accepts it. */
  lemma RunOnRejectedLow()
    ensures forall k :: 0 <= k < 5 ==> MatchAt(RuleOf(Current, k), "第1章节课", 0).None?
  {
    var t := "第1章节课";
    assert t[0..1] == "第";
    assert SkipSpaces(t, 1) == 1;
    assert RunEnd(t, 1, Digits) == 2;
    assert SkipSpaces(t, 2) == 2;
    assert RunEnd(t, 1, CjkNumerals) == 1;
  }

  /** A line shorter than the lead is rejected. */
  lemma ShortRejects(p: Pattern, t: string)
    requires |t| < |p.lead|
    ensures MatchAt(p, t, 0).None?
  {
  }

  /** A line whose numeral run would be empty is rejected. */
  lemma NoRunRejects(p: Pattern, t: string, i: nat)
    requires LeadAt(p, t, 0)
    requires GapEnd(t, |p.lead|, p.gap1) == i
    requires i == |t| || t[i] !in p.numeral
    ensures MatchAt(p, t, 0).None?
  {
  }

  lemma RunOnRejectedMid()
    ensures forall k :: 5 <= k < 9 ==> MatchAt(RuleOf(Current, k), "第1章节课", 0).None?
  {
    var t := "第1章节课";
    assert t[0..1] == "第";
    assert t[1] == '1' && '1' !in CjkNumerals;
    assert SkipSpaces(t, 1) == 1;
    forall k | 5 <= k < 9 ensures MatchAt(RuleOf(Current, k), t, 0).None? {
      var p := RuleOf(Current, k);
      assert p.lead == "第" && p.numeral == CjkNumerals && p.gap1 != SomeWs;
      NoRunRejects(p, t, 1);
    }
  }

  /** The English rules need a longer line. */
  lemma RunOnRejectedEnglish()
    ensures forall k :: 9 <= k < 13 ==> MatchAt(RuleOf(Current, k), "第1章节课", 0).None?
  {
    var t := "第1章节课";
    forall k | 9 <= k < 13 ensures MatchAt(RuleOf(Current, k), t, 0).None? {
      var p := RuleOf(Current, k);
      assert |p.lead| == 7 && |t| == 5;
      ShortRejects(p, t);
    }
  }

  /** The rules without a lead need a numeral first. */
  lemma RunOnRejectedBare()
    ensures forall k :: 13 <= k < RuleCount ==> MatchAt(RuleOf(Current, k), "第1章节课", 0).None?
  {
    var t := "第1章节课";
    assert t[0] == '第' && '第' !in Digits && '第' !in CjkNumerals;
    forall k | 13 <= k < RuleCount ensures MatchAt(RuleOf(Current, k), t, 0).None? {
      var p := RuleOf(Current, k);
      assert p.lead == "" && p.gap1 == NoGap;
      assert p.numeral == Digits || p.numeral == CjkNumerals;
      assert t[0..0] == p.lead;
      NoRunRejects(p, t, 0);
    }
  }

  lemma ExampleRunOnRejected()
    ensures !AnyRule(Current, "第1章节课")
  {
    RunOnRejectedLow();
    RunOnRejectedMid();
    RunOnRejectedEnglish();
    RunOnRejectedBare();
  }

  /** "第两章": only the current Chinese class holds 两, so the current
      classifier takes the line and the legacy one does not. */
  lemma LiangRejectedLow()
    ensures forall k :: 0 <= k < 8 ==> MatchAt(RuleOf(Legacy, k), "第两章", 0).None?
  {
    var t := "第两章";
    assert t[0..1] == "第";
    assert |t| == 3;
    assert SkipSpaces(t, 1) == 1;
    assert RunEnd(t, 1, Digits) == 1;
    assert RunEnd(t, 1, LegacyCjk) == 1;
  }

  lemma LiangRejectedHigh()
    ensures forall k :: 8 <= k < RuleCount ==> MatchAt(RuleOf(Legacy, k), "第两章", 0).None?
  {
    var t := "第两章";
    assert t[0..1] == "第";
    assert |t| == 3;
    assert RunEnd(t, 1, LegacyCjk) == 1;
    assert RunEnd(t, 0, Digits) == 0;
    assert RunEnd(t, 0, LegacyCjk) == 0;
  }

  lemma ExampleLiang()
    ensures AnyRule(Current, "第两章")
    ensures !AnyRule(Legacy, "第两章")
  {
    var t := "第两章";
    assert t[0..1] == "第";
    assert SkipSpaces(t, 1) == 1;
    assert RunEnd(t, 1, CjkNumerals) == 2;
    assert SkipSpaces(t, 2) == 2;
    assert MatchAt(RuleOf(Current, 4), t, 0).Some?;
    LiangRejectedLow();
    LiangRejectedHigh();
  }

  /** Rule 5 in both generations: "1.2" and "一、标题" are legacy headings,
      but the guard of the current rule rejects them. */
  lemma ExampleNumberedItem()
    ensures MatchAt(RuleOf(Legacy, 13), "1.2", 0).Some?
    ensures MatchAt(RuleOf(Current, 13), "1.2", 0).None?
  {
    var t := "1.2";
    var p, q := RuleOf(Legacy, 13), RuleOf(Current, 13);
    assert p.numeral == Digits && q.numeral == Digits;
    assert RunEnd(t, 0, Digits) == 1;
    assert SkipSpaces(t, 1) == 1;
  }

  lemma ExampleEnumeration()
    ensures MatchAt(RuleOf(Legacy, 14), "一、标题", 0).Some?
    ensures MatchAt(RuleOf(Current, 14), "一、标题", 0).None?
  {
    EnumerationLegacy();
    EnumerationCurrent();
  }

  lemma EnumerationLegacy()
    ensures MatchAt(RuleOf(Legacy, 14), "一、标题", 0).Some?
  {
    var t := "一、标题";
    var p := RuleOf(Legacy, 14);
    assert p == Pattern("", false, NoGap, LegacyCjk, AnyWs, Stops, false);
    assert t[0..0] == p.lead;
    assert RunEnd(t, 0, LegacyCjk) == 1;
    assert SkipSpaces(t, 1) == 1;
    assert t[1] in Stops;
  }

  lemma EnumerationCurrent()
    ensures MatchAt(RuleOf(Current, 14), "一、标题", 0).None?
  {
    var t := "一、标题";
    var p := RuleOf(Current, 14);
    assert p == Pattern("", false, NoGap, CjkNumerals, AnyWs, Stops, true);
    assert t[0..0] == p.lead;
    assert RunEnd(t, 0, CjkNumerals) == 1;
    assert SkipSpaces(t, 1) == 1;
    assert t[1] in Stops && !IsSpace(t[2]);
  }

  /** "Chapter10x": the legacy `chapter\s*\d+` takes the prefix, the
      current guard does not. */
  lemma ExampleGluedChapter()
    ensures MatchAt(RuleOf(Legacy, 2), "Chapter10x", 0).Some?
    ensures MatchAt(RuleOf(Current, 2), "Chapter10x", 0).None?
  {
    var t := "Chapter10x";
    assert Lower(t[0..7]) == "chapter";
    assert SkipSpaces(t, 7) == 7;
    assert RunEnd(t, 7, Digits) == 9;
  }
}

/** The line classifier of the line-oriented parser (`is_chapter_title`)
    in both of its generations, and the marker helper
    `add_chapter_marker_to_line`.  The two generations try the same fifteen
    regular expressions in the same order; the current one guards each with
    `(?!\S)` and reads a wider Chinese numeral class. */
module Classifier {
  import opened Text
  import opened Patterns

  /** Which numeral class a rule reads. */
  datatype NumeralClass = Arabic | RomanNumeral | Chinese

  /** One row of the rule table: a regular expression without its guard
      and with its Chinese class left open. */
  datatype Rule = Rule(lead: string, foldCase: bool, gap1: Gap, numeral: NumeralClass, gap2: Gap, keyword: set<char>)

  /** `[IVX]` under `re.IGNORECASE`. */
  const Roman: set<char> := {'I', 'V', 'X', 'i', 'v', 'x'}

  /** The Chinese numeral class of the current generation. */
  const CjkNumerals: set<char> := {
    '〇', '一', '二', '两', '三', '四', '五', '六', '七', '八', '九', '十', '百', '千',
    '万', '亿', '零', '壹', '贰', '叁', '肆', '伍', '陸', '柒', '捌', '玖', '拾', '佰', '仟'}

  /** The Chinese numeral class of the legacy generation. */
  const LegacyCjk: set<char> := {'一', '二', '三', '四', '五', '六', '七', '八', '九', '十', '百', '千', '万', '亿'}

  const Stops: set<char> := {'.', '、'}

  /** Which generation of the classifier runs. */
  datatype Generation = Current | Legacy

  /** How many regular expressions rules 2 to 5 try. */
  const RuleCount := 15

  /** Rules 2 to 5 in the order both generations try them; each is
      anchored at the start of the stripped line. */
  function Shape(k: nat): Rule
    requires k < RuleCount
  {
    // rule 2: 第1章, 第1节, Chapter1, Section1, 第一章, 第一节 (re.IGNORECASE)
    if k == 0 then Rule("第", false, AnyWs, Arabic, AnyWs, {'章'})
    else if k == 1 then Rule("第", false, AnyWs, Arabic, AnyWs, {'节'})
    else if k == 2 then Rule("chapter", true, AnyWs, Arabic, NoGap, {})
    else if k == 3 then Rule("section", true, AnyWs, Arabic, NoGap, {})
    else if k == 4 then Rule("第", false, AnyWs, Chinese, AnyWs, {'章'})
    else if k == 5 then Rule("第", false, AnyWs, Chinese, AnyWs, {'节'})
    // rule 3: 第一章, 第一节, 第一部 without spaces
    else if k == 6 then Rule("第", false, NoGap, Chinese, NoGap, {'章'})
    else if k == 7 then Rule("第", false, NoGap, Chinese, NoGap, {'节'})
    else if k == 8 then Rule("第", false, NoGap, Chinese, NoGap, {'部'})
    // rule 4: Chapter I, Section I, Chapter 1, Section 1 (re.IGNORECASE)
    else if k == 9 then Rule("chapter", true, SomeWs, RomanNumeral, NoGap, {})
    else if k == 10 then Rule("section", true, SomeWs, RomanNumeral, NoGap, {})
    else if k == 11 then Rule("chapter", true, SomeWs, Arabic, NoGap, {})
    else if k == 12 then Rule("section", true, SomeWs, Arabic, NoGap, {})
    // rule 5: "1." and "一、"
    else if k == 13 then Rule("", false, NoGap, Arabic, AnyWs, Stops)
    else Rule("", false, NoGap, Chinese, AnyWs, Stops)
  }

  function ClassChars(n: NumeralClass, chinese: set<char>): set<char> {
    match n
    case Arabic => Digits
    case RomanNumeral => Roman
    case Chinese => chinese
  }

  function Instantiate(r: Rule, chinese: set<char>, guarded: bool): Pattern {
    Pattern(r.lead, r.foldCase, r.gap1, ClassChars(r.numeral, chinese), r.gap2, r.keyword, guarded)
  }

  /** Rule `k` of a generation: the current one guards every rule by
      `(?!\S)` and reads the wider Chinese class; the legacy one has no
      guards.  (The legacy rule 5 ends in `\s*`, which cannot change
      whether a match exists.) */
  function RuleOf(g: Generation, k: nat): Pattern
    requires k < RuleCount
  {
    if g == Current then Instantiate(Shape(k), CjkNumerals, true)
    else Instantiate(Shape(k), LegacyCjk, false)
  }

  /** A line tagged as a heading by a leading `#` or `@`. */
  predicate IsMarkerLine(t: string) {
    StartsWith(t, "#") || StartsWith(t, "@")
  }

  predicate IsMarkChar(c: char) {
    c == '#' || c == '@'
  }

  /** Some rule of generation `g` matches at the start of `t`. */
  predicate AnyRule(g: Generation, t: string) {
    exists k :: 0 <= k < RuleCount && MatchAt(RuleOf(g, k), t, 0).Some?
  }

  /** `is_chapter_title` of generation `g`: whether the line is a heading,
      and the title to use for it.  A marker line's title loses its
      leading `#`/`@` run and the whitespace around it; every other line
      keeps its stripped text. */
  function Classify(g: Generation, line: string): (r: (bool, string))
    ensures IsMarkerLine(Strip(line)) ==> r.0
    ensures !IsMarkerLine(Strip(line)) ==> r.1 == Strip(line)
    ensures Strip(r.1) == r.1
  {
    var t := Strip(line);
    StripIdempotent(line);
    if IsMarkerLine(t) then
      var title := Strip(TrimStartBy(t, IsMarkChar));
      StripIdempotent(TrimStartBy(t, IsMarkChar));
      (true, title)
    else (AnyRule(g, t), t)
  }

  /** A marker line is a heading whose title is what follows its whole
      leading run of `#`/`@`, stripped. */
  lemma MarkerTitle(g: Generation, line: string)
    requires IsMarkerLine(Strip(line))
    ensures var t := Strip(line);
      var k := |t| - |TrimStartBy(t, IsMarkChar)|;
      && 1 <= k <= |t|
      && (forall i :: 0 <= i < k ==> IsMarkChar(t[i]))
      && (k < |t| ==> !IsMarkChar(t[k]))
      && Classify(g, line) == (true, Strip(t[k..]))
  {
    var t := Strip(line);
    assert IsMarkChar(t[0]);
  }

  /** Every keyword any rule reads. */
  const Keywords: set<char> := {'章', '节', '部', '.', '、'}

  lemma ShapeKeywords(k: nat)
    requires k < RuleCount
    ensures Shape(k).keyword <= Keywords
  {
  }

  /** No keyword is whitespace. */
  lemma KeywordsAreNotSpace()
    ensures forall c :: c in Keywords ==> !IsSpace(c)
  {
    assert forall c :: c in Keywords ==> c == '.' || c > '\U{3000}';
  }

  lemma DigitsAreClean()
    ensures forall c :: c in Digits ==> !IsSpace(c) && c !in Keywords
  {
    assert forall c :: c in Digits ==> '0' <= c <= '9';
  }

  lemma CjkNumeralsAreClean()
    ensures forall c :: c in CjkNumerals ==> !IsSpace(c) && c !in Keywords
  {
    assert forall c :: c in CjkNumerals ==> c > '\U{3000}';
    assert forall c :: c in Keywords ==> c !in CjkNumerals;
  }

  lemma LegacyCjkIsNarrower()
    ensures forall c :: c in LegacyCjk ==> c in CjkNumerals
  {
  }

  /** Every numeral class of either generation is free of whitespace and
      of keywords. */
  lemma ClassIsClean(n: NumeralClass, chinese: set<char>)
    requires chinese == CjkNumerals || chinese == LegacyCjk
    ensures forall c :: c in ClassChars(n, chinese) ==> !IsSpace(c) && c !in Keywords
  {
    match n
    case Arabic => DigitsAreClean();
    case RomanNumeral =>
    case Chinese =>
      CjkNumeralsAreClean();
      LegacyCjkIsNarrower();
  }

  /** A rule whose numeral class is clean is well formed. */
  lemma InstantiateWellFormed(r: Rule, chinese: set<char>, guarded: bool)
    requires r.keyword <= Keywords
    requires forall c :: c in ClassChars(r.numeral, chinese) ==> !IsSpace(c) && c !in Keywords
    ensures WellFormed(Instantiate(r, chinese, guarded))
  {
    KeywordsAreNotSpace();
  }

  /** Both generations' rules are well formed, so their greedy scans are
      their regular expressions. */
  lemma RuleWellFormed(g: Generation, k: nat)
    requires k < RuleCount
    ensures WellFormed(RuleOf(g, k))
  {
    var chinese := if g == Current then CjkNumerals else LegacyCjk;
    ShapeKeywords(k);
    ClassIsClean(Shape(k).numeral, chinese);
    InstantiateWellFormed(Shape(k), chinese, g == Current);
  }

  /** A line is a heading exactly when it carries a marker or one of the
      rules' regular expressions matches at the start of its stripped
      text. */
  lemma ClassifyIsRegexReading(g: Generation, line: string)
    ensures var t := Strip(line);
      Classify(g, line).0 <==>
        IsMarkerLine(t) || exists k, h :: 0 <= k < RuleCount && SpecAt(RuleOf(g, k), t, 0, h)
  {
    var t := Strip(line);
    if AnyRule(g, t) {
      var k :| 0 <= k < RuleCount && MatchAt(RuleOf(g, k), t, 0).Some?;
      MatchAtSound(RuleOf(g, k), t, 0);
    }
    if exists k, h :: 0 <= k < RuleCount && SpecAt(RuleOf(g, k), t, 0, h) {
      var k, h :| 0 <= k < RuleCount && SpecAt(RuleOf(g, k), t, 0, h);
      RuleWellFormed(g, k);
      MatchAtComplete(RuleOf(g, k), t, 0, h);
    }
  }

  /** Whichever rule accepts an unmarked line now, the heading token it
      matched is followed by whitespace or the end of the line. */
  lemma HeadingTokenStandsAlone(line: string)
    requires !IsMarkerLine(Strip(line)) && Classify(Current, line).0
    ensures exists k, h ::
              0 <= k < RuleCount && SpecAt(RuleOf(Current, k), Strip(line), 0, h) && StandsAlone(Strip(line), h.end)
  {
    GuardedHit(Strip(line));
  }

  /** Position `e` of `t` is the end of the line or whitespace. */
  predicate StandsAlone(t: string, e: nat) {
    e == |t| || (e < |t| && IsSpace(t[e]))
  }

  /** A current rule that matches has a reading whose end stands alone. */
  lemma GuardedHit(t: string)
    requires AnyRule(Current, t)
    ensures exists k, h :: 0 <= k < RuleCount && SpecAt(RuleOf(Current, k), t, 0, h) && StandsAlone(t, h.end)
  {
    var k :| 0 <= k < RuleCount && MatchAt(RuleOf(Current, k), t, 0).Some?;
    var p := RuleOf(Current, k);
    var h := MatchAt(p, t, 0).value;
    MatchAtSound(p, t, 0);
    assert p.guarded;
    assert SpecAt(p, t, 0, h) && StandsAlone(t, h.end);
  }

  /** A reading of a current rule is a reading of its legacy counterpart
      when the numeral run stays inside the legacy class. */
  lemma ReadingCarriesOver(k: nat, t: string, h: Hit)
    requires k < RuleCount
    requires SpecAt(RuleOf(Current, k), t, 0, h)
    requires forall j :: 0 <= j < |t| ==> t[j] in CjkNumerals ==> t[j] in LegacyCjk
    ensures SpecAt(RuleOf(Legacy, k), t, 0, h)
  {
    var p := RuleOf(Current, k);
    var q := RuleOf(Legacy, k);
    forall j | h.runStart <= j < h.runEnd ensures t[j] in q.numeral {
      assert t[j] in p.numeral;
    }
  }

  /** On lines that use no numeral the legacy class lacks (〇, 两, 零, 壹 …
      仟), the current classifier only narrows the legacy one: the guards
      reject lines, they never admit new ones. */
  lemma CurrentIsNarrowerThanLegacy(line: string)
    requires forall j :: 0 <= j < |Strip(line)| ==> Strip(line)[j] in CjkNumerals ==> Strip(line)[j] in LegacyCjk
    ensures Classify(Current, line).0 ==> Classify(Legacy, line).0
  {
    var t := Strip(line);
    if !IsMarkerLine(t) && Classify(Current, line).0 {
      assert AnyRule(Current, t);
      var k :| 0 <= k < RuleCount && MatchAt(RuleOf(Current, k), t, 0).Some?;
      var h := MatchAt(RuleOf(Current, k), t, 0).value;
      MatchAtSound(RuleOf(Current, k), t, 0);
      ReadingCarriesOver(k, t, h);
      RuleWellFormed(Legacy, k);
      MatchAtComplete(RuleOf(Legacy, k), t, 0, h);
      assert AnyRule(Legacy, t);
    }
  }

  /** `add_chapter_marker_to_line`. */
  function AddMarker(line: string, marker: string): (r: string)
    ensures StartsWith(r, marker)
    ensures StartsWith(line, marker) ==> r == line
    ensures !StartsWith(line, marker) ==> r[|marker|..] == line && |r| == |marker| + |line|
  {
    if StartsWith(line, marker) then line else marker + line
  }

  /** Marking a marked line changes nothing. */
  lemma AddMarkerIdempotent(line: string, marker: string)
    ensures AddMarker(AddMarker(line, marker), marker) == AddMarker(line, marker)
  {
  }
}

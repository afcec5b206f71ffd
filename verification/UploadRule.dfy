/** The upload rules of an album and the list of patterns they are stored as. */
module UploadRule {
  import opened Options
  import Numerals

  datatype Rule = Rule(
    noDuplication: Option<bool>,
    takenAfter: Option<Instant>,
    takenBefore: Option<Instant>,
    minimumResolutionMp: Option<int>,
    watermarkPreset: Option<string>)

  /** A rule's regular expression: a fixed prefix, one or more decimal digits, a fixed suffix. */
  datatype Pattern = Pattern(prefix: string, suffix: string)

  const NO_DUPLICATION := "NO_DUP"
  const PIXEL_RESOLUTION := Pattern("PX_", "MP")
  const TAKEN_AFTER := Pattern("TA_", "")
  const TAKEN_BEFORE := Pattern("TB_", "")
  const WATERMARK := Pattern("WM_", "")
  const SECOND := 1000

  /** `dayjs.unix()`: whole seconds, rounded down. */
  function Unix(t: Instant): int {
    t / SECOND
  }

  function Item(present: bool, text: string): (items: seq<string>)
    ensures forall item :: item in items <==> present && item == text
  {
    if present then [text] else []
  }

  /** The items that are strings: a false flag and a zero resolution are dropped, an empty preset stays as "". */
  function ToPattern(rule: Rule): seq<string> {
    Item(rule.noDuplication == Some(true), NO_DUPLICATION)
    + Item(rule.minimumResolutionMp.Some? && rule.minimumResolutionMp.value != 0, ResolutionItem(rule))
    + Item(rule.takenAfter.Some?, AfterItem(rule))
    + Item(rule.takenBefore.Some?, BeforeItem(rule))
    + Item(rule.watermarkPreset.Some?, WatermarkItem(rule))
  }

  function ResolutionItem(rule: Rule): string {
    match rule.minimumResolutionMp case None => "" case Some(mp) => "PX_" + Numerals.PrintInt(mp, 10) + "MP"
  }

  function AfterItem(rule: Rule): string {
    match rule.takenAfter case None => "" case Some(t) => "TA_" + Numerals.PrintInt(Unix(t), 10)
  }

  function BeforeItem(rule: Rule): string {
    match rule.takenBefore case None => "" case Some(t) => "TB_" + Numerals.PrintInt(Unix(t), 10)
  }

  function WatermarkItem(rule: Rule): string {
    match rule.watermarkPreset case None => "" case Some(preset) => if preset == "" then "" else "WM_" + preset
  }

  predicate IsDecimal(text: string) {
    text != "" && forall c :: c in text ==> '0' <= c <= '9'
  }

  /** `pattern.exec(text)?.at(1)`: the digits between prefix and suffix. */
  function Capture(pattern: Pattern, text: string): (digits: Option<string>)
    ensures digits.Some? ==> IsDecimal(digits.value) && text == pattern.prefix + digits.value + pattern.suffix
  {
    var p, s := |pattern.prefix|, |pattern.suffix|;
    if p + s < |text| && text[..p] == pattern.prefix && text[|text| - s..] == pattern.suffix
       && IsDecimal(text[p..|text| - s])
    then Some(text[p..|text| - s]) else None
  }

  /** The value of the first item that the pattern matches (`rules.find(...)`). */
  function Lookup(rules: seq<string>, pattern: Pattern): (digits: Option<string>)
    ensures digits.Some? ==> exists item :: item in rules && Capture(pattern, item) == digits
    ensures digits.None? ==> forall item :: item in rules ==> Capture(pattern, item).None?
  {
    if rules == [] then None
    else if Capture(pattern, rules[0]).Some? then Capture(pattern, rules[0])
    else
      assert forall item :: item in rules ==> item == rules[0] || item in rules[1..];
      Lookup(rules[1..], pattern)
  }

  function Number(digits: Option<string>): Option<int> {
    match digits
    case None => None
    case Some(text) => match Numerals.ParseInt(text, 10) case None => None case Some(n) => Some(n)
  }

  function Seconds(count: Option<int>): Option<Instant> {
    match count case None => None case Some(n) => Some(n * SECOND)
  }

  function FromPattern(rules: seq<string>): Rule {
    Rule(
      Some(NO_DUPLICATION in rules),
      Seconds(Number(Lookup(rules, TAKEN_AFTER))),
      Seconds(Number(Lookup(rules, TAKEN_BEFORE))),
      Number(Lookup(rules, PIXEL_RESOLUTION)),
      Lookup(rules, WATERMARK))
  }

  lemma CaptureOf(pattern: Pattern, digits: string)
    ensures Capture(pattern, pattern.prefix + digits + pattern.suffix) == if IsDecimal(digits) then Some(digits)
      else None
  {
  }

  predicate IsPattern(pattern: Pattern) {
    pattern in [PIXEL_RESOLUTION, TAKEN_AFTER, TAKEN_BEFORE, WATERMARK]
  }

  /** No item satisfies two of the regular expressions, and the duplication flag satisfies none of the four. */
  lemma PatternsExcludeEachOther(text: string, p: Pattern, q: Pattern)
    requires IsPattern(p) && IsPattern(q)
    ensures Capture(p, text).Some? && Capture(q, text).Some? ==> p == q
    ensures Capture(p, NO_DUPLICATION).None?
  {
    if Capture(p, text).Some? && Capture(q, text).Some? {
      assert text[0] == p.prefix[0] == q.prefix[0];
      assert text[1] == p.prefix[1] == q.prefix[1];
    }
    assert NO_DUPLICATION[..3][0] == 'N' && p.prefix[0] != 'N';
  }

  lemma DecimalOfInt(n: int)
    ensures IsDecimal(Numerals.PrintInt(n, 10)) <==> n >= 0
    ensures n >= 0 ==> Number(Some(Numerals.PrintInt(n, 10))) == Some(n)
  {
    if n < 0 {
      assert Numerals.PrintInt(n, 10)[0] == '-' && Numerals.PrintInt(n, 10)[0] in Numerals.PrintInt(n, 10);
    } else {
      Numerals.PrintThenParse(n, 10, "");
      assert Numerals.PrintInt(n, 10) + "" == Numerals.PrintInt(n, 10);
    }
  }

  /** The only item a pattern can match is the one its own field was written to. */
  lemma LookupInPrinted(rule: Rule, pattern: Pattern, present: bool, own: string, digits: string)
    requires IsPattern(pattern)
    requires own == pattern.prefix + digits + pattern.suffix
    requires present ==> own in ToPattern(rule)
    requires forall item :: item in ToPattern(rule) && Capture(pattern, item).Some? ==> present && item == own
    ensures Lookup(ToPattern(rule), pattern) == if present && IsDecimal(digits) then Some(digits) else None
  {
    CaptureOf(pattern, digits);
  }

  /** The texts that are stored for a rule; a false flag and a zero resolution are not, an empty preset is "". */
  predicate IsItem(item: string, rule: Rule) {
    || (rule.noDuplication == Some(true) && item == "NO_DUP")
    || (rule.minimumResolutionMp.Some? && rule.minimumResolutionMp.value != 0
        && item == "PX_" + Numerals.PrintInt(rule.minimumResolutionMp.value, 10) + "MP")
    || (rule.takenAfter.Some? && item == "TA_" + Numerals.PrintInt(rule.takenAfter.value / 1000, 10))
    || (rule.takenBefore.Some? && item == "TB_" + Numerals.PrintInt(rule.takenBefore.value / 1000, 10))
    || (rule.watermarkPreset.Some? && rule.watermarkPreset.value == "" && item == "")
    || (rule.watermarkPreset.Some? && rule.watermarkPreset.value != "" && item == "WM_" + rule.watermarkPreset.value)
  }

  lemma Items(rule: Rule)
    ensures forall item :: item in ToPattern(rule) <==> IsItem(item, rule)
  {
    forall item ensures item in ToPattern(rule) <==> IsItem(item, rule) {
      InFiveParts(
        Item(rule.noDuplication == Some(true), NO_DUPLICATION),
        Item(rule.minimumResolutionMp.Some? && rule.minimumResolutionMp.value != 0, ResolutionItem(rule)),
        Item(rule.takenAfter.Some?, AfterItem(rule)),
        Item(rule.takenBefore.Some?, BeforeItem(rule)),
        Item(rule.watermarkPreset.Some?, WatermarkItem(rule)), item);
    }
  }

  lemma InFiveParts(a: seq<string>, b: seq<string>, c: seq<string>, d: seq<string>, e: seq<string>, item: string)
    ensures item in a + b + c + d + e <==> item in a || item in b || item in c || item in d || item in e
  {
  }

  /** Which printed item each pattern matches, told by the first two characters. */
  lemma MatchedItem(rule: Rule, pattern: Pattern, item: string)
    requires IsPattern(pattern) && IsItem(item, rule) && Capture(pattern, item).Some?
    ensures pattern == PIXEL_RESOLUTION ==>
      rule.minimumResolutionMp.Some? && rule.minimumResolutionMp.value != 0 && item == ResolutionItem(rule)
    ensures pattern == TAKEN_AFTER ==> rule.takenAfter.Some? && item == AfterItem(rule)
    ensures pattern == TAKEN_BEFORE ==> rule.takenBefore.Some? && item == BeforeItem(rule)
    ensures pattern == WATERMARK ==>
      rule.watermarkPreset.Some? && rule.watermarkPreset.value != "" && item == WatermarkItem(rule)
  {
    assert item[0] == pattern.prefix[0] && item[1] == pattern.prefix[1];
  }

  lemma LookupTimes(rule: Rule)
    ensures Lookup(ToPattern(rule), TAKEN_AFTER)
         == if rule.takenAfter.Some? && rule.takenAfter.value >= 0
           then Some(Numerals.PrintInt(Unix(rule.takenAfter.value), 10)) else None
    ensures Lookup(ToPattern(rule), TAKEN_BEFORE)
         == if rule.takenBefore.Some? && rule.takenBefore.value >= 0
           then Some(Numerals.PrintInt(Unix(rule.takenBefore.value), 10)) else None
  {
    Items(rule);
    forall pattern, item | IsPattern(pattern) && item in ToPattern(rule) && Capture(pattern, item).Some?
      ensures pattern == TAKEN_AFTER ==> rule.takenAfter.Some? && item == AfterItem(rule)
      ensures pattern == TAKEN_BEFORE ==> rule.takenBefore.Some? && item == BeforeItem(rule)
    {
      MatchedItem(rule, pattern, item);
    }
    var after := if rule.takenAfter.Some? then Numerals.PrintInt(Unix(rule.takenAfter.value), 10) else "";
    var before := if rule.takenBefore.Some? then Numerals.PrintInt(Unix(rule.takenBefore.value), 10) else "";
    if rule.takenAfter.Some? {
      DecimalOfInt(Unix(rule.takenAfter.value));
      assert "TA_" + after + "" == "TA_" + after;
    }
    if rule.takenBefore.Some? {
      DecimalOfInt(Unix(rule.takenBefore.value));
      assert "TB_" + before + "" == "TB_" + before;
    }
    LookupInPrinted(rule, TAKEN_AFTER, rule.takenAfter.Some?, "TA_" + after, after);
    LookupInPrinted(rule, TAKEN_BEFORE, rule.takenBefore.Some?, "TB_" + before, before);
  }

  lemma LookupResolution(rule: Rule)
    ensures Lookup(ToPattern(rule), PIXEL_RESOLUTION)
         == if rule.minimumResolutionMp.Some? && rule.minimumResolutionMp.value > 0
            then Some(Numerals.PrintInt(rule.minimumResolutionMp.value, 10)) else None
  {
    Items(rule);
    forall item | item in ToPattern(rule) && Capture(PIXEL_RESOLUTION, item).Some?
      ensures rule.minimumResolutionMp.Some? && rule.minimumResolutionMp.value != 0 && item == ResolutionItem(rule)
    {
      MatchedItem(rule, PIXEL_RESOLUTION, item);
    }
    var present := rule.minimumResolutionMp.Some? && rule.minimumResolutionMp.value != 0;
    var digits := if rule.minimumResolutionMp.Some? then Numerals.PrintInt(rule.minimumResolutionMp.value, 10) else "";
    if rule.minimumResolutionMp.Some? {
      DecimalOfInt(rule.minimumResolutionMp.value);
    }
    LookupInPrinted(rule, PIXEL_RESOLUTION, present, "PX_" + digits + "MP", digits);
  }

  lemma LookupWatermark(rule: Rule)
    ensures Lookup(ToPattern(rule), WATERMARK)
         == if rule.watermarkPreset.Some? && IsDecimal(rule.watermarkPreset.value) then rule.watermarkPreset else None
  {
    Items(rule);
    forall item | item in ToPattern(rule) && Capture(WATERMARK, item).Some?
      ensures rule.watermarkPreset.Some? && rule.watermarkPreset.value != "" && item == WatermarkItem(rule)
    {
      MatchedItem(rule, WATERMARK, item);
    }
    var present := rule.watermarkPreset.Some? && rule.watermarkPreset.value != "";
    var digits := if rule.watermarkPreset.Some? then rule.watermarkPreset.value else "";
    assert "WM_" + digits + "" == "WM_" + digits;
    LookupInPrinted(rule, WATERMARK, present, "WM_" + digits, digits);
  }

  predicate IsWholeSecond(time: Option<Instant>) {
    time.Some? ==> time.value >= 0 && time.value % SECOND == 0
  }

  /** The rules that survive being written down: what a caller has to check before storing patterns. */
  predicate IsRestorable(rule: Rule) {
    && rule.noDuplication.Some?
    && IsWholeSecond(rule.takenAfter)
    && IsWholeSecond(rule.takenBefore)
    && (rule.minimumResolutionMp.Some? ==> rule.minimumResolutionMp.value > 0)
    && (rule.watermarkPreset.Some? ==> IsDecimal(rule.watermarkPreset.value))
  }

  lemma RestoredTime(t: Instant)
    requires t >= 0
    ensures Seconds(Number(Some(Numerals.PrintInt(Unix(t), 10)))) == Some(t) <==> t % SECOND == 0
  {
    DecimalOfInt(Unix(t));
  }

  lemma FlagInPrinted(rule: Rule)
    ensures NO_DUPLICATION in ToPattern(rule) <==> rule.noDuplication == Some(true)
  {
    Items(rule);
    if IsItem(NO_DUPLICATION, rule) {
      assert NO_DUPLICATION[0] == 'N';
      if rule.minimumResolutionMp.Some? {
        assert ResolutionItem(rule)[0] == 'P';
      }
    }
  }

  lemma RestoredResolution(rule: Rule)
    ensures FromPattern(ToPattern(rule)).minimumResolutionMp == rule.minimumResolutionMp
       <==> (rule.minimumResolutionMp.Some? ==> rule.minimumResolutionMp.value > 0)
  {
    LookupResolution(rule);
    if rule.minimumResolutionMp.Some? {
      DecimalOfInt(rule.minimumResolutionMp.value);
    }
  }

  lemma RestoredTimes(rule: Rule)
    ensures FromPattern(ToPattern(rule)).takenAfter == rule.takenAfter <==> IsWholeSecond(rule.takenAfter)
    ensures FromPattern(ToPattern(rule)).takenBefore == rule.takenBefore <==> IsWholeSecond(rule.takenBefore)
  {
    LookupTimes(rule);
    if rule.takenAfter.Some? && rule.takenAfter.value >= 0 {
      RestoredTime(rule.takenAfter.value);
    }
    if rule.takenBefore.Some? && rule.takenBefore.value >= 0 {
      RestoredTime(rule.takenBefore.value);
    }
  }

  lemma RestoredFlagAndPreset(rule: Rule)
    ensures FromPattern(ToPattern(rule)).noDuplication == rule.noDuplication <==> rule.noDuplication.Some?
    ensures FromPattern(ToPattern(rule)).watermarkPreset == rule.watermarkPreset
       <==> (rule.watermarkPreset.Some? ==> IsDecimal(rule.watermarkPreset.value))
  {
    FlagInPrinted(rule);
    LookupWatermark(rule);
    match rule.noDuplication
    case None =>
    case Some(flag) =>
      assert flag <==> rule.noDuplication == Some(true);
      assert flag == (NO_DUPLICATION in ToPattern(rule));
  }

  predicate SameFields(rule: Rule, rule': Rule) {
    && rule.noDuplication == rule'.noDuplication
    && rule.takenAfter == rule'.takenAfter
    && rule.takenBefore == rule'.takenBefore
    && rule.minimumResolutionMp == rule'.minimumResolutionMp
    && rule.watermarkPreset == rule'.watermarkPreset
  }

  lemma SameFieldsSameRule(rule: Rule, rule': Rule)
    ensures rule == rule' <==> SameFields(rule, rule')
  {
  }

  lemma RestoredFields(rule: Rule)
    ensures SameFields(FromPattern(ToPattern(rule)), rule) <==> IsRestorable(rule)
  {
    RestoredFlagAndPreset(rule);
    RestoredTimes(rule);
    RestoredResolution(rule);
  }

  /** Reading the patterns back restores the rule for exactly the restorable rules. */
  lemma PatternRoundTrip(rule: Rule)
    ensures FromPattern(ToPattern(rule)) == rule <==> IsRestorable(rule)
  {
    RestoredFields(rule);
    SameFieldsSameRule(FromPattern(ToPattern(rule)), rule);
  }

  lemma SameLookup(rules: seq<string>, rules': seq<string>, pattern: Pattern)
    requires forall item :: item in rules <==> item in rules'
    requires forall item, item' | item in rules && item' in rules ::
      Capture(pattern, item).Some? && Capture(pattern, item').Some? ==> item == item'
    ensures Lookup(rules, pattern) == Lookup(rules', pattern)
  {
  }

  lemma SameLookupInPrinted(rule: Rule, shuffled: seq<string>, pattern: Pattern)
    requires forall item :: item in ToPattern(rule) <==> item in shuffled
    requires IsPattern(pattern)
    ensures Lookup(ToPattern(rule), pattern) == Lookup(shuffled, pattern)
  {
    Items(rule);
    var printed := ToPattern(rule);
    forall item, item' | item in printed && item' in printed
      && Capture(pattern, item).Some? && Capture(pattern, item').Some?
      ensures item == item'
    {
      MatchedItem(rule, pattern, item);
      MatchedItem(rule, pattern, item');
    }
    SameLookup(printed, shuffled, pattern);
  }

  /** The stored order of the patterns does not matter. */
  lemma PatternOrderIsIrrelevant(rule: Rule, shuffled: seq<string>)
    requires multiset(shuffled) == multiset(ToPattern(rule))
    ensures FromPattern(shuffled) == FromPattern(ToPattern(rule))
  {
    var printed := ToPattern(rule);
    forall item ensures item in printed <==> item in shuffled {
      assert item in printed <==> item in multiset(printed);
      assert item in shuffled <==> item in multiset(shuffled);
    }
    forall pattern | IsPattern(pattern) ensures Lookup(printed, pattern) == Lookup(shuffled, pattern) {
      SameLookupInPrinted(rule, shuffled, pattern);
    }
    SameLookups(printed, shuffled);
  }

  lemma SameLookups(rules: seq<string>, rules': seq<string>)
    requires forall pattern :: IsPattern(pattern) ==> Lookup(rules, pattern) == Lookup(rules', pattern)
    requires NO_DUPLICATION in rules <==> NO_DUPLICATION in rules'
    ensures FromPattern(rules) == FromPattern(rules')
  {
  }
}

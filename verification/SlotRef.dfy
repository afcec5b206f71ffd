/** Interview-slot reference ids: two base-36 minute counts joined by a dash. */
module SlotRef {
  import opened Options
  import Numerals

  const MINUTE := 60000
  const BASE := 36
  const SEPARATOR := '-'

  /** The largest time value of a `Date` (section 21.4.1.1 of ECMA-262, 14th edition). */
  const MAX_TIME := 8640000000000000

  /** A `Date`, an invalid one, or none at all. */
  datatype RefDate = At(time: Instant) | Invalid | Missing

  /** What `fromRefId` returns. */
  datatype RefTimes = RefTimes(start: RefDate, end: RefDate)

  predicate IsTime(t: Instant) {
    -MAX_TIME <= t <= MAX_TIME
  }

  /** `Math.floor(t / MINUTE)`: rounds towards minus infinity. */
  function Minutes(t: Instant): int {
    t / MINUTE
  }

  function FloorToMinute(t: Instant): Instant {
    Minutes(t) * MINUTE
  }

  function RefId(start: Instant, end: Instant): string {
    Numerals.PrintInt(Minutes(start), BASE) + [SEPARATOR] + Numerals.PrintInt(Minutes(end), BASE)
  }

  function IndexOf(text: string, c: char): (at: nat)
    ensures at <= |text|
    ensures c !in text[..at]
    ensures at < |text| ==> text[at] == c
  {
    if text == "" || text[0] == c then 0 else 1 + IndexOf(text[1..], c)
  }

  /** `text.split(separator)`. */
  function Split(text: string, separator: char): (parts: seq<string>)
    ensures parts != []
    decreases |text|
  {
    var at := IndexOf(text, separator);
    if at == |text| then [text] else [text[..at]] + Split(text[at + 1..], separator)
  }

  function ToDate(base36: string): RefDate {
    match Numerals.ParseInt(base36, BASE)
    case None => Invalid
    case Some(minutes) => if minutes * MINUTE <= MAX_TIME then At(minutes * MINUTE) else Invalid
  }

  function FromRefId(refId: string): RefTimes {
    var parts := Split(refId, SEPARATOR);
    RefTimes(ToDate(parts[0]), if |parts| > 1 then ToDate(parts[1]) else Missing)
  }

  lemma {:induction false} IndexOfIsFirst(front: string, c: char, rest: string)
    requires c !in front
    ensures IndexOf(front + [c] + rest, c) == |front|
    ensures IndexOf(front, c) == |front|
  {
    if front == "" {
    } else {
      assert front[0] in front && front[0] != c;
      assert (front + [c] + rest)[1..] == front[1..] + [c] + rest;
      IndexOfIsFirst(front[1..], c, rest);
    }
  }

  lemma SplitAtFirst(front: string, rest: string, separator: char)
    requires separator !in front
    ensures Split(front + [separator] + rest, separator) == [front] + Split(rest, separator)
  {
    var text := front + [separator] + rest;
    IndexOfIsFirst(front, separator, rest);
    assert text[..|front|] == front && text[|front| + 1..] == rest;
  }

  lemma SplitOfOnePart(text: string, separator: char)
    requires separator !in text
    ensures Split(text, separator) == [text]
  {
  }

  lemma SameFront(front: string, rest: string, front': string, rest': string, separator: char)
    requires separator !in front && separator !in front'
    requires front + [separator] + rest == front' + [separator] + rest'
    ensures front == front' && rest == rest'
  {
    var text := front + [separator] + rest;
    IndexOfIsFirst(front, separator, rest);
    IndexOfIsFirst(front', separator, rest');
    assert text[..|front|] == front && text[|front| + 1..] == rest;
    assert text[..|front'|] == front' && text[|front'| + 1..] == rest';
  }

  lemma PrintedHasNoDash(n: nat)
    ensures SEPARATOR !in Numerals.Print(n, BASE)
    ensures Numerals.Print(n, BASE) != ""
  {
  }

  lemma ToDateOfPrinted(minutes: nat)
    requires minutes * MINUTE <= MAX_TIME
    ensures ToDate(Numerals.Print(minutes, BASE)) == At(minutes * MINUTE)
  {
    Numerals.PrintThenParse(minutes, BASE, "");
    assert Numerals.Print(minutes, BASE) + "" == Numerals.Print(minutes, BASE);
  }

  lemma ToDateOfNothing()
    ensures ToDate("") == Invalid
  {
  }

  lemma SplitNonNegative(start: nat, end: nat)
    ensures Split(RefId(start, end), SEPARATOR)
      == [Numerals.PrintInt(Minutes(start), BASE), Numerals.PrintInt(Minutes(end), BASE)]
  {
    PrintedHasNoDash(Minutes(start));
    PrintedHasNoDash(Minutes(end));
    SplitAtFirst(Numerals.PrintInt(Minutes(start), BASE), Numerals.PrintInt(Minutes(end), BASE), SEPARATOR);
    SplitOfOnePart(Numerals.PrintInt(Minutes(end), BASE), SEPARATOR);
  }

  lemma SplitNegativeNumber(n: int, rest: string)
    requires n < 0
    ensures Split(Numerals.PrintInt(n, BASE) + rest, SEPARATOR)[0] == ""
  {
  }

  lemma SplitNegative(start: Instant, end: Instant)
    requires start < 0 || end < 0
    ensures start < 0 ==> Split(RefId(start, end), SEPARATOR)[0] == ""
    ensures start >= 0 ==> |Split(RefId(start, end), SEPARATOR)| > 1 && Split(RefId(start, end), SEPARATOR)[1] == ""
  {
    var first, second := Numerals.PrintInt(Minutes(start), BASE), Numerals.PrintInt(Minutes(end), BASE);
    if start < 0 {
      assert RefId(start, end) == first + ([SEPARATOR] + second);
      SplitNegativeNumber(Minutes(start), [SEPARATOR] + second);
    } else {
      PrintedHasNoDash(Minutes(start));
      SplitAtFirst(first, second, SEPARATOR);
      SplitNegativeNumber(Minutes(end), "");
      assert second + "" == second;
    }
  }

  /** What comes back: both times floored to the minute, except that a time before the epoch makes a date invalid. */
  lemma TimesOfRefId(start: Instant, end: Instant)
    requires IsTime(start) && IsTime(end)
    ensures start >= 0 && end >= 0 ==>
      FromRefId(RefId(start, end)) == RefTimes(At(FloorToMinute(start)), At(FloorToMinute(end)))
    ensures FromRefId(RefId(start, end)).start.Invalid? <==> start < 0
    ensures start >= 0 ==> (FromRefId(RefId(start, end)).end.Invalid? <==> end < 0)
  {
    ToDateOfNothing();
    if start < 0 || end < 0 {
      SplitNegative(start, end);
    } else {
      SplitNonNegative(start, end);
      ToDateOfPrinted(Minutes(end));
    }
    if start >= 0 {
      StartOfRefId(start, end);
    }
  }

  lemma StartOfRefId(start: nat, end: Instant)
    requires IsTime(start)
    ensures FromRefId(RefId(start, end)).start == At(FloorToMinute(start))
  {
    PrintedHasNoDash(Minutes(start));
    SplitAtFirst(Numerals.PrintInt(Minutes(start), BASE), Numerals.PrintInt(Minutes(end), BASE), SEPARATOR);
    ToDateOfPrinted(Minutes(start));
  }

  /** A reference id gives back both times, floored to the minute, exactly when neither lies before the epoch. */
  lemma RefIdRoundTrip(start: Instant, end: Instant)
    requires IsTime(start) && IsTime(end)
    ensures FromRefId(RefId(start, end)) == RefTimes(At(FloorToMinute(start)), At(FloorToMinute(end)))
       <==> start >= 0 && end >= 0
  {
    TimesOfRefId(start, end);
  }

  /** From the epoch on, a reference id gives back the very times exactly when both are full minutes. */
  lemma RefIdIsExact(start: Instant, end: Instant)
    requires 0 <= start <= MAX_TIME && 0 <= end <= MAX_TIME
    ensures FromRefId(RefId(start, end)) == RefTimes(At(start), At(end)) <==> start % MINUTE == 0 && end % MINUTE == 0
  {
    RefIdRoundTrip(start, end);
  }

  /** Two numerals as `toString` writes them, both within the range of a date. */
  predicate IsCanonicalRef(refId: string) {
    var parts := Split(refId, SEPARATOR);
    && |parts| == 2
    && Numerals.IsNumeral(parts[0], BASE) && ToDate(parts[0]).At?
    && Numerals.IsNumeral(parts[1], BASE) && ToDate(parts[1]).At?
  }

  lemma JoinOfSplit(text: string, separator: char)
    requires |Split(text, separator)| == 2
    ensures text == Split(text, separator)[0] + [separator] + Split(text, separator)[1]
  {
  }

  lemma CanonicalRefIsPrinted(refId: string)
    requires IsCanonicalRef(refId)
    ensures FromRefId(refId).start.At? && FromRefId(refId).end.At?
    ensures RefId(FromRefId(refId).start.time, FromRefId(refId).end.time) == refId
  {
    var parts := Split(refId, SEPARATOR);
    Numerals.ParseThenPrint(parts[0], BASE);
    Numerals.ParseThenPrint(parts[1], BASE);
    JoinOfSplit(refId, SEPARATOR);
  }

  lemma PrintedRefIsCanonical(start: nat, end: nat)
    requires IsTime(start) && IsTime(end)
    ensures IsCanonicalRef(RefId(start, end))
  {
    SplitNonNegative(start, end);
    Numerals.PrintThenParse(Minutes(start), BASE, "");
    Numerals.PrintThenParse(Minutes(end), BASE, "");
    ToDateOfPrinted(Minutes(start));
    ToDateOfPrinted(Minutes(end));
  }

  /** Parsing a reference id and printing it again restores exactly the canonical ids. */
  lemma RefIdOfTimes(refId: string)
    ensures (var times := FromRefId(refId);
             times.start.At? && times.end.At? && RefId(times.start.time, times.end.time) == refId)
       <==> IsCanonicalRef(refId)
  {
    var times := FromRefId(refId);
    if IsCanonicalRef(refId) {
      CanonicalRefIsPrinted(refId);
    }
    if times.start.At? && times.end.At? && RefId(times.start.time, times.end.time) == refId {
      PrintedRefIsCanonical(times.start.time, times.end.time);
    }
  }

  lemma PrintIntSign(n: int)
    ensures Numerals.PrintInt(n, BASE) != "" && (Numerals.PrintInt(n, BASE)[0] == SEPARATOR <==> n < 0)
  {
  }

  lemma PrintIntIsInjective(m: int, n: int)
    ensures Numerals.PrintInt(m, BASE) == Numerals.PrintInt(n, BASE) <==> m == n
  {
    PrintIntSign(m);
    PrintIntSign(n);
    Numerals.PrintIsInjective(if m < 0 then -m else m, if n < 0 then -n else n, BASE);
    if m < 0 && n < 0 {
      assert Numerals.PrintInt(m, BASE)[1..] == Numerals.Print(-m, BASE)
        && Numerals.PrintInt(n, BASE)[1..] == Numerals.Print(-n, BASE);
    }
  }

  lemma SameDigits(m: nat, rest: string, n: nat, rest': string)
    requires Numerals.Print(m, BASE) + [SEPARATOR] + rest == Numerals.Print(n, BASE) + [SEPARATOR] + rest'
    ensures m == n && rest == rest'
  {
    PrintedHasNoDash(m);
    PrintedHasNoDash(n);
    SameFront(Numerals.Print(m, BASE), rest, Numerals.Print(n, BASE), rest', SEPARATOR);
    Numerals.PrintIsInjective(m, n, BASE);
  }

  lemma SameSign(m: int, rest: string, n: int, rest': string)
    requires Numerals.PrintInt(m, BASE) + [SEPARATOR] + rest == Numerals.PrintInt(n, BASE) + [SEPARATOR] + rest'
    ensures m < 0 <==> n < 0
  {
    PrintIntSign(m);
    PrintIntSign(n);
    var text := Numerals.PrintInt(m, BASE) + [SEPARATOR] + rest;
    assert text[0] == Numerals.PrintInt(m, BASE)[0];
    assert text[0] == Numerals.PrintInt(n, BASE)[0];
  }

  /** The sign and the digits before the separating dash determine where that dash is. */
  lemma SameFirstPart(m: int, rest: string, n: int, rest': string)
    requires Numerals.PrintInt(m, BASE) + [SEPARATOR] + rest == Numerals.PrintInt(n, BASE) + [SEPARATOR] + rest'
    ensures m == n && rest == rest'
  {
    SameSign(m, rest, n, rest');
    if m < 0 {
      Unsigned(m, rest);
      Unsigned(n, rest');
      SameDigits(-m, rest, -n, rest');
    } else {
      SameDigits(m, rest, n, rest');
    }
  }

  lemma Unsigned(m: int, rest: string)
    requires m < 0
    ensures (Numerals.PrintInt(m, BASE) + [SEPARATOR] + rest)[1..] == Numerals.Print(-m, BASE) + [SEPARATOR] + rest
  {
  }

  /** Slots fall into one group exactly when their starts and their ends agree to the minute. */
  lemma SameGroup(start: Instant, end: Instant, start': Instant, end': Instant)
    ensures RefId(start, end) == RefId(start', end')
       <==> Minutes(start) == Minutes(start') && Minutes(end) == Minutes(end')
  {
    if RefId(start, end) == RefId(start', end') {
      SameFirstPart(Minutes(start), Numerals.PrintInt(Minutes(end), BASE), Minutes(start'),
                    Numerals.PrintInt(Minutes(end'), BASE));
      PrintIntIsInjective(Minutes(end), Minutes(end'));
    }
  }
}

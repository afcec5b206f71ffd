/** `Number.prototype.toString(base)` and `parseInt(text, base)` on non-negative integers, for bases up to 36. */
module Numerals {
  import opened Options

  /** The value of a digit list, most significant digit first. */
  function Value(digits: seq<nat>, base: nat): nat {
    if digits == [] then 0 else Value(digits[..|digits| - 1], base) * base + digits[|digits| - 1]
  }

  function Digits(n: nat, base: nat): (digits: seq<nat>)
    requires 2 <= base
  {
    if n < base then [n] else
      QuotientIsSmaller(n, base);
      Digits(n / base, base) + [n % base]
  }

  lemma QuotientIsSmaller(n: nat, base: nat)
    requires 2 <= base <= n
    ensures 0 < n / base < n
  {
  }

  /** Digits of the base, at least one, and no leading zero. */
  predicate Canonical(digits: seq<nat>, base: nat) {
    && digits != []
    && (forall d :: d in digits ==> d < base)
    && (|digits| > 1 ==> digits[0] != 0)
  }

  lemma {:induction false} ValueOfDigits(n: nat, base: nat)
    requires 2 <= base
    ensures Canonical(Digits(n, base), base)
    ensures Value(Digits(n, base), base) == n
    ensures n > 0 ==> Digits(n, base)[0] != 0
  {
    if n < base {
      assert Digits(n, base) == [] + [n];
      ValueOfAppend([], n, base);
    } else {
      QuotientIsSmaller(n, base);
      ValueOfDigits(n / base, base);
      ValueOfAppend(Digits(n / base, base), n % base, base);
      DivideAndMultiply(n, base);
      DigitsOfQuotient(n, base);
    }
  }

  lemma DigitsOfQuotient(n: nat, base: nat)
    requires 2 <= base <= n
    requires Canonical(Digits(n / base, base), base) && Digits(n / base, base)[0] != 0
    ensures Canonical(Digits(n, base), base) && Digits(n, base)[0] != 0
  {
  }

  lemma DivideAndMultiply(n: nat, base: nat)
    requires base > 0
    ensures n / base * base + n % base == n
  {
  }

  lemma ValueOfAppend(front: seq<nat>, last: nat, base: nat)
    ensures Value(front + [last], base) == Value(front, base) * base + last
  {
  }

  lemma AtLeastOnce(k: int, base: nat)
    requires k >= 1
    ensures k * base >= base
  {
  }

  lemma DivisionIsUnique(q: int, r: int, v: int, d: int, base: nat)
    requires 0 <= r < base && 0 <= d < base
    requires q * base + r == v * base + d
    ensures q == v && r == d
  {
    assert (v - q) * base == r - d;
    assert (q - v) * base == d - r;
    if q < v {
      AtLeastOnce(v - q, base);
    } else if v < q {
      AtLeastOnce(q - v, base);
    }
  }

  lemma DivideDigit(v: nat, d: nat, base: nat)
    requires d < base
    ensures (v * base + d) / base == v && (v * base + d) % base == d
  {
    var n := v * base + d;
    assert n == (n / base) * base + n % base;
    DivisionIsUnique(n / base, n % base, v, d, base);
  }

  lemma DigitsOfNext(v: nat, d: nat, base: nat)
    requires 2 <= base && v > 0 && d < base
    ensures Digits(v * base + d, base) == Digits(v, base) + [d]
  {
    DivideDigit(v, d, base);
    AtLeastOnce(v, base);
  }

  lemma LeadingDigitWeighs(digits: seq<nat>, base: nat)
    requires 2 <= base && digits != [] && digits[0] != 0
    ensures Value(digits, base) > 0
  {
  }

  lemma {:induction false} DigitsOfValue(digits: seq<nat>, base: nat)
    requires 2 <= base && Canonical(digits, base)
    ensures Digits(Value(digits, base), base) == digits
  {
    var front, last := digits[..|digits| - 1], digits[|digits| - 1];
    assert last in digits;
    forall d | d in front ensures d < base {
      assert d in digits;
    }
    if |digits| == 1 {
      assert front == [];
      assert digits == [last];
    } else {
      DigitsOfValue(front, base);
      LeadingDigitWeighs(front, base);
      DigitsOfNext(Value(front, base), last, base);
      assert digits == front + [last];
    }
  }

  function DigitValue(c: char): (value: Option<nat>)
    ensures value.Some? ==> value.value < 36
  {
    if '0' <= c <= '9' then Some((c - '0') as nat)
    else if 'a' <= c <= 'z' then Some((c - 'a') as nat + 10)
    else if 'A' <= c <= 'Z' then Some((c - 'A') as nat + 10)
    else None
  }

  predicate IsDigit(c: char, base: nat) {
    DigitValue(c).Some? && DigitValue(c).value < base
  }

  function DigitChar(d: nat): (c: char)
    requires d < 36
    ensures DigitValue(c) == Some(d) && !('A' <= c <= 'Z')
  {
    if d < 10 then '0' + d as char else 'a' + (d - 10) as char
  }

  lemma DigitCharIsInverse(c: char)
    requires DigitValue(c).Some? && !('A' <= c <= 'Z')
    ensures DigitChar(DigitValue(c).value) == c
  {
  }

  /** `n.toString(base)` for a non-negative integer. */
  function Print(n: nat, base: nat): (text: string)
    requires 2 <= base <= 36
  {
    ValueOfDigits(n, base);
    var digits := Digits(n, base);
    seq(|digits|, i requires 0 <= i < |digits| => assert digits[i] in digits; DigitChar(digits[i]))
  }

  /** `toString(base)` of any integer. */
  function PrintInt(n: int, base: nat): string
    requires 2 <= base <= 36
  {
    if n < 0 then "-" + Print(-n, base) else Print(n, base)
  }

  function DigitOf(c: char, base: nat): (d: nat)
    requires IsDigit(c, base)
    ensures d < base
  {
    DigitValue(c).value
  }

  function DigitPrefix(text: string, base: nat): (length: nat)
    ensures length <= |text|
    ensures forall i :: 0 <= i < length ==> IsDigit(text[i], base)
    ensures length < |text| ==> !IsDigit(text[length], base)
  {
    if text == "" || !IsDigit(text[0], base) then 0 else 1 + DigitPrefix(text[1..], base)
  }

  lemma {:induction false} DigitPrefixLength(text: string, rest: string, base: nat)
    requires forall i :: 0 <= i < |text| ==> IsDigit(text[i], base)
    requires rest != "" ==> !IsDigit(rest[0], base)
    ensures DigitPrefix(text + rest, base) == |text|
  {
    if text == "" {
      assert text + rest == rest;
    } else {
      assert (text + rest)[1..] == text[1..] + rest;
      DigitPrefixLength(text[1..], rest, base);
    }
  }

  function DigitValues(text: string, base: nat): (digits: seq<nat>)
    requires forall i :: 0 <= i < |text| ==> IsDigit(text[i], base)
    ensures |digits| == |text|
    ensures forall i :: 0 <= i < |text| ==> digits[i] == DigitOf(text[i], base)
  {
    seq(|text|, i requires 0 <= i < |text| => DigitOf(text[i], base))
  }

  /** `parseInt(text, base)`: the longest prefix of digits counts; without one the result is not a number. */
  function ParseInt(text: string, base: nat): Option<nat> {
    var length := DigitPrefix(text, base);
    if length == 0 then None else Some(Value(DigitValues(text[..length], base), base))
  }

  /** A numeral as `toString` writes it: lower case and without leading zeros. */
  predicate IsNumeral(text: string, base: nat) {
    && text != ""
    && (forall c :: c in text ==> IsDigit(c, base) && !('A' <= c <= 'Z'))
    && (|text| > 1 ==> text[0] != '0')
  }

  /** Printing and parsing back, also when something that is no digit follows the numeral. */
  lemma PrintThenParse(n: nat, base: nat, rest: string)
    requires 2 <= base <= 36
    requires rest != "" ==> !IsDigit(rest[0], base)
    ensures IsNumeral(Print(n, base), base)
    ensures ParseInt(Print(n, base) + rest, base) == Some(n)
  {
    ValueOfDigits(n, base);
    var digits, text := Digits(n, base), Print(n, base);
    forall i | 0 <= i < |text|
      ensures DigitValue(text[i]) == Some(digits[i]) && IsDigit(text[i], base) && !('A' <= text[i] <= 'Z') {
      assert digits[i] in digits;
    }
    var length := DigitPrefix(text + rest, base);
    DigitPrefixLength(text, rest, base);
    assert (text + rest)[..length] == text;
    assert DigitValues(text, base) == digits;
  }

  lemma NumeralValue(text: string, base: nat)
    requires 2 <= base <= 36
    requires IsNumeral(text, base)
    ensures forall i :: 0 <= i < |text| ==> IsDigit(text[i], base)
    ensures ParseInt(text, base) == Some(Value(DigitValues(text, base), base))
  {
    forall i | 0 <= i < |text| ensures IsDigit(text[i], base) {
      assert text[i] in text;
    }
    DigitPrefixLength(text, "", base);
    assert text + "" == text && text[..|text|] == text;
  }

  lemma NumeralIsPrinted(text: string, base: nat)
    requires 2 <= base <= 36
    requires IsNumeral(text, base)
    ensures ParseInt(text, base).Some? && Print(ParseInt(text, base).value, base) == text
  {
    NumeralValue(text, base);
    var digits := DigitValues(text, base);
    DigitsOfValue(digits, base);
    forall i | 0 <= i < |text| ensures digits[i] < 36 && DigitChar(digits[i]) == text[i] {
      assert text[i] in text;
      DigitCharIsInverse(text[i]);
    }
  }

  /** Parsing and printing back restores exactly the numerals that `toString` writes. */
  lemma ParseThenPrint(text: string, base: nat)
    requires 2 <= base <= 36
    ensures ParseInt(text, base).Some? && Print(ParseInt(text, base).value, base) == text <==> IsNumeral(text, base)
  {
    if IsNumeral(text, base) {
      NumeralIsPrinted(text, base);
    }
    if ParseInt(text, base).Some? {
      PrintThenParse(ParseInt(text, base).value, base, "");
    }
  }

  lemma PrintIsInjective(m: nat, n: nat, base: nat)
    requires 2 <= base <= 36
    ensures Print(m, base) == Print(n, base) <==> m == n
  {
    PrintThenParse(m, base, "");
    PrintThenParse(n, base, "");
  }
}

/** Characters, digit runs and the exact positional value of a digit string. */
module Digits {
  import opened Arithmetic

  /** A digit of the given radix: a decimal digit or a letter of either case. */
  predicate IsDigit(c: char, radix: int) {
    var x := c as int;
    || ('0' as int <= x <= '9' as int && x < '0' as int + radix)
    || (radix > 10 && 'a' as int <= x < 'a' as int + radix - 10)
    || (radix > 10 && 'A' as int <= x < 'A' as int + radix - 10)
  }

  function DigitValue(c: char): nat {
    if '0' <= c <= '9' then c as int - '0' as int
    else if 'a' <= c then c as int - 'a' as int + 10
    else if 'A' <= c then c as int - 'A' as int + 10
    else 0
  }

  lemma {:induction false} DigitValueBound(c: char, radix: nat)
    requires 2 <= radix <= 36 && IsDigit(c, radix)
    ensures DigitValue(c) < radix
  {
  }

  /** The digits below ten stand for their distance from zero, the letters of either case for ten and more. */
  lemma {:induction false} DigitByRank(c: char, k: nat)
    requires k < 36
    requires if k < 10 then c as int == '0' as int + k
             else c as int == 'a' as int + (k - 10) || c as int == 'A' as int + (k - 10)
    ensures DigitValue(c) == k && IsDigit(c, 36)
  {
  }

  /** Only those are digits, and a radix takes the ones whose value is below it. */
  lemma {:induction false} DigitsOfRadix(c: char, radix: nat)
    requires 2 <= radix <= 36
    ensures IsDigit(c, radix) <==> IsDigit(c, 36) && DigitValue(c) < radix
    ensures IsDigit(c, 36) <==> '0' <= c <= '9' || 'a' <= c <= 'z' || 'A' <= c <= 'Z'
  {
  }

  /** The characters in the order of their values. */
  const LOWER_CASE: string := "0123456789abcdefghijklmnopqrstuvwxyz"
  const UPPER_CASE: string := "0123456789ABCDEFGHIJKLMNOPQRSTUVWXYZ"

  lemma {:induction false} LowerCaseRank(k: nat)
    requires k < 36
    ensures LOWER_CASE[k] as int == if k < 10 then '0' as int + k else 'a' as int + (k - 10)
  {
  }

  lemma {:induction false} UpperCaseRank(k: nat)
    requires k < 36
    ensures UPPER_CASE[k] as int == if k < 10 then '0' as int + k else 'A' as int + (k - 10)
  {
  }

  /** The table of the digits. */
  lemma {:induction false} DigitTable(k: nat, radix: nat)
    requires k < radix <= 36
    ensures IsDigit(LOWER_CASE[k], radix) && DigitValue(LOWER_CASE[k]) == k
    ensures IsDigit(UPPER_CASE[k], radix) && DigitValue(UPPER_CASE[k]) == k
  {
    LowerCaseRank(k);
    UpperCaseRank(k);
    DigitByRank(LOWER_CASE[k], k);
    DigitByRank(UPPER_CASE[k], k);
  }

  /** The chain of range tests by which both integer parsers classify a character: -1 when it is no digit. */
  function ScanDigit(c: char, radix: nat): (d: int)
    requires 2 <= radix <= 36
    ensures IsDigit(c, radix) ==> d == DigitValue(c) < radix
    ensures !IsDigit(c, radix) ==> d == -1
  {
    var x := c as int;
    if '0' as int <= x <= '9' as int && x < '0' as int + radix then x - '0' as int
    else if radix > 10 && 'a' as int <= x < 'a' as int + radix - 10 then x - 'a' as int + 10
    else if radix > 10 && 'A' as int <= x < 'A' as int + radix - 10 then x - 'A' as int + 10
    else -1
  }

  /** The integer that the digits denote, most significant digit first. */
  function Value(digits: string, radix: nat): nat {
    if digits == [] then 0
    else Value(digits[..|digits| - 1], radix) * radix + DigitValue(digits[|digits| - 1])
  }

  predicate AllDigits(digits: string, radix: int) {
    forall k :: 0 <= k < |digits| ==> IsDigit(digits[k], radix)
  }

  predicate AllZero(digits: string) {
    forall k :: 0 <= k < |digits| ==> digits[k] == '0'
  }

  lemma {:induction false} SliceSplit(s: string, i: nat, j: nat, k: nat)
    requires i <= j <= k <= |s|
    ensures s[i..k] == s[i..j] + s[j..k]
  {
  }

  lemma {:induction false} AllZeroSnoc(s: string, i: nat, j: nat)
    requires i <= j < |s|
    ensures s[i..j + 1] == s[i..j] + [s[j]]
    ensures AllZero(s[i..j + 1]) <==> AllZero(s[i..j]) && s[j] == '0'
  {
    assert forall k :: 0 <= k < j - i ==> s[i..j + 1][k] == s[i..j][k];
  }

  lemma {:induction false} HornerStep(x: int, p: int, y: int, radix: int)
    ensures (x * p + y) * radix == x * (radix * p) + y * radix
  {
    assert (x * p) * radix == x * (radix * p);
  }

  lemma {:induction false} HornerBound(x: int, p: int, d: int, radix: int)
    requires x < p && 0 <= d < radix
    ensures x * radix + d < radix * p
  {
    MulMono(x, p - 1, radix);
    assert (p - 1) * radix == radix * p - radix;
  }

  lemma {:induction false} ValueSnoc(digits: string, c: char, radix: nat)
    ensures Value(digits + [c], radix) == Value(digits, radix) * radix + DigitValue(c)
  {
    assert (digits + [c])[..|digits|] == digits;
  }

  /** Reading one more digit of s. */
  lemma {:induction false} ValueOfNext(s: string, i: nat, j: nat, radix: nat)
    requires i <= j < |s|
    ensures Value(s[i..j + 1], radix) == Value(s[i..j], radix) * radix + DigitValue(s[j])
    ensures Pow(radix, j + 1 - i) == Pow(radix, j - i) * radix
  {
    assert s[i..j + 1] == s[i..j] + [s[j]];
    ValueSnoc(s[i..j], s[j], radix);
  }

  lemma {:induction false} ValueConcat(a: string, b: string, radix: nat)
    ensures Value(a + b, radix) == Value(a, radix) * Pow(radix, |b|) + Value(b, radix)
  {
    if b == [] {
      assert a + b == a;
    } else {
      var c, last := b[..|b| - 1], b[|b| - 1];
      ValueConcat(a, c, radix);
      assert a + b == (a + c) + [last];
      ValueSnoc(a + c, last, radix);
      HornerStep(Value(a, radix), Pow(radix, |c|), Value(c, radix), radix);
    }
  }

  /** Each digit counts with the power of the radix that its place has. */
  lemma {:induction false} PlaceValue(digits: string, k: nat, radix: nat)
    requires k < |digits|
    ensures Value(digits, radix) ==
            Value(digits[..k], radix) * Pow(radix, |digits| - k)
            + DigitValue(digits[k]) * Pow(radix, |digits| - k - 1)
            + Value(digits[k + 1..], radix)
  {
    var head, tail := digits[..k], digits[k + 1..];
    assert digits == head + ([digits[k]] + tail);
    assert [digits[k]][..0] == [];
    ValueConcat(head, [digits[k]] + tail, radix);
    ValueConcat([digits[k]], tail, radix);
  }

  lemma {:induction false} ValueBound(digits: string, radix: nat)
    requires 2 <= radix <= 36 && AllDigits(digits, radix)
    ensures Value(digits, radix) < Pow(radix, |digits|)
  {
    if digits != [] {
      var d := digits[..|digits| - 1];
      ValueBound(d, radix);
      DigitValueBound(digits[|digits| - 1], radix);
      HornerBound(Value(d, radix), Pow(radix, |d|), DigitValue(digits[|digits| - 1]), radix);
    }
  }

  lemma {:induction false} ValueZero(digits: string, radix: nat)
    requires 2 <= radix <= 36 && AllDigits(digits, radix)
    ensures Value(digits, radix) == 0 <==> AllZero(digits)
  {
    if digits != [] {
      var d := digits[..|digits| - 1];
      ValueZero(d, radix);
      MulSignPositive(Value(d, radix), radix);
      assert AllZero(digits) <==> AllZero(d) && digits[|d|] == '0';
    }
  }

  lemma {:induction false} DropLeadingZeros(zeros: string, digits: string, radix: nat)
    requires 2 <= radix <= 36 && AllZero(zeros)
    ensures Value(zeros + digits, radix) == Value(digits, radix)
  {
    ValueConcat(zeros, digits, radix);
    ValueZero(zeros, radix);
  }

  /** A string whose first digit is not zero is at least the radix to the number of digits after it. */
  lemma {:induction false} LeadingDigit(digits: string, radix: nat)
    requires 2 <= radix <= 36 && AllDigits(digits, radix)
    requires digits != [] && digits[0] != '0'
    ensures Pow(radix, |digits| - 1) <= Value(digits, radix)
  {
    assert digits == digits[..1] + digits[1..];
    ValueConcat(digits[..1], digits[1..], radix);
    assert Value(digits[..1], radix) == DigitValue(digits[0]) >= 1;
    MulMono(1, Value(digits[..1], radix), Pow(radix, |digits| - 1));
  }

  /** Where the maximal run of digits that starts at position i ends. */
  function RunEnd(s: string, i: nat, radix: int): (j: nat)
    requires i <= |s|
    ensures i <= j <= |s|
    ensures forall k :: i <= k < j ==> IsDigit(s[k], radix)
    ensures j < |s| ==> !IsDigit(s[j], radix)
    decreases |s| - i
  {
    if i < |s| && IsDigit(s[i], radix) then RunEnd(s, i + 1, radix) else i
  }

  lemma {:induction false} RunEndUnique(s: string, i: nat, j: nat, radix: int)
    requires i <= j <= |s|
    requires forall k :: i <= k < j ==> IsDigit(s[k], radix)
    requires j < |s| ==> !IsDigit(s[j], radix)
    ensures RunEnd(s, i, radix) == j
  {
    if RunEnd(s, i, radix) < j {
      assert false;
    }
  }

  /** Zeros at the front of a run of digits do not count. */
  lemma {:induction false} SkipZeros(s: string, i: nat, j: nat, radix: nat)
    requires i <= j <= |s| && 2 <= radix <= 36
    requires AllZero(s[i..j])
    ensures RunEnd(s, i, radix) == RunEnd(s, j, radix)
    ensures Value(s[i..RunEnd(s, i, radix)], radix) == Value(s[j..RunEnd(s, j, radix)], radix)
  {
    var e := RunEnd(s, j, radix);
    assert forall k :: i <= k < j ==> s[k] == s[i..j][k - i];
    RunEndUnique(s, i, e, radix);
    SliceSplit(s, i, j, e);
    DropLeadingZeros(s[i..j], s[j..e], radix);
  }

  /** Nothing but white space from position i on. */
  predicate OnlySpace(space: char -> bool, s: string, i: nat)
    requires i <= |s|
  {
    forall k :: i <= k < |s| ==> space(s[k])
  }

  /** The first position from i on that is not white space, or the end. */
  function SkipSpace(space: char -> bool, s: string, i: nat): (j: nat)
    requires i <= |s|
    ensures i <= j <= |s|
    ensures forall k :: i <= k < j ==> space(s[k])
    ensures j < |s| ==> !space(s[j])
    decreases |s| - i
  {
    if i < |s| && space(s[i]) then SkipSpace(space, s, i + 1) else i
  }

  method AdvanceToNonspace(space: char -> bool, s: string, current: nat) returns (found: bool, next: nat)
    requires current <= |s|
    ensures next == SkipSpace(space, s, current)
    ensures found <==> next < |s|
    ensures found <==> !OnlySpace(space, s, current)
  {
    next := current;
    while next != |s|
      invariant current <= next <= |s|
      invariant forall k :: current <= k < next ==> space(s[k])
      invariant SkipSpace(space, s, current) == SkipSpace(space, s, next)
      decreases |s| - next
    {
      if !space(s[next]) {
        return true, next;
      }
      next := next + 1;
    }
    found := false;
  }
}

/** Numbers as they are written: what the conversions owe for a string that is put together from white space, a
    sign, digits, a point and an exponent. */
module WrittenNumbers {
  import opened Arithmetic
  import opened Digits
  import opened Rounding
  import opened Doubles
  import opened DiyFps
  import opened DecimalOrder
  import opened StringToDouble
  import PowerOfTwoRadix
  import ParseInt
  import CorrectRounding

  // ----- parts of a string -----

  /** The text t stands at position i of s. */
  predicate StandsAt(s: string, i: nat, t: string)
    decreases |t|
  {
    if t == "" then i <= |s| else i < |s| && s[i] == t[0] && StandsAt(s, i + 1, t[1..])
  }

  lemma {:induction false} AtIsSlice(s: string, i: nat, t: string)
    ensures StandsAt(s, i, t) <==> i + |t| <= |s| && s[i..i + |t|] == t
    decreases |t|
  {
    if t != "" {
      AtIsSlice(s, i + 1, t[1..]);
      if i + |t| <= |s| {
        assert s[i..i + |t|] == [s[i]] + s[i + 1..i + |t|];
        assert t == [t[0]] + t[1..];
      }
    }
  }

  lemma {:induction false} AtMiddle(p: string, t: string, q: string)
    ensures StandsAt(p + t + q, |p|, t) && (p + t + q)[..|p|] == p && (p + t + q)[|p| + |t|..] == q
  {
    AtIsSlice(p + t + q, |p|, t);
  }

  lemma {:induction false} AtParts(s: string, i: nat, a: string, b: string)
    requires StandsAt(s, i, a + b)
    ensures StandsAt(s, i, a) && StandsAt(s, i + |a|, b)
  {
    AtIsSlice(s, i, a + b);
    AtIsSlice(s, i, a);
    AtIsSlice(s, i + |a|, b);
    var t := s[i..i + |a + b|];
    assert t[..|a|] == a && t[|a|..] == b;
  }

  lemma {:induction false} CharAt(s: string, i: nat, t: string, k: nat)
    requires StandsAt(s, i, t) && k < |t|
    ensures i + |t| <= |s| && s[i + k] == t[k]
  {
    AtIsSlice(s, i, t);
    assert s[i..i + |t|][k] == t[k];
  }

  /** No digit of the radix follows. */
  predicate Ends(s: string, j: nat, radix: int) {
    j <= |s| && (j < |s| ==> !IsDigit(s[j], radix))
  }

  lemma {:induction false} RunAt(s: string, i: nat, d: string, radix: int)
    requires StandsAt(s, i, d) && AllDigits(d, radix) && Ends(s, i + |d|, radix)
    ensures RunEnd(s, i, radix) == i + |d| && s[i..i + |d|] == d
  {
    AtIsSlice(s, i, d);
    forall k | i <= k < i + |d|
      ensures IsDigit(s[k], radix)
    {
      CharAt(s, i, d, k - i);
    }
    RunEndUnique(s, i, i + |d|, radix);
  }

  predicate IsSign(t: string) {
    t == "" || t == "+" || t == "-"
  }

  /** The value of a number with that sign in front. */
  function Signed(sign: string, n: int): int {
    if sign == "-" then 0 - n else n
  }

  /** White space is no part of a number. */
  ghost predicate PlainSpace(space: char -> bool) {
    forall c :: space(c) ==> !IsDigit(c, 36) && c != '.' && c != '+' && c != '-'
  }

  predicate AllSpace(space: char -> bool, t: string) {
    forall k :: 0 <= k < |t| ==> space(t[k])
  }

  lemma {:induction false} SpaceSkipped(space: char -> bool, s: string, blanks: string)
    requires StandsAt(s, 0, blanks) && AllSpace(space, blanks)
    requires |blanks| < |s| ==> !space(s[|blanks|])
    ensures |blanks| <= |s| && SkipSpace(space, s, 0) == |blanks|
  {
    AtIsSlice(s, 0, blanks);
    var j := SkipSpace(space, s, 0);
    if j < |blanks| {
      CharAt(s, 0, blanks, j);
    }
  }

  lemma {:induction false} OnlySpaceIs(space: char -> bool, s: string, i: nat)
    requires i <= |s|
    ensures OnlySpace(space, s, i) <==> AllSpace(space, s[i..])
  {
    assert forall k :: i <= k < |s| ==> s[k] == s[i..][k - i];
  }

  // ----- the exponent part and the literal -----

  /** A sign, or none, is seen as it is written. */
  lemma {:induction false} SignAt(s: string, i: nat, sign: string, d: string)
    requires IsSign(sign) && d != "" && d[0] != '+' && d[0] != '-' && StandsAt(s, i, sign + d)
    ensures i < |s| && StandsAt(s, i + |sign|, d) && s[i + |sign|] == d[0]
    ensures s[i] == '-' <==> sign == "-"
    ensures s[i] == '+' || s[i] == '-' <==> sign != ""
  {
    AtParts(s, i, sign, d);
    CharAt(s, i + |sign|, d, 0);
    if sign != "" {
      CharAt(s, i, sign, 0);
    }
  }

  lemma {:induction false} MarkAt(s: string, i: nat, mark: char, text: string)
    requires StandsAt(s, i, [mark] + text)
    ensures i < |s| && s[i] == mark && StandsAt(s, i + 1, text)
  {
    AtParts(s, i, [mark], text);
    CharAt(s, i, [mark], 0);
  }

  lemma {:induction false} ExponentIs(s: string, i: nat, signed: bool, j: nat, end: nat)
    requires i + 1 < |s| && (s[i] == 'e' || s[i] == 'E')
    requires signed <==> s[i + 1] == '+' || s[i + 1] == '-'
    requires j == (if signed then i + 2 else i + 1) < end == RunEnd(s, j, 10)
    ensures ScanExponent(s, i) == ExponentPart(s[i + 1] == '-', Value(s[j..end], 10), end)
  {
  }

  lemma {:induction false} ExponentAt(s: string, i: nat, mark: char, sign: string, d: string)
    requires (mark == 'e' || mark == 'E') && IsSign(sign) && d != "" && AllDigits(d, 10)
    requires StandsAt(s, i, [mark] + (sign + d)) && Ends(s, i + 1 + |sign| + |d|, 10)
    ensures ScanExponent(s, i) == ExponentPart(sign == "-", Value(d, 10), i + 1 + |sign| + |d|)
  {
    MarkAt(s, i, mark, sign + d);
    SignAt(s, i + 1, sign, d);
    var j := i + 1 + |sign|;
    RunAt(s, j, d, 10);
    ExponentIs(s, i, sign != "", j, j + |d|);
  }

  /** The exponent part of a string reads as the number that is written: [e or E][sign]digits. */
  lemma {:induction false} ExponentReads(p: string, mark: char, sign: string, d: string, q: string)
    requires (mark == 'e' || mark == 'E') && IsSign(sign) && d != "" && AllDigits(d, 10)
    requires q != "" ==> !IsDigit(q[0], 10)
    ensures var x := ScanExponent(p + ([mark] + (sign + d)) + q, |p|);
            x.end == |p| + 1 + |sign| + |d| && ExactExponent(x) == Signed(sign, Value(d, 10))
  {
    AtMiddle(p, [mark] + (sign + d), q);
    ExponentAt(p + ([mark] + (sign + d)) + q, |p|, mark, sign, d);
  }

  /** Without digits there is no exponent part. */
  lemma {:induction false} NoExponent(s: string, i: nat)
    requires i <= |s| && (i < |s| ==> s[i] != 'e' && s[i] != 'E')
    ensures ScanExponent(s, i) == ExponentPart(false, 0, i)
  {
  }

  /** An e that no digit follows, behind a sign or not, is no exponent part: the literal ends before it. */
  lemma {:induction false} IncompleteExponent(s: string, i: nat, mark: char, sign: string)
    requires (mark == 'e' || mark == 'E') && IsSign(sign) && StandsAt(s, i, [mark] + sign)
    requires Ends(s, i + 1 + |sign|, 10)
    requires sign == "" && i + 1 < |s| ==> s[i + 1] != '+' && s[i + 1] != '-'
    ensures i < |s| && ScanExponent(s, i) == ExponentPart(false, 0, i)
  {
    MarkAt(s, i, mark, sign);
    if sign != "" {
      CharAt(s, i + 1, sign, 0);
    }
  }

  /** A decimal literal: digits with an optional point and an optional exponent part, which is marked. */
  datatype Decimal = Written(integer: string, point: bool, fraction: string,
                             marked: bool, mark: char, sign: string, exponent: string) {
    predicate Valid() {
      && AllDigits(integer, 10) && AllDigits(fraction, 10) && integer + fraction != ""
      && (!point ==> fraction == "")
      && (marked ==> (mark == 'e' || mark == 'E') && IsSign(sign) && exponent != "" && AllDigits(exponent, 10))
    }

    function FractionText(): string {
      if point then "." + fraction else ""
    }

    function ExponentText(): string {
      if marked then [mark] + (sign + exponent) else ""
    }

    function Text(): string {
      integer + (FractionText() + ExponentText())
    }

    /** The exponent as it is written. */
    function Exponent(): int {
      if marked then Signed(sign, Value(exponent, 10)) else 0
    }
  }

  /** What follows a literal does not go on with it. */
  predicate Apart(s: string, j: nat) {
    Ends(s, j, 36) && (j < |s| ==> s[j] != '.')
  }

  lemma {:induction false} ApartEnds(s: string, j: nat)
    requires Apart(s, j)
    ensures Ends(s, j, 10) && (j < |s| ==> s[j] != 'e' && s[j] != 'E' && s[j] != '.')
  {
  }

  /** The digits at the front end where the rest begins. */
  lemma {:induction false} IntegerAt(s: string, i: nat, integer: string, rest: string)
    requires AllDigits(integer, 10) && StandsAt(s, i, integer + rest)
    requires if rest == "" then Ends(s, i + |integer|, 10) else !IsDigit(rest[0], 10)
    ensures RunEnd(s, i, 10) == i + |integer| && s[i..i + |integer|] == integer && StandsAt(s, i + |integer|, rest)
    ensures rest != "" ==> i + |integer| < |s| && s[i + |integer|] == rest[0]
  {
    AtParts(s, i, integer, rest);
    if rest != "" {
      CharAt(s, i + |integer|, rest, 0);
    }
    RunAt(s, i, integer, 10);
  }

  lemma {:induction false} TailStart(w: Decimal, tail: string)
    requires w.Valid() && tail == w.FractionText() + w.ExponentText()
    ensures tail != "" ==> !IsDigit(tail[0], 10)
    ensures tail != "" && tail[0] == '.' <==> w.point
  {
    if w.point {
      assert tail[0] == '.';
    } else if w.marked {
      assert tail[0] == w.mark;
    }
  }

  lemma {:induction false} FractionAt(s: string, j: nat, w: Decimal)
    requires w.Valid() && w.point && StandsAt(s, j, w.FractionText())
    requires Ends(s, j + |w.FractionText()|, 10)
    ensures s[FractionStart(s, j)..FractionEnd(s, j)] == w.fraction && FractionEnd(s, j) == j + |w.FractionText()|
  {
    AtParts(s, j, ".", w.fraction);
    CharAt(s, j, ".", 0);
    RunAt(s, j + 1, w.fraction, 10);
  }

  lemma {:induction false} ExponentTextAt(s: string, k: nat, w: Decimal)
    requires w.Valid() && StandsAt(s, k, w.ExponentText()) && Apart(s, k + |w.ExponentText()|)
    ensures var x := ScanExponent(s, k);
            x.end == k + |w.ExponentText()| && ExactExponent(x) == w.Exponent()
    ensures Ends(s, k, 10)
  {
    ApartEnds(s, k + |w.ExponentText()|);
    if w.marked {
      CharAt(s, k, w.ExponentText(), 0);
      ExponentAt(s, k, w.mark, w.sign, w.exponent);
    } else {
      NoExponent(s, k);
    }
  }

  lemma {:induction false} LiteralIs(s: string, i: nat, j: nat, k: nat, integer: string, fraction: string, x: ExponentPart)
    requires i <= j <= k <= |s| && RunEnd(s, i, 10) == j && FractionEnd(s, j) == k && ScanExponent(s, k) == x
    requires s[i..j] == integer && s[FractionStart(s, j)..k] == fraction
    ensures ScanLiteral(s, i) == Literal(integer, fraction, x)
  {
  }

  lemma {:induction false} FractionReads(s: string, j: nat, w: Decimal)
    requires w.Valid() && StandsAt(s, j, w.FractionText()) && Ends(s, j + |w.FractionText()|, 10)
    requires j < |s| && s[j] == '.' <==> w.point
    ensures FractionEnd(s, j) == j + |w.FractionText()|
    ensures s[FractionStart(s, j)..FractionEnd(s, j)] == w.fraction
  {
    if w.point {
      FractionAt(s, j, w);
    }
  }

  lemma {:induction false} RestAt(s: string, i: nat, integer: string, rest: string)
    requires AllDigits(integer, 10) && StandsAt(s, i, integer + rest) && Apart(s, i + |integer| + |rest|)
    requires rest != "" ==> !IsDigit(rest[0], 10)
    ensures RunEnd(s, i, 10) == i + |integer| && s[i..i + |integer|] == integer
    ensures var j := i + |integer|; StandsAt(s, j, rest) && (j < |s| && s[j] == '.' <==> rest != "" && rest[0] == '.')
  {
    ApartEnds(s, i + |integer| + |rest|);
    IntegerAt(s, i, integer, rest);
  }

  lemma {:induction false} TailReads(s: string, j: nat, w: Decimal) returns (k: nat, x: ExponentPart)
    requires w.Valid() && StandsAt(s, j, w.FractionText() + w.ExponentText())
    requires Apart(s, j + |w.FractionText() + w.ExponentText()|)
    requires j < |s| && s[j] == '.' <==> w.point
    ensures j <= k <= |s| && FractionEnd(s, j) == k && s[FractionStart(s, j)..k] == w.fraction
    ensures x == ScanExponent(s, k)
    ensures x.end == j + |w.FractionText() + w.ExponentText()| && ExactExponent(x) == w.Exponent()
  {
    k := j + |w.FractionText()|;
    AtParts(s, j, w.FractionText(), w.ExponentText());
    ExponentTextAt(s, k, w);
    FractionReads(s, j, w);
    x := ScanExponent(s, k);
  }

  /** The parts of the literal are as written. */
  predicate Reads(lit: Literal, w: Decimal, end: nat) {
    && lit.integer == w.integer && lit.fraction == w.fraction
    && lit.exponent.end == end && ExactExponent(lit.exponent) == w.Exponent()
  }

  lemma {:induction false} ReadsParts(lit: Literal, w: Decimal, x: ExponentPart, end: nat)
    requires lit == Literal(w.integer, w.fraction, x) && x.end == end && ExactExponent(x) == w.Exponent()
    ensures Reads(lit, w, end)
  {
  }

  /** A literal in a string reads as it is written. */
  lemma {:induction false} LiteralReads(s: string, i: nat, w: Decimal)
    requires w.Valid() && StandsAt(s, i, w.Text()) && Apart(s, i + |w.Text()|)
    ensures Reads(ScanLiteral(s, i), w, i + |w.Text()|)
  {
    var tail := w.FractionText() + w.ExponentText();
    var j := i + |w.integer|;
    TailStart(w, tail);
    RestAt(s, i, w.integer, tail);
    var k, x := TailReads(s, j, w);
    LiteralIs(s, i, j, k, w.integer, w.fraction, x);
    ReadsParts(ScanLiteral(s, i), w, x, j + |tail|);
  }

  // ----- white space and the sign -----

  lemma {:induction false} SplitNumber(s: string, blanks: string, sign: string, text: string, rest: string)
    requires s == blanks + (sign + text) + rest
    ensures StandsAt(s, 0, blanks) && StandsAt(s, |blanks|, sign + text)
    ensures |blanks| + |sign| + |text| <= |s| && s[|blanks| + |sign| + |text|..] == rest
  {
    AtMiddle(blanks, sign + text, rest);
    AtIsSlice(s, 0, blanks);
  }

  /** The number starts behind the white space, and its digits behind the sign. */
  lemma {:induction false} NumberStarts(space: char -> bool, s: string, blanks: string, sign: string, text: string, rest: string)
    requires PlainSpace(space) && AllSpace(space, blanks) && IsSign(sign)
    requires text != "" && !space(text[0]) && text[0] != '+' && text[0] != '-'
    requires s == blanks + (sign + text) + rest
    ensures var i := |blanks|;
            && SkipSpace(space, s, 0) == i < |s|
            && (s[i] == '-' <==> sign == "-") && (s[i] == '+' || s[i] == '-' <==> sign != "")
            && StandsAt(s, i + |sign|, text)
            && i + |sign| + |text| <= |s| && s[i + |sign| + |text|..] == rest
  {
    SplitNumber(s, blanks, sign, text, rest);
    SignAt(s, |blanks|, sign, text);
    SpaceSkipped(space, s, blanks);
  }

  /** Nothing but the sign decides whether the number is negative. */
  lemma {:induction false} SignDecides(space: char -> bool, flags: Flags, s: string, i: nat, sign: string)
    requires SkipSpace(space, s, 0) == i < |s| && i + |sign| <= |s| && IsSign(sign)
    requires s[i] == '-' <==> sign == "-"
    requires s[i] == '+' || s[i] == '-' <==> sign != ""
    ensures FormOf(space, s, flags) == UnsignedForm(s, i + |sign|, flags, sign != "", sign == "-")
  {
  }

  // ----- decimal literals -----

  lemma {:induction false} FirstOf(w: Decimal, text: string)
    requires w.Valid() && text == w.Text()
    ensures text != "" && (IsDigit(text[0], 10) || text[0] == '.')
    ensures |text| > 1 && text[0] == '0' ==> IsDigit(text[1], 10) || text[1] == '.' || text[1] == 'e' || text[1] == 'E'
  {
    var tail := w.FractionText() + w.ExponentText();
    TailStart(w, tail);
    if w.integer == "" {
      assert text == tail;
    } else {
      assert text[0] == w.integer[0];
      if |w.integer| > 1 {
        assert text[1] == w.integer[1];
      } else if tail != "" {
        assert text[1] == tail[0];
        TailMark(w, tail);
      }
    }
  }

  lemma {:induction false} TailMark(w: Decimal, tail: string)
    requires w.Valid() && tail == w.FractionText() + w.ExponentText() && tail != ""
    ensures tail[0] == '.' || tail[0] == 'e' || tail[0] == 'E'
  {
    if w.point {
      assert tail[0] == '.';
    } else {
      assert tail[0] == w.mark;
    }
  }

  lemma {:induction false} NoPrefix(s: string, i: nat, text: string, flags: Flags)
    requires StandsAt(s, i, text) && text != "" && Apart(s, i + |text|)
    requires |text| > 1 && text[0] == '0' ==> IsDigit(text[1], 10) || text[1] == '.' || text[1] == 'e' || text[1] == 'E'
    ensures PrefixRadix(s, i, flags) == 10
  {
    CharAt(s, i, text, 0);
    if |text| > 1 {
      CharAt(s, i, text, 1);
    }
  }

  lemma {:induction false} FollowedBy(s: string, j: nat, rest: string)
    requires j <= |s| && s[j..] == rest
    requires rest != "" ==> !IsDigit(rest[0], 36) && rest[0] != '.'
    ensures Apart(s, j)
  {
    if j < |s| {
      assert s[j] == rest[0];
    }
  }

  lemma {:induction false} PlainStart(s: string, i: nat, text: string, flags: Flags)
    requires StandsAt(s, i, text) && text != "" && Apart(s, i + |text|)
    requires IsDigit(text[0], 10) || text[0] == '.'
    requires |text| > 1 && text[0] == '0' ==> IsDigit(text[1], 10) || text[1] == '.' || text[1] == 'e' || text[1] == 'E'
    ensures i < |s| && s[i] != 'I' && PrefixRadix(s, i, flags) == 10
  {
    CharAt(s, i, text, 0);
    NoPrefix(s, i, text, flags);
  }

  lemma {:induction false} UnprefixedOwed(r: Outcome, space: char -> bool, flags: Flags, s: string, i: nat, negative: bool)
    requires FormOf(space, s, flags) == Unprefixed(i, negative)
    requires StringToDouble.Correct(r, space, s, flags)
    ensures i < |s| && CorrectDecimal(r, space, s, i, flags, negative)
  {
  }

  lemma {:induction false} LiteralOwed(r: Outcome, space: char -> bool, flags: Flags, s: string, i: nat, negative: bool, lit: Literal)
    requires i < |s| && lit == ScanLiteral(s, i) && !(flags.implicitOctal && LooksOctal(lit.integer))
    requires CorrectDecimal(r, space, s, i, flags, negative)
    ensures CorrectLiteral(r, space, s, lit, flags, negative)
  {
  }

  lemma {:induction false} LiteralOwedAt(r: Outcome, space: char -> bool, flags: Flags, s: string, i: nat, negative: bool, lit: Literal)
    requires FormOf(space, s, flags) == Unprefixed(i, negative)
    requires i < |s| && lit == ScanLiteral(s, i) && !(flags.implicitOctal && LooksOctal(lit.integer))
    requires StringToDouble.Correct(r, space, s, flags)
    ensures CorrectLiteral(r, space, s, lit, flags, negative)
  {
    UnprefixedOwed(r, space, flags, s, i, negative);
    LiteralOwed(r, space, flags, s, i, negative, lit);
  }

  lemma {:induction false} UnprefixedForm(s: string, i: nat, text: string, flags: Flags, signed: bool, negative: bool)
    requires StandsAt(s, i, text) && text != "" && Apart(s, i + |text|)
    requires IsDigit(text[0], 10) || text[0] == '.'
    requires |text| > 1 && text[0] == '0' ==> IsDigit(text[1], 10) || text[1] == '.' || text[1] == 'e' || text[1] == 'E'
    ensures i < |s| && UnsignedForm(s, i, flags, signed, negative) == Unprefixed(i, negative)
  {
    PlainStart(s, i, text, flags);
  }

  lemma {:induction false} LiteralAccepted(r: Outcome, space: char -> bool, flags: Flags, s: string, rest: string,
                                           lit: Literal, w: Decimal, end: nat, negative: bool)
    requires w.Valid() && Reads(lit, w, end) && end <= |s| && s[end..] == rest
    requires CorrectLiteral(r, space, s, lit, flags, negative)
    ensures if flags.trailingJunk || AllSpace(space, rest)
            then r.Decimal? && r.negative == negative && IsSimplified(lit, r.digits, r.tens)
            else r == NotANumber
  {
    OnlySpaceIs(space, s, end);
    assert lit.All() == w.integer + w.fraction;
  }

  /** The conversion of a decimal literal between white space and anything that does not go on with it: the
      sign, the digits and the exponent are those that are written, and what follows must be white space
      unless junk is allowed. */
  lemma {:induction false} DecimalConverts(r: Outcome, space: char -> bool, flags: Flags, s: string, blanks: string,
                                           sign: string, w: Decimal, rest: string) returns (lit: Literal)
    requires PlainSpace(space) && AllSpace(space, blanks) && IsSign(sign) && w.Valid()
    requires rest != "" ==> !IsDigit(rest[0], 36) && rest[0] != '.'
    requires !(flags.implicitOctal && LooksOctal(w.integer))
    requires s == blanks + (sign + w.Text()) + rest
    requires StringToDouble.Correct(r, space, s, flags)
    ensures Reads(lit, w, |blanks| + |sign| + |w.Text()|)
    ensures if flags.trailingJunk || AllSpace(space, rest)
            then r.Decimal? && r.negative == (sign == "-") && IsSimplified(lit, r.digits, r.tens)
            else r == NotANumber
  {
    var i := |blanks| + |sign|;
    var text := w.Text();
    DecimalForm(space, flags, s, blanks, sign, w, text, rest, i);
    lit := LiteralScanned(s, i, w, text);
    LiteralOwedAt(r, space, flags, s, i, sign == "-", lit);
    LiteralAccepted(r, space, flags, s, rest, lit, w, i + |text|, sign == "-");
  }

  lemma {:induction false} LiteralScanned(s: string, i: nat, w: Decimal, text: string) returns (lit: Literal)
    requires w.Valid() && text == w.Text() && StandsAt(s, i, text) && Apart(s, i + |text|)
    ensures i <= |s| && lit == ScanLiteral(s, i) && Reads(lit, w, i + |text|)
  {
    LiteralReads(s, i, w);
    AtIsSlice(s, i, text);
    lit := ScanLiteral(s, i);
  }

  /** Where the text of a number stands, and that its form depends on the sign and on itself only. */
  lemma {:induction false} NumberForm(space: char -> bool, flags: Flags, s: string, blanks: string, sign: string,
                                      text: string, rest: string, i: nat)
    requires PlainSpace(space) && AllSpace(space, blanks) && IsSign(sign)
    requires text != "" && !space(text[0]) && text[0] != '+' && text[0] != '-'
    requires rest != "" ==> !IsDigit(rest[0], 36) && rest[0] != '.'
    requires s == blanks + (sign + text) + rest && i == |blanks| + |sign|
    ensures i + |text| <= |s| && s[i + |text|..] == rest && Apart(s, i + |text|) && StandsAt(s, i, text)
    ensures FormOf(space, s, flags) == UnsignedForm(s, i, flags, sign != "", sign == "-")
  {
    NumberStarts(space, s, blanks, sign, text, rest);
    FollowedBy(s, i + |text|, rest);
    SignDecides(space, flags, s, |blanks|, sign);
  }

  lemma {:induction false} DecimalForm(space: char -> bool, flags: Flags, s: string, blanks: string, sign: string,
                                       w: Decimal, text: string, rest: string, i: nat)
    requires PlainSpace(space) && AllSpace(space, blanks) && IsSign(sign) && w.Valid() && text == w.Text()
    requires rest != "" ==> !IsDigit(rest[0], 36) && rest[0] != '.'
    requires s == blanks + (sign + text) + rest && i == |blanks| + |sign|
    ensures i + |text| <= |s| && s[i + |text|..] == rest && Apart(s, i + |text|) && StandsAt(s, i, text)
    ensures FormOf(space, s, flags) == Unprefixed(i, sign == "-")
  {
    FirstOf(w, text);
    NumberForm(space, flags, s, blanks, sign, text, rest, i);
    UnprefixedForm(s, i, text, flags, sign != "", sign == "-");
  }

  lemma {:induction false} NearPoint(lit: Literal, n: nat)
    requires |lit.integer| + |lit.fraction| <= n <= CorrectRounding.MAX_STRING_LENGTH
    ensures CorrectRounding.PointIsNear(lit)
  {
    assert |lit.All()| == |lit.integer| + |lit.fraction|;
  }

  /** From string to double: what the conversion of a string hands to Strtod rounds to the double that the written
      number rounds to. */
  lemma {:induction false} DecimalStringRounds(r: Outcome, space: char -> bool, flags: Flags, s: string, blanks: string,
                                               sign: string, w: Decimal, rest: string, a: int, q: int, b: int, x: Pattern)
    requires PlainSpace(space) && AllSpace(space, blanks) && IsSign(sign) && w.Valid()
    requires rest != "" ==> !IsDigit(rest[0], 36) && rest[0] != '.'
    requires !(flags.implicitOctal && LooksOctal(w.integer))
    requires s == blanks + (sign + w.Text()) + rest && |s| <= CorrectRounding.MAX_STRING_LENGTH
    requires StringToDouble.Correct(r, space, s, flags) && r.Decimal?
    requires a == Value(w.integer + w.fraction, 10) && q == w.Exponent() - |w.fraction| && b == Value(r.digits, 10)
    ensures r.negative == (sign == "-")
    ensures RoundsTo(a, q, x) <==> RoundsTo(b, r.tens, x)
  {
    var lit := DecimalConverts(r, space, flags, s, blanks, sign, w, rest);
    assert |w.Text()| <= |s| && |w.integer| + |w.fraction| <= |w.Text()|;
    NearPoint(lit, |s|);
    SimplifiedRounds(lit, w, r.digits, r.tens, a, q, b, |blanks| + |sign| + |w.Text()|, x);
  }

  lemma {:induction false} SimplifiedRounds(lit: Literal, w: Decimal, digits: string, e: int, a: int, q: int, b: int,
                                            end: nat, x: Pattern)
    requires w.Valid() && Reads(lit, w, end) && IsSimplified(lit, digits, e) && CorrectRounding.PointIsNear(lit)
    requires a == Value(w.integer + w.fraction, 10) && q == w.Exponent() - |w.fraction| && b == Value(digits, 10)
    ensures RoundsTo(a, q, x) <==> RoundsTo(b, e, x)
  {
    assert lit.All() == w.integer + w.fraction;
    CorrectRounding.ConversionKeepsRounding(lit, a, b, q, digits, e, x);
  }

  // ----- implicit octal literals -----

  lemma {:induction false} TailKind(w: Decimal, tail: string)
    requires w.Valid() && tail == w.FractionText() + w.ExponentText()
    ensures tail != "" && (tail[0] == 'e' || tail[0] == 'E') <==> !w.point && w.marked
    ensures tail == "" <==> !w.point && !w.marked
  {
    if w.point {
      assert tail[0] == '.';
    } else if w.marked {
      assert tail[0] == w.mark;
    }
  }

  lemma {:induction false} MarkBehind(s: string, i: nat, integer: string, rest: string)
    requires AllDigits(integer, 10) && StandsAt(s, i, integer + rest) && Apart(s, i + |integer| + |rest|)
    requires rest != "" ==> !IsDigit(rest[0], 10)
    ensures var j := i + |integer|;
            j <= |s| && (j < |s| && (s[j] == 'e' || s[j] == 'E') <==> rest != "" && (rest[0] == 'e' || rest[0] == 'E'))
  {
    ApartEnds(s, i + |integer| + |rest|);
    IntegerAt(s, i, integer, rest);
  }

  lemma {:induction false} OctalOwed(r: Outcome, space: char -> bool, flags: Flags, s: string, i: nat, j: nat, negative: bool, integer: string)
    requires i < |s| && integer == ScanLiteral(s, i).integer && flags.implicitOctal && LooksOctal(integer) && j == RunEnd(s, i, 10)
    requires CorrectDecimal(r, space, s, i, flags, negative)
    ensures if OctalAllowed(space, s, j, flags)
            then r.Power? && r.negative == negative && IsOctal(integer, r.number, r.exponent)
            else r == NotANumber
  {
  }

  lemma {:induction false} LiteralIntegerIs(s: string, i: nat, w: Decimal, text: string)
    requires w.Valid() && text == w.Text() && StandsAt(s, i, text) && Apart(s, i + |text|)
    ensures i <= |s| && ScanLiteral(s, i).integer == w.integer
  {
    var lit := LiteralScanned(s, i, w, text);
  }

  lemma {:induction false} WhenOctalAllowed(space: char -> bool, flags: Flags, s: string, j: nat, w: Decimal, rest: string)
    requires j <= |s|
    requires j < |s| && s[j] == '.' <==> w.point
    requires j < |s| && (s[j] == 'e' || s[j] == 'E') <==> !w.point && w.marked
    requires !w.point && !w.marked ==> s[j..] == rest
    ensures OctalAllowed(space, s, j, flags) <==>
            if w.point then flags.trailingJunk else !w.marked && (flags.trailingJunk || AllSpace(space, rest))
  {
    OnlySpaceIs(space, s, j);
  }

  lemma {:induction false} IntegerFollows(s: string, i: nat, w: Decimal, tail: string, rest: string) returns (j: nat)
    requires w.Valid() && tail == w.FractionText() + w.ExponentText()
    requires StandsAt(s, i, w.integer + tail) && Apart(s, i + |w.integer| + |tail|)
    requires i + |w.integer| + |tail| <= |s| && s[i + |w.integer| + |tail|..] == rest
    ensures j == RunEnd(s, i, 10) == i + |w.integer| <= |s|
    ensures j < |s| && s[j] == '.' <==> w.point
    ensures j < |s| && (s[j] == 'e' || s[j] == 'E') <==> !w.point && w.marked
    ensures !w.point && !w.marked ==> s[j..] == rest
  {
    TailStart(w, tail);
    TailKind(w, tail);
    RestAt(s, i, w.integer, tail);
    MarkBehind(s, i, w.integer, tail);
    j := i + |w.integer|;
  }

  lemma {:induction false} OctalFollows(space: char -> bool, flags: Flags, s: string, i: nat, w: Decimal, tail: string, rest: string)
    requires w.Valid() && tail == w.FractionText() + w.ExponentText()
    requires StandsAt(s, i, w.integer + tail) && Apart(s, i + |w.integer| + |tail|)
    requires i + |w.integer| + |tail| <= |s| && s[i + |w.integer| + |tail|..] == rest
    ensures var j := i + |w.integer|;
            && j <= |s| && RunEnd(s, i, 10) == j
            && (OctalAllowed(space, s, j, flags) <==>
                if w.point then flags.trailingJunk else !w.marked && (flags.trailingJunk || AllSpace(space, rest)))
  {
    var j := IntegerFollows(s, i, w, tail, rest);
    WhenOctalAllowed(space, flags, s, j, w, rest);
  }

  /** A literal with a leading zero and octal digits is octal if the flag is set: a point is junk behind it, and
      an exponent part never allowed. */
  lemma {:induction false} OctalConverts(r: Outcome, space: char -> bool, flags: Flags, s: string, blanks: string,
                                         sign: string, w: Decimal, rest: string)
    requires PlainSpace(space) && AllSpace(space, blanks) && IsSign(sign) && w.Valid()
    requires rest != "" ==> !IsDigit(rest[0], 36) && rest[0] != '.'
    requires flags.implicitOctal && LooksOctal(w.integer)
    requires s == blanks + (sign + w.Text()) + rest
    requires StringToDouble.Correct(r, space, s, flags)
    ensures if (if w.point then flags.trailingJunk else !w.marked && (flags.trailingJunk || AllSpace(space, rest)))
            then r.Power? && r.negative == (sign == "-") && IsOctal(w.integer, r.number, r.exponent)
            else r == NotANumber
  {
    var i, text := |blanks| + |sign|, w.Text();
    DecimalForm(space, flags, s, blanks, sign, w, text, rest, i);
    UnprefixedOwed(r, space, flags, s, i, sign == "-");
    OctalAccepted(r, space, flags, s, i, sign == "-", w, text, rest);
  }

  lemma {:induction false} OctalAccepted(r: Outcome, space: char -> bool, flags: Flags, s: string, i: nat, negative: bool,
                                         w: Decimal, text: string, rest: string)
    requires w.Valid() && text == w.Text() && flags.implicitOctal && LooksOctal(w.integer)
    requires i + |text| <= |s| && s[i + |text|..] == rest && Apart(s, i + |text|) && StandsAt(s, i, text)
    requires i < |s| && CorrectDecimal(r, space, s, i, flags, negative)
    ensures if (if w.point then flags.trailingJunk else !w.marked && (flags.trailingJunk || AllSpace(space, rest)))
            then r.Power? && r.negative == negative && IsOctal(w.integer, r.number, r.exponent)
            else r == NotANumber
  {
    LiteralIntegerIs(s, i, w, text);
    OctalFollows(space, flags, s, i, w, w.FractionText() + w.ExponentText(), rest);
    OctalOwed(r, space, flags, s, i, i + |w.integer|, negative, w.integer);
  }

  // ----- the other forms -----

  /** Digits of a power-of-two radix. */
  lemma {:induction false} DigitsConvert(r: PowerOfTwoRadix.Result, space: char -> bool, s: string, start: nat, d: string,
                                         rest: string, radix: nat, negative: bool, junk: bool)
    requires StandsAt(s, start, d) && AllDigits(d, radix) && Ends(s, start + |d|, radix) && s[start + |d|..] == rest
    requires start <= |s| && PowerOfTwoRadix.Correct(r, space, s, start, radix, negative, junk)
    ensures if junk || AllSpace(space, rest)
            then r.Binary? && r.negative == negative && IsRounding(Value(d, radix), r.number, r.exponent)
            else r == PowerOfTwoRadix.Junk
  {
    RunAt(s, start, d, radix);
    OnlySpaceIs(space, s, start + |d|);
  }

  /** The prefixes: 0x, 0o and 0b in either case, as far as the flags allow them. */
  predicate IsPrefix(c: char, radix: nat, flags: Flags) {
    || (flags.hex && (c == 'x' || c == 'X') && radix == 16)
    || (flags.octal && (c == 'o' || c == 'O') && radix == 8)
    || (flags.binary && (c == 'b' || c == 'B') && radix == 2)
  }

  lemma {:induction false} PrefixedForm(s: string, i: nat, c: char, d: string, radix: nat, flags: Flags, signed: bool, negative: bool)
    requires StandsAt(s, i, ['0', c] + d) && IsPrefix(c, radix, flags)
    ensures i + 2 + |d| <= |s| && StandsAt(s, i + 2, d)
    ensures UnsignedForm(s, i, flags, signed, negative) == Prefixed(i + 2, radix, signed)
  {
    AtParts(s, i, ['0', c], d);
    CharAt(s, i, ['0', c] + d, 0);
    CharAt(s, i, ['0', c] + d, 1);
  }

  lemma {:induction false} PrefixedOwed(r: Outcome, space: char -> bool, flags: Flags, s: string, start: nat, d: string,
                                        rest: string, radix: nat, signed: bool)
    requires StandsAt(s, start, d) && AllDigits(d, radix) && Ends(s, start + |d|, radix) && s[start + |d|..] == rest
    requires start <= |s| && 2 <= radix <= 36
    requires CorrectPrefixed(r, space, s, start, radix, flags, signed)
    ensures if !signed && d != "" && (flags.trailingJunk || AllSpace(space, rest))
            then r.Power? && !r.negative && IsRounding(Value(d, radix), r.number, r.exponent)
            else r == NotANumber
  {
    if d == "" {
    } else {
      CharAt(s, start, d, 0);
      if !signed {
        var p :| r == AsOutcome(p) && PowerOfTwoRadix.Correct(p, space, s, start, radix, false, flags.trailingJunk);
        DigitsConvert(p, space, s, start, d, rest, radix, false, flags.trailingJunk);
      }
    }
  }

  /** A number with a radix prefix has the value of its digits in that radix, and neither a sign nor a missing
      digit is allowed. */
  lemma {:induction false} PrefixedConverts(r: Outcome, space: char -> bool, flags: Flags, s: string, blanks: string,
                                            sign: string, c: char, d: string, rest: string, radix: nat)
    requires PlainSpace(space) && AllSpace(space, blanks) && IsSign(sign)
    requires IsPrefix(c, radix, flags) && AllDigits(d, radix)
    requires rest != "" ==> !IsDigit(rest[0], 36) && rest[0] != '.'
    requires s == blanks + (sign + (['0', c] + d)) + rest
    requires StringToDouble.Correct(r, space, s, flags)
    ensures if sign == "" && d != "" && (flags.trailingJunk || AllSpace(space, rest))
            then r.Power? && !r.negative && IsRounding(Value(d, radix), r.number, r.exponent)
            else r == NotANumber
  {
    var text := ['0', c] + d;
    assert text[0] == '0';
    var i := PrefixedStands(space, flags, s, blanks, sign, c, d, text, rest, radix);
    PrefixedFormOwed(r, space, flags, s, i, radix, sign != "");
    PrefixedOwed(r, space, flags, s, i, d, rest, radix, sign != "");
  }

  /** Where the digits behind the prefix stand. */
  lemma {:induction false} PrefixedStands(space: char -> bool, flags: Flags, s: string, blanks: string, sign: string, c: char,
                                          d: string, text: string, rest: string, radix: nat) returns (i: nat)
    requires PlainSpace(space) && AllSpace(space, blanks) && IsSign(sign)
    requires IsPrefix(c, radix, flags) && text == ['0', c] + d && text[0] == '0'
    requires rest != "" ==> !IsDigit(rest[0], 36) && rest[0] != '.'
    requires s == blanks + (sign + text) + rest
    ensures i + |d| <= |s| && StandsAt(s, i, d) && Ends(s, i + |d|, radix) && s[i + |d|..] == rest
    ensures FormOf(space, s, flags) == Prefixed(i, radix, sign != "")
  {
    i := |blanks| + |sign| + 2;
    NumberForm(space, flags, s, blanks, sign, text, rest, i - 2);
    PrefixedForm(s, i - 2, c, d, radix, flags, sign != "", sign == "-");
    DigitsOfSuffix(s, i + |d|, radix);
  }

  lemma {:induction false} PrefixedFormOwed(r: Outcome, space: char -> bool, flags: Flags, s: string, i: nat, radix: nat, signed: bool)
    requires FormOf(space, s, flags) == Prefixed(i, radix, signed)
    requires StringToDouble.Correct(r, space, s, flags)
    ensures i <= |s| && CorrectPrefixed(r, space, s, i, radix, flags, signed)
  {
  }

  lemma {:induction false} DigitsOfSuffix(s: string, j: nat, radix: nat)
    requires Apart(s, j) && 2 <= radix <= 36
    ensures Ends(s, j, radix)
  {
    if j < |s| {
      DigitsOfRadix(s[j], radix);
    }
  }

  /** The word Infinity, with or without a sign. */
  lemma {:induction false} InfinityConverts(r: Outcome, space: char -> bool, flags: Flags, s: string, blanks: string,
                                            sign: string, rest: string)
    requires PlainSpace(space) && AllSpace(space, blanks) && IsSign(sign)
    requires rest != "" ==> !IsDigit(rest[0], 36) && rest[0] != '.'
    requires s == blanks + (sign + "Infinity") + rest
    requires StringToDouble.Correct(r, space, s, flags)
    ensures r == if flags.trailingJunk || AllSpace(space, rest) then Infinite(sign == "-") else NotANumber
  {
    var i, word := |blanks| + |sign|, "Infinity";
    NumberForm(space, flags, s, blanks, sign, word, rest, i);
    AtIsSlice(s, i, word);
    CharAt(s, i, word, 0);
    OnlySpaceIs(space, s, i + 8);
  }

  /** Nothing but white space is empty, and a sign alone no number. */
  lemma {:induction false} EmptyConverts(r: Outcome, space: char -> bool, flags: Flags, blanks: string, sign: char)
    requires PlainSpace(space) && AllSpace(space, blanks) && (sign == '+' || sign == '-')
    ensures StringToDouble.Correct(r, space, blanks, flags) ==> r == Empty
    ensures StringToDouble.Correct(r, space, blanks + [sign], flags) ==> r == NotANumber
  {
    AtIsSlice(blanks, 0, blanks);
    SpaceSkipped(space, blanks, blanks);
    var s := blanks + [sign];
    AtIsSlice(s, 0, blanks);
    SpaceSkipped(space, s, blanks);
  }
}

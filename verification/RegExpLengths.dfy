/** Bounds on the length of a match: min_match and max_match of the regular expression trees. */
module RegExpLengths {
  import opened Arithmetic

  const INFINITY: nat := MAX_INT

  datatype TextElement = AtomElement(data: string) | ClassElement(member: char -> bool) {
    function Length(): nat {
      if AtomElement? then |data| else 1
    }
  }

  datatype Tree =
    | Empty
    | Atom(data: string)
    | CharacterClass(member: char -> bool)
    | Text(elements: seq<TextElement>)
    | Assertion(holds: (string, nat) -> bool)
    | Quantifier(min: nat, max: nat, body: Tree)
    | Capture(body: Tree, index: nat)
    | Lookahead(body: Tree, positive: bool)
    | BackReference(index: nat, captured: Tree)

  function TextLength(elements: seq<TextElement>): nat {
    if elements == [] then 0 else elements[0].Length() + TextLength(elements[1..])
  }

  function MinMatch(t: Tree): nat {
    match t
    case Empty => 0
    case Atom(data) => |data|
    case CharacterClass(_) => 1
    case Text(elements) => TextLength(elements)
    case Assertion(_) => 0
    case Quantifier(min, _, body) => min * MinMatch(body)
    case Capture(body, _) => MinMatch(body)
    case Lookahead(_, _) => 0
    case BackReference(_, _) => 0
  }

  /** min_match as the code stores it: the product is taken in an int, whose overflow wraps around. */
  function MinMatchInt(t: Tree): int {
    match t
    case Quantifier(min, _, body) => Wrap32(min * MinMatchInt(body))
    case Capture(body, _) => MinMatchInt(body)
    case _ => MinMatch(t)
  }

  /** The saturating product of the constructor of a quantifier. */
  function QuantifierMax(max: nat, bodyMax: nat): nat {
    if max > 0 && bodyMax > INFINITY / max then INFINITY else max * bodyMax
  }

  function MaxMatch(t: Tree): nat {
    match t
    case Empty => 0
    case Atom(data) => |data|
    case CharacterClass(_) => 1
    case Text(elements) => TextLength(elements)
    case Assertion(_) => 0
    case Quantifier(_, max, body) => QuantifierMax(max, MaxMatch(body))
    case Capture(body, _) => MaxMatch(body)
    case Lookahead(_, _) => 0
    case BackReference(_, captured) => MaxMatch(captured)
  }

  /** The product is the mathematical one cut off at infinity, and no multiplication overflows. */
  lemma {:induction false} QuantifierMaxSaturates(max: nat, bodyMax: nat)
    requires bodyMax <= INFINITY
    ensures QuantifierMax(max, bodyMax) == Min(INFINITY, max * bodyMax)
    ensures !(max > 0 && bodyMax > INFINITY / max) ==> max * bodyMax <= INFINITY
  {
    if max > 0 {
      var q := INFINITY / max;
      assert q * max <= INFINITY < (q + 1) * max;
      if bodyMax > q { MulMono(q + 1, bodyMax, max); } else { MulMono(bodyMax, q, max); }
    }
  }

  // ----- matching -----

  /** The text captured by each group, as an interval of the input. */
  type Captures = map<nat, (nat, nat)>

  function GroupsIn(t: Tree): set<nat> {
    match t
    case Quantifier(_, _, body) => GroupsIn(body)
    case Capture(body, index) => GroupsIn(body) + {index}
    case Lookahead(body, _) => GroupsIn(body)
    case _ => {}
  }

  ghost predicate MatchesText(elements: seq<TextElement>, s: string, i: nat, j: nat)
    decreases |elements|
  {
    if elements == [] then i == j
    else
      var k := i + elements[0].Length();
      && i <= k <= |s|
      && (match elements[0]
          case AtomElement(data) => s[i..k] == data
          case ClassElement(member) => member(s[i]))
      && MatchesText(elements[1..], s, k, j)
  }

  /** The tree matches s[i..j] and turns the captures c into d. */
  ghost predicate Matches(t: Tree, s: string, i: nat, c: Captures, j: nat, d: Captures)
    decreases t, 0, 0
  {
    match t
    case Empty => j == i && d == c
    case Atom(data) => i <= j <= |s| && s[i..j] == data && d == c
    case CharacterClass(member) => i < |s| && member(s[i]) && j == i + 1 && d == c
    case Text(elements) => MatchesText(elements, s, i, j) && d == c
    case Assertion(holds) => holds(s, i) && j == i && d == c
    case Quantifier(min, max, body) =>
      exists n: nat :: min <= n && (max == INFINITY || n <= max) && Repeats(body, n, s, i, c, j, d)
    case Capture(body, index) =>
      exists b: Captures :: Matches(body, s, i, c, j, b) && d == b[index := (i, j)]
    case Lookahead(body, positive) =>
      && j == i
      && if positive then exists k: nat :: Matches(body, s, i, c, k, d)
         else d == c && !exists k: nat, b: Captures :: Matches(body, s, i, c, k, b)
    case BackReference(index, _) =>
      && d == c
      && if index in c then
           var (a, b) := c[index];
           a <= b <= |s| && j == i + (b - a) && j <= |s| && s[i..j] == s[a..b]
         else j == i
  }

  /** n iterations of the body of a quantifier, each of which forgets the groups inside it. */
  ghost predicate Repeats(body: Tree, n: nat, s: string, i: nat, c: Captures, j: nat, d: Captures)
    decreases body, 1, n
  {
    if n == 0 then j == i && d == c
    else exists k: nat, b: Captures ::
           Matches(body, s, i, c - GroupsIn(body), k, b) && Repeats(body, n - 1, s, k, b, j, d)
  }

  // ----- soundness -----

  /** The tree is one that the parser builds: lengths are ints, and the groups, those that back references
      refer to included, have the maximal lengths that bound gives them. */
  predicate WellFormed(t: Tree, bound: map<nat, nat>) {
    match t
    case Atom(data) => |data| <= INFINITY
    case Text(elements) => TextLength(elements) <= INFINITY
    case Quantifier(min, max, body) => min <= max <= INFINITY && WellFormed(body, bound)
    case Capture(body, index) => index in bound && bound[index] == MaxMatch(body) && WellFormed(body, bound)
    case Lookahead(body, _) => WellFormed(body, bound)
    case BackReference(index, captured) => index in bound && bound[index] == MaxMatch(captured) && WellFormed(captured, bound)
    case _ => true
  }

  lemma {:induction false} MaxMatchInRange(t: Tree, bound: map<nat, nat>)
    requires WellFormed(t, bound)
    ensures MaxMatch(t) <= INFINITY
  {
    match t
    case Quantifier(_, max, body) =>
      MaxMatchInRange(body, bound);
      QuantifierMaxSaturates(max, MaxMatch(body));
    case Capture(body, _) => MaxMatchInRange(body, bound);
    case BackReference(_, captured) => MaxMatchInRange(captured, bound);
    case _ =>
  }

  /** A length between the two bounds; an infinite upper bound is none. */
  predicate Within(low: nat, length: int, high: nat) {
    low <= length && (high < INFINITY ==> length <= high)
  }

  /** What is known of the captured intervals. */
  predicate Bounded(c: Captures, bound: map<nat, nat>, s: string) {
    forall g :: g in c ==> g in bound && c[g].0 <= c[g].1 <= |s| && Within(0, c[g].1 - c[g].0, bound[g])
  }

  lemma {:induction false} TextHasLength(elements: seq<TextElement>, s: string, i: nat, j: nat)
    requires MatchesText(elements, s, i, j) && i <= |s|
    ensures j == i + TextLength(elements) && j <= |s|
    decreases |elements|
  {
    if elements != [] {
      TextHasLength(elements[1..], s, i + elements[0].Length(), j);
    }
  }

  lemma {:induction false} CaptureKeepsBounded(c: Captures, bound: map<nat, nat>, s: string, index: nat, i: nat, j: nat)
    requires Bounded(c, bound, s) && index in bound
    requires i <= j <= |s| && Within(0, j - i, bound[index])
    ensures Bounded(c[index := (i, j)], bound, s)
  {
  }

  /** Every match is at least min_match and at most max_match long. */
  lemma {:induction false} MatchWithinBounds(t: Tree, bound: map<nat, nat>, s: string, i: nat, c: Captures, j: nat, d: Captures)
    requires WellFormed(t, bound) && Bounded(c, bound, s) && i <= |s|
    requires Matches(t, s, i, c, j, d)
    ensures i <= j <= |s| && Within(MinMatch(t), j - i, MaxMatch(t))
    ensures Bounded(d, bound, s)
    decreases t, 0, 0
  {
    match t
    case Text(elements) =>
      TextHasLength(elements, s, i, j);
    case Quantifier(min, max, body) =>
      var n: nat :| min <= n && (max == INFINITY || n <= max) && Repeats(body, n, s, i, c, j, d);
      RepeatsWithinBounds(body, bound, n, s, i, c, j, d);
      MaxMatchInRange(body, bound);
      QuantifierBounds(min, max, n, MinMatch(body), MaxMatch(body), j - i);
    case Capture(body, index) =>
      var b: Captures :| Matches(body, s, i, c, j, b) && d == b[index := (i, j)];
      MatchWithinBounds(body, bound, s, i, c, j, b);
      CaptureKeepsBounded(b, bound, s, index, i, j);
    case Lookahead(body, positive) =>
      if positive {
        var k: nat :| Matches(body, s, i, c, k, d);
        MatchWithinBounds(body, bound, s, i, c, k, d);
      }
    case _ =>
  }

  lemma {:induction false} RepeatsWithinBounds(body: Tree, bound: map<nat, nat>, n: nat, s: string, i: nat, c: Captures, j: nat, d: Captures)
    requires WellFormed(body, bound) && Bounded(c, bound, s) && i <= |s|
    requires Repeats(body, n, s, i, c, j, d)
    ensures i <= j <= |s|
    ensures n * MinMatch(body) <= j - i
    ensures MaxMatch(body) < INFINITY ==> j - i <= n * MaxMatch(body)
    ensures n == 0 ==> j == i
    ensures Bounded(d, bound, s)
    decreases body, 1, n
  {
    if n > 0 {
      var k: nat, b: Captures :|
        Matches(body, s, i, c - GroupsIn(body), k, b) && Repeats(body, n - 1, s, k, b, j, d);
      MatchWithinBounds(body, bound, s, i, c - GroupsIn(body), k, b);
      RepeatsWithinBounds(body, bound, n - 1, s, k, b, j, d);
      OneMore(n - 1, MinMatch(body), MaxMatch(body), k - i, j - k);
    }
  }

  /** One more iteration on top of n others. */
  lemma {:induction false} OneMore(n: nat, low: nat, high: nat, first: int, rest: int)
    requires Within(low, first, high)
    requires n * low <= rest && (high < INFINITY ==> rest <= n * high)
    ensures (n + 1) * low <= first + rest
    ensures high < INFINITY ==> first + rest <= (n + 1) * high
  {
    MulStep(low, n);
    MulStep(high, n);
  }

  lemma {:induction false} QuantifierBounds(min: nat, max: nat, n: nat, low: nat, high: nat, length: int)
    requires min <= n && (max == INFINITY || n <= max) && high <= INFINITY
    requires n * low <= length && (high < INFINITY ==> length <= n * high) && (n == 0 ==> length == 0)
    ensures Within(min * low, length, QuantifierMax(max, high))
  {
    MulMono(min, n, low);
    QuantifierMaxSaturates(max, high);
    if QuantifierMax(max, high) < INFINITY {
      if max == 0 {
      } else if high == 0 {
        assert n * high == 0;
      } else {
        MulMono(1, high, max);
        MulMono(1, max, high);
        MulMono(n, max, high);
      }
    }
  }

  // ----- the stored minimum -----

  lemma {:induction false} WrapBelow(x: nat)
    ensures Wrap32(x) <= x
    ensures Wrap32(x) == x <==> x <= INFINITY
  {
  }

  /** The stored minimum is the low 32 bits of the mathematical one, however often products overflow. */
  lemma {:induction false} MinMatchIntWraps(t: Tree, bound: map<nat, nat>)
    requires WellFormed(t, bound)
    ensures MinMatchInt(t) == Wrap32(MinMatch(t))
  {
    match t
    case Quantifier(min, _, body) =>
      MinMatchIntWraps(body, bound);
      WrapProduct(min, MinMatch(body));
    case Capture(body, _) => MinMatchIntWraps(body, bound);
    case _ =>
  }

  /** The stored minimum is the mathematical one exactly as long as that fits in an int. */
  lemma {:induction false} WhenMinMatchIsExact(t: Tree, bound: map<nat, nat>)
    requires WellFormed(t, bound)
    ensures MinMatchInt(t) == MinMatch(t) <==> MinMatch(t) <= INFINITY
  {
    MinMatchIntWraps(t, bound);
    WrapBelow(MinMatch(t));
  }

  /** The stored minimum stays a lower bound on every match even where it has wrapped around. */
  lemma {:induction false} StoredBoundsAreSound(t: Tree, bound: map<nat, nat>, s: string, i: nat, c: Captures, j: nat, d: Captures)
    requires WellFormed(t, bound) && Bounded(c, bound, s) && i <= |s|
    requires Matches(t, s, i, c, j, d)
    ensures MinMatchInt(t) <= j - i && (MaxMatch(t) < INFINITY ==> j - i <= MaxMatch(t))
  {
    MatchWithinBounds(t, bound, s, i, c, j, d);
    MinMatchIntWraps(t, bound);
    WrapBelow(MinMatch(t));
  }

  /** For (?:ab){2147483647} the stored minimum is -2. */
  lemma {:induction false} MinMatchMayOverflow()
    ensures var t := Quantifier(INFINITY, INFINITY, Atom("ab"));
            WellFormed(t, map[]) && MinMatch(t) > INFINITY && MinMatchInt(t) == -2
  {
    assert MinMatch(Atom("ab")) == 2 && MinMatchInt(Atom("ab")) == 2;
    assert Wrap32(INFINITY * 2) == -2;
  }

  // ----- the bounds are attained -----

  /** The element matches something: its class, if it is one, has a member. */
  ghost predicate Inhabited(element: TextElement) {
    element.ClassElement? ==> exists c :: element.member(c)
  }

  /** Trees without conditions: whether they match depends on the length of the repetitions alone. */
  ghost predicate Unconditional(t: Tree) {
    match t
    case Empty => true
    case Atom(_) => true
    case CharacterClass(member) => exists c :: member(c)
    case Text(elements) => forall i :: 0 <= i < |elements| ==> Inhabited(elements[i])
    case Quantifier(_, _, body) => Unconditional(body)
    case Capture(body, _) => Unconditional(body)
    case _ => false
  }

  function RepeatWord(w: string, n: nat): string {
    if n == 0 then [] else w + RepeatWord(w, n - 1)
  }

  ghost function ClassWord(member: char -> bool): (w: string)
    requires exists c :: member(c)
    ensures |w| == 1 && member(w[0])
  {
    var c :| member(c);
    [c]
  }

  ghost function ElementWord(element: TextElement): (w: string)
    requires Inhabited(element)
    ensures |w| == element.Length()
    ensures if element.AtomElement? then w == element.data else element.member(w[0])
  {
    if element.AtomElement? then element.data else ClassWord(element.member)
  }

  ghost function TextWord(elements: seq<TextElement>): string
    requires forall i :: 0 <= i < |elements| ==> Inhabited(elements[i])
  {
    if elements == [] then [] else ElementWord(elements[0]) + TextWord(elements[1..])
  }

  /** A longest or a shortest word that the tree matches. */
  ghost function Word(t: Tree, longest: bool): string
    requires Unconditional(t)
  {
    match t
    case Empty => []
    case Atom(data) => data
    case CharacterClass(member) => ClassWord(member)
    case Text(elements) => TextWord(elements)
    case Quantifier(min, max, body) => RepeatWord(Word(body, longest), if longest then max else min)
    case Capture(body, _) => Word(body, longest)
  }

  lemma {:induction false} RepeatLength(w: string, n: nat)
    ensures |RepeatWord(w, n)| == n * |w|
  {
    if n > 0 {
      RepeatLength(w, n - 1);
      MulStep(|w|, n - 1);
    }
  }

  lemma {:induction false} TextWordLength(elements: seq<TextElement>)
    requires forall i :: 0 <= i < |elements| ==> Inhabited(elements[i])
    ensures |TextWord(elements)| == TextLength(elements)
  {
    if elements != [] {
      TextWordLength(elements[1..]);
    }
  }

  /** The words have exactly the lengths that min_match and max_match announce. */
  lemma {:induction false} WordLength(t: Tree, bound: map<nat, nat>)
    requires WellFormed(t, bound) && Unconditional(t)
    ensures |Word(t, false)| == MinMatch(t)
    ensures MaxMatch(t) < INFINITY ==> |Word(t, true)| == MaxMatch(t)
  {
    match t
    case Text(elements) => TextWordLength(elements);
    case Quantifier(min, max, body) =>
      WordLength(body, bound);
      MaxMatchInRange(body, bound);
      RepeatLength(Word(body, false), min);
      RepeatLength(Word(body, true), max);
      QuantifierMaxSaturates(max, MaxMatch(body));
      if max > 0 {
        MulMono(1, max, MaxMatch(body));
      }
    case Capture(body, _) => WordLength(body, bound);
    case _ =>
  }

  lemma {:induction false} Inserted(p: string, first: string, rest: string, q: string)
    ensures p + (first + rest) + q == (p + first) + rest + q
    ensures (p + (first + rest) + q)[|p|..|p| + |first|] == first
  {
  }

  lemma {:induction false} TextWordMatches(elements: seq<TextElement>, p: string, q: string)
    requires forall i :: 0 <= i < |elements| ==> Inhabited(elements[i])
    ensures MatchesText(elements, p + TextWord(elements) + q, |p|, |p| + |TextWord(elements)|)
    decreases |elements|
  {
    if elements != [] {
      var first, rest := ElementWord(elements[0]), TextWord(elements[1..]);
      Inserted(p, first, rest, q);
      TextWordMatches(elements[1..], p + first, q);
    }
  }

  lemma {:induction false} WordMatches(t: Tree, bound: map<nat, nat>, longest: bool, p: string, q: string, c: Captures)
      returns (d: Captures)
    requires WellFormed(t, bound) && Unconditional(t)
    ensures Matches(t, p + Word(t, longest) + q, |p|, c, |p| + |Word(t, longest)|, d)
    decreases t, 0, 0
  {
    var w := Word(t, longest);
    var s := p + w + q;
    d := c;
    match t
    case Empty =>
    case Atom(data) =>
    case CharacterClass(member) =>
    case Text(elements) => TextWordMatches(elements, p, q);
    case Quantifier(min, max, body) =>
      d := RepeatsMatch(body, bound, longest, if longest then max else min, p, q, c);
    case Capture(body, index) =>
      var b := WordMatches(body, bound, longest, p, q, c);
      d := b[index := (|p|, |p| + |w|)];
  }

  lemma {:induction false} RepeatsMatch(body: Tree, bound: map<nat, nat>, longest: bool, n: nat, p: string, q: string, c: Captures)
      returns (d: Captures)
    requires WellFormed(body, bound) && Unconditional(body)
    ensures var w := RepeatWord(Word(body, longest), n); Repeats(body, n, p + w + q, |p|, c, |p| + |w|, d)
    decreases body, 1, n
  {
    d := c;
    if n > 0 {
      var w, rest := Word(body, longest), RepeatWord(Word(body, longest), n - 1);
      var s := p + RepeatWord(w, n) + q;
      assert s == p + w + (rest + q);
      assert s == (p + w) + rest + q;
      var b := WordMatches(body, bound, longest, p, rest + q, c - GroupsIn(body));
      d := RepeatsMatch(body, bound, longest, n - 1, p + w, q, b);
      assert |p| + |RepeatWord(w, n)| == |p + w| + |rest|;
    }
  }

  /** On unconditional trees no better bounds exist. */
  lemma {:induction false} BoundsAreAttained(t: Tree, bound: map<nat, nat>)
    requires WellFormed(t, bound) && Unconditional(t)
    ensures exists s: string, d: Captures :: Matches(t, s, 0, map[], MinMatch(t), d)
    ensures MaxMatch(t) < INFINITY ==> exists s: string, d: Captures :: Matches(t, s, 0, map[], MaxMatch(t), d)
  {
    WordLength(t, bound);
    var d := WordMatches(t, bound, false, [], [], map[]);
    assert Matches(t, [] + Word(t, false) + [], 0, map[], MinMatch(t), d);
    if MaxMatch(t) < INFINITY {
      var e := WordMatches(t, bound, true, [], [], map[]);
      assert Matches(t, [] + Word(t, true) + [], 0, map[], MaxMatch(t), e);
    }
  }

  /** An assertion that holds matches with the length that its bounds announce. */
  lemma {:induction false} AssertionAttained(t: Tree, s: string, i: nat, c: Captures)
    requires t.Assertion? && t.holds(s, i)
    ensures Matches(t, s, i, c, i + MaxMatch(t), c) && MinMatch(t) == MaxMatch(t)
  {
  }

  /** So does a lookahead whose body matches, or for a negative one does not match. */
  lemma {:induction false} LookaheadAttained(body: Tree, s: string, i: nat, c: Captures, k: nat, d: Captures)
    requires Matches(body, s, i, c, k, d)
    ensures Matches(Lookahead(body, true), s, i, c, i + MaxMatch(Lookahead(body, true)), d)
  {
    assert exists k: nat :: Matches(body, s, i, c, k, d);
  }

  lemma {:induction false} NegativeLookaheadAttained(body: Tree, s: string, i: nat, c: Captures)
    requires forall k: nat, b: Captures :: !Matches(body, s, i, c, k, b)
    ensures Matches(Lookahead(body, false), s, i, c, i + MaxMatch(Lookahead(body, false)), c)
  {
    var t := Lookahead(body, false);
    assert MaxMatch(t) == 0;
    if exists k: nat, b: Captures :: Matches(body, s, i, c, k, b) {
    } else {
      assert Matches(t, s, i, c, i, c);
    }
  }

  lemma {:induction false} RepeatsGroup(index: nat, captured: Tree, w: string, c: Captures)
    requires index in c && c[index] == (0, |w|)
    ensures Matches(BackReference(index, captured), w + w, |w|, c, |w| + |w|, c)
  {
    var s := w + w;
    assert s[0..|w|] == w && s[|w|..|w| + |w|] == w;
  }

  /** A back reference to a group that took its longest word is as long as max_match says. */
  lemma {:induction false} BackReferenceAttained(index: nat, body: Tree, bound: map<nat, nat>, w: string) returns (d: Captures)
    requires WellFormed(body, bound) && Unconditional(body) && MaxMatch(body) < INFINITY
    requires w == Word(body, true)
    ensures |w| == MaxMatch(BackReference(index, body))
    ensures Matches(Capture(body, index), w + w, 0, map[], |w|, d)
    ensures Matches(BackReference(index, body), w + w, |w|, d, |w| + |w|, d)
  {
    WordLength(body, bound);
    d := GroupTakesWord(index, body, bound, w, w + w);
    RepeatsGroup(index, body, w, d);
  }

  lemma {:induction false} GroupTakesWord(index: nat, body: Tree, bound: map<nat, nat>, w: string, s: string) returns (d: Captures)
    requires WellFormed(body, bound) && Unconditional(body) && w == Word(body, true) && s == w + w
    ensures Matches(Capture(body, index), s, 0, map[], |w|, d)
    ensures index in d && d[index] == (0, |w|)
  {
    assert [] + w + w == s;
    var b := WordMatches(body, bound, true, [], w, map[]);
    d := b[index := (0, |w|)];
    assert Matches(body, s, 0, map[], |w|, b);
  }

  /** A back reference to a group that took no part matches nothing, as min_match says. */
  lemma {:induction false} UnsetBackReference(index: nat, captured: Tree, s: string, i: nat, c: Captures)
    requires index !in c
    ensures Matches(BackReference(index, captured), s, i, c, i + MinMatch(BackReference(index, captured)), c)
  {
  }

  /** A text node under construction: its length is kept up to date. */
  class RegExpText {
    var elements: seq<TextElement>
    var length: nat

    ghost predicate Valid()
      reads this
    {
      length == TextLength(elements)
    }

    constructor ()
      ensures Valid() && elements == []
    {
      elements, length := [], 0;
    }

    method AddElement(element: TextElement)
      requires Valid()
      modifies this
      ensures Valid() && elements == old(elements) + [element]
      ensures length == MinMatch(Text(elements)) == MaxMatch(Text(elements))
    {
      TextLengthSnoc(elements, element);
      elements := elements + [element];
      length := length + element.Length();
    }
  }

  lemma {:induction false} TextLengthSnoc(elements: seq<TextElement>, element: TextElement)
    ensures TextLength(elements + [element]) == TextLength(elements) + element.Length()
  {
    if elements == [] {
      assert elements + [element] == [element];
    } else {
      assert (elements + [element])[1..] == elements[1..] + [element];
      TextLengthSnoc(elements[1..], element);
    }
  }
}

/** Sets of small integers packed into machine words: BitVector and GrowableBitVector. */
module BitVectors {
  import opened Arithmetic

  const DATA_BITS: nat := 64

  // ----- words -----

  /** The word with only bit k set. */
  function Mask(k: nat): bv64
    requires k < DATA_BITS
  {
    if k == 0 then 1 else Mask(k - 1) << 1
  }

  predicate Sees(w: bv64, m: bv64) {
    w & m != 0
  }

  predicate Bit(w: bv64, k: nat)
    requires k < DATA_BITS
  {
    if k == 0 then w & 1 != 0 else Bit(w >> 1, k - 1)
  }

  predicate OneBit(m: bv64) {
    m != 0 && m & (m - 1) == 0
  }

  lemma {:induction false} LowestZero(w: bv64)
    requires w & 1 == 0
    ensures w == (w >> 1) << 1
  {
  }

  lemma {:induction false} Successor(s: bv64)
    requires s < 63
    ensures (s + 1) as int == s as int + 1
  {
  }

  lemma {:induction false} Predecessor(s: bv64)
    requires 0 < s < 64
    ensures (s - 1) as int == s as int - 1
  {
  }

  lemma {:induction false} Converted(s: bv64)
    ensures (s as int) as bv64 == s
  {
  }

  /** A shift amount as a word. */
  lemma {:induction false} Amount(k: nat) returns (s: bv64)
    requires k < DATA_BITS
    ensures s as int == k && s < 64
  {
    s := 0;
    if k > 0 {
      var t := Amount(k - 1);
      Successor(t);
      s := t + 1;
    }
  }

  lemma {:induction false} AmountIs(k: nat)
    requires k < DATA_BITS
    ensures (k as bv64) as int == k
  {
    var s := Amount(k);
    Converted(s);
  }

  lemma {:induction false} SmallAmount(k: nat)
    requires 0 < k < DATA_BITS
    ensures 0 < k as bv64 < 64
  {
  }

  lemma {:induction false} AmountBefore(k: nat)
    requires 0 < k < DATA_BITS
    ensures (k - 1) as bv64 == k as bv64 - 1
    ensures 0 < k as bv64 < 64
  {
    SmallAmount(k);
    AmountIs(k);
    Predecessor(k as bv64);
    Converted(k as bv64 - 1);
  }

  lemma {:induction false} ShiftByWord(s: bv64)
    requires 0 < s < 64
    ensures (1 as bv64 << s) >> 1 == 1 as bv64 << (s - 1)
  {
  }

  lemma {:induction false} ShiftStep(k: nat)
    requires 0 < k < DATA_BITS
    ensures (1 as bv64 << k) >> 1 == 1 as bv64 << (k - 1)
  {
    AmountBefore(k);
    ShiftByWord(k as bv64);
  }

  lemma {:induction false} ShiftIsEven(k: nat)
    requires 0 < k < DATA_BITS
    ensures (1 as bv64 << k) & 1 == 0
  {
  }

  lemma {:induction false} ShiftIsOneBit(k: nat)
    requires k < DATA_BITS
    ensures OneBit(1 << k)
  {
  }

  lemma {:induction false} DoubledShift(k: nat)
    requires 0 < k < DATA_BITS
    ensures 1 as bv64 << k == (1 as bv64 << (k - 1)) << 1
  {
    ShiftStep(k);
    ShiftIsEven(k);
    LowestZero(1 << k);
  }

  lemma {:induction false} MaskShift(k: nat)
    requires k < DATA_BITS
    ensures Mask(k) == 1 << k
  {
    if k > 0 {
      MaskShift(k - 1);
      DoubledShift(k);
    }
  }

  /** The mask is one shifted left by k. */
  lemma {:induction false} MaskIsShift(k: nat)
    requires k < DATA_BITS
    ensures Mask(k) == 1 << k
    ensures OneBit(Mask(k))
  {
    MaskShift(k);
    ShiftIsOneBit(k);
  }

  lemma {:induction false} TopMask()
    ensures Mask(63) == 0x8000_0000_0000_0000
  {
    MaskIsShift(63);
  }

  lemma {:induction false} Halves(m: bv64)
    requires m != 0
    ensures m >> 1 < m
  {
  }

  lemma {:induction false} MaskIncreases(j: nat, k: nat)
    requires j < k < DATA_BITS
    ensures Mask(j) < Mask(k)
    decreases k - j
  {
    MaskIsShift(k);
    MaskIsShift(k - 1);
    ShiftStep(k);
    Halves(1 << k);
    if j < k - 1 {
      MaskIncreases(j, k - 1);
    }
  }

  lemma {:induction false} OneBitsDisjoint(m: bv64, n: bv64)
    requires OneBit(m) && OneBit(n) && m != n
    ensures m & n == 0
  {
  }

  lemma {:induction false} MasksDisjoint(j: nat, k: nat)
    requires j < DATA_BITS && k < DATA_BITS && j != k
    ensures Mask(j) & Mask(k) == 0
  {
    MaskIsShift(j);
    MaskIsShift(k);
    if j < k { MaskIncreases(j, k); } else { MaskIncreases(k, j); }
    OneBitsDisjoint(Mask(j), Mask(k));
  }

  lemma {:induction false} SeenHalf(w: bv64, n: bv64)
    requires OneBit(n) && n >> 1 != 0
    ensures Sees(w >> 1, n >> 1) <==> Sees(w, n)
  {
  }

  /** Bit k is what the mask of bit k sees. */
  lemma {:induction false} BitIsSeen(w: bv64, k: nat)
    requires k < DATA_BITS
    ensures Bit(w, k) <==> Sees(w, Mask(k))
  {
    if k > 0 {
      BitIsSeen(w >> 1, k - 1);
      MaskIsShift(k);
      MaskIsShift(k - 1);
      ShiftStep(k);
      SeenHalf(w, Mask(k));
    }
  }

  // What a mask m of one bit sees of the words.

  lemma {:induction false} SeenOr(a: bv64, b: bv64, m: bv64)
    ensures (a | b) & m == (a & m) | (b & m)
  {
  }

  lemma {:induction false} SeenAll(a: bv64, m: bv64)
    requires OneBit(m)
    ensures a & m == 0 || a & m == m
  {
  }

  lemma {:induction false} SeenAndNot(a: bv64, b: bv64, m: bv64)
    requires b & m == 0 || b & m == m
    ensures (a & !b) & m == if b & m == 0 then a & m else 0
  {
  }

  lemma {:induction false} OrZero(a: bv64, b: bv64)
    ensures a | b != 0 <==> a != 0 || b != 0
  {
  }

  lemma {:induction false} OrUnseen(a: bv64, b: bv64, m: bv64)
    requires a & m == 0
    ensures (a | b) & m == b & m
  {
  }

  lemma {:induction false} OrSeen(a: bv64, b: bv64, m: bv64)
    requires a & m != 0
    ensures (a | b) & m != 0
  {
    SeenOr(a, b, m);
    OrZero(a & m, b & m);
  }

  lemma {:induction false} SeesOr(a: bv64, b: bv64, m: bv64)
    ensures Sees(a | b, m) <==> Sees(a, m) || Sees(b, m)
  {
    if Sees(a, m) { OrSeen(a, b, m); } else { OrUnseen(a, b, m); }
  }

  lemma {:induction false} SeesAnd(a: bv64, b: bv64, m: bv64)
    requires OneBit(m)
    ensures Sees(a & b, m) <==> Sees(a, m) && Sees(b, m)
  {
  }

  lemma {:induction false} SeesAndNot(a: bv64, b: bv64, m: bv64)
    requires OneBit(m)
    ensures Sees(a & !b, m) <==> Sees(a, m) && !Sees(b, m)
  {
    SeenAll(b, m);
    SeenAndNot(a, b, m);
  }

  lemma {:induction false} BitOr(a: bv64, b: bv64, k: nat)
    requires k < DATA_BITS
    ensures Bit(a | b, k) <==> Bit(a, k) || Bit(b, k)
  {
    SeesOr(a, b, Mask(k));
    BitIsSeen(a, k);
    BitIsSeen(b, k);
    BitIsSeen(a | b, k);
  }

  lemma {:induction false} BitAnd(a: bv64, b: bv64, k: nat)
    requires k < DATA_BITS
    ensures Bit(a & b, k) <==> Bit(a, k) && Bit(b, k)
  {
    MaskIsShift(k);
    SeesAnd(a, b, Mask(k));
    BitIsSeen(a, k);
    BitIsSeen(b, k);
    BitIsSeen(a & b, k);
  }

  lemma {:induction false} BitAndNot(a: bv64, b: bv64, k: nat)
    requires k < DATA_BITS
    ensures Bit(a & !b, k) <==> Bit(a, k) && !Bit(b, k)
  {
    MaskIsShift(k);
    SeesAndNot(a, b, Mask(k));
    BitIsSeen(a, k);
    BitIsSeen(b, k);
    BitIsSeen(a & !b, k);
  }

  lemma {:induction false} SeesSelf(m: bv64)
    requires m != 0
    ensures Sees(m, m)
  {
  }

  lemma {:induction false} BitOfMask(j: nat, k: nat)
    requires j < DATA_BITS && k < DATA_BITS
    ensures Bit(Mask(j), k) <==> j == k
  {
    MaskIsShift(k);
    SeesSelf(Mask(k));
    BitIsSeen(Mask(j), k);
    if j != k {
      MasksDisjoint(j, k);
    }
  }

  lemma {:induction false} HalfOfOneBit(m: bv64)
    requires OneBit(m) && m != 1
    ensures OneBit(m >> 1) && m & 1 == 0 && m >> 1 < m && m >> 1 != 0x8000_0000_0000_0000
  {
  }

  /** Every word of one bit is a mask. */
  lemma {:induction false} FindBit(m: bv64) returns (k: nat)
    requires OneBit(m)
    ensures k < DATA_BITS && Mask(k) == m
    decreases m
  {
    if m == 1 {
      k := 0;
    } else {
      HalfOfOneBit(m);
      k := FindBit(m >> 1);
      LowestZero(m);
      TopMask();
      k := k + 1;
    }
  }

  lemma {:induction false} LowestBit(w: bv64)
    requires w != 0
    ensures OneBit(w & (0 - w)) && Sees(w, w & (0 - w))
  {
  }

  lemma {:induction false} ZeroHasNoBit(k: nat)
    requires k < DATA_BITS
    ensures !Bit(0, k)
  {
    if k > 0 {
      assert (0 as bv64) >> 1 == 0;
      ZeroHasNoBit(k - 1);
    }
  }

  lemma {:induction false} NoBits(w: bv64)
    requires forall i :: 0 <= i < DATA_BITS ==> !Bit(w, i)
    ensures w == 0
  {
    if w != 0 {
      LowestBit(w);
      var k := FindBit(w & (0 - w));
      BitIsSeen(w, k);
    }
  }

  /** A word is determined by its bits. */
  lemma {:induction false} SameBits(a: bv64, b: bv64)
    requires forall i :: 0 <= i < DATA_BITS ==> Bit(a, i) == Bit(b, i)
    ensures a == b
  {
    OnlyBits(a, b);
    OnlyBits(b, a);
    EqualByDifference(a, b);
  }

  lemma {:induction false} OnlyBits(a: bv64, b: bv64)
    requires forall i :: 0 <= i < DATA_BITS ==> Bit(a, i) == Bit(b, i)
    ensures a & !b == 0
  {
    var d := a & !b;
    forall i | 0 <= i < DATA_BITS
      ensures !Bit(d, i)
    {
      BitAndNot(a, b, i);
    }
    NoBits(d);
  }

  lemma {:induction false} EqualByDifference(a: bv64, b: bv64)
    requires a & !b == 0 && b & !a == 0
    ensures a == b
  {
  }

  /** The word c has the bits of a | b. */
  ghost predicate IsOr(c: bv64, a: bv64, b: bv64) {
    forall k :: 0 <= k < DATA_BITS ==> (Bit(c, k) <==> Bit(a, k) || Bit(b, k))
  }

  method OrWords(a: bv64, b: bv64) returns (c: bv64)
    ensures IsOr(c, a, b)
  {
    c := a | b;
    forall k | 0 <= k < DATA_BITS
      ensures Bit(c, k) <==> Bit(a, k) || Bit(b, k)
    {
      BitOr(a, b, k);
    }
  }

  /** The word c has the bits of a & b. */
  ghost predicate IsAnd(c: bv64, a: bv64, b: bv64) {
    forall k :: 0 <= k < DATA_BITS ==> (Bit(c, k) <==> Bit(a, k) && Bit(b, k))
  }

  method AndWords(a: bv64, b: bv64) returns (c: bv64)
    ensures IsAnd(c, a, b)
  {
    c := a & b;
    forall k | 0 <= k < DATA_BITS
      ensures Bit(c, k) <==> Bit(a, k) && Bit(b, k)
    {
      BitAnd(a, b, k);
    }
  }

  /** The word c has the bits of a & !b. */
  ghost predicate IsAndNot(c: bv64, a: bv64, b: bv64) {
    forall k :: 0 <= k < DATA_BITS ==> (Bit(c, k) <==> Bit(a, k) && !Bit(b, k))
  }

  method AndNotWords(a: bv64, b: bv64) returns (c: bv64)
    ensures IsAndNot(c, a, b)
  {
    c := a & !b;
    forall k | 0 <= k < DATA_BITS
      ensures Bit(c, k) <==> Bit(a, k) && !Bit(b, k)
    {
      BitAndNot(a, b, k);
    }
  }

  // ----- sequences of words as sets -----

  predicate Has(words: seq<bv64>, i: nat) {
    i / DATA_BITS < |words| && Bit(words[i / DATA_BITS], i % DATA_BITS)
  }

  ghost function Members(words: seq<bv64>): set<nat> {
    set i: nat | i < DATA_BITS * |words| && Has(words, i)
  }

  lemma {:induction false} MemberIffHas(words: seq<bv64>, i: nat)
    ensures i in Members(words) <==> Has(words, i)
  {
  }

  lemma {:induction false} MembersUnion(a: seq<bv64>, b: seq<bv64>, c: seq<bv64>)
    requires |a| == |b| == |c| && forall i :: 0 <= i < |a| ==> IsOr(c[i], a[i], b[i])
    ensures Members(c) == Members(a) + Members(b)
  {
    forall i: nat | i / DATA_BITS < |a|
      ensures Has(c, i) <==> Has(a, i) || Has(b, i)
    {
      assert IsOr(c[i / DATA_BITS], a[i / DATA_BITS], b[i / DATA_BITS]);
    }
  }

  lemma {:induction false} MembersIntersection(a: seq<bv64>, b: seq<bv64>, c: seq<bv64>)
    requires |a| == |b| == |c| && forall i :: 0 <= i < |a| ==> IsAnd(c[i], a[i], b[i])
    ensures Members(c) == Members(a) * Members(b)
  {
    forall i: nat | i / DATA_BITS < |a|
      ensures Has(c, i) <==> Has(a, i) && Has(b, i)
    {
      assert IsAnd(c[i / DATA_BITS], a[i / DATA_BITS], b[i / DATA_BITS]);
    }
  }

  lemma {:induction false} MembersDifference(a: seq<bv64>, b: seq<bv64>, c: seq<bv64>)
    requires |a| == |b| == |c| && forall i :: 0 <= i < |a| ==> IsAndNot(c[i], a[i], b[i])
    ensures Members(c) == Members(a) - Members(b)
  {
    forall i: nat | i / DATA_BITS < |a|
      ensures Has(c, i) <==> Has(a, i) && !Has(b, i)
    {
      assert IsAndNot(c[i / DATA_BITS], a[i / DATA_BITS], b[i / DATA_BITS]);
    }
  }

  lemma {:induction false} MembersExtended(a: seq<bv64>, c: seq<bv64>)
    requires |a| <= |c| && a == c[..|a|] && forall i :: |a| <= i < |c| ==> c[i] == 0
    ensures Members(c) == Members(a)
  {
    forall i: nat
      ensures Has(c, i) <==> Has(a, i)
    {
      ZeroHasNoBit(i % DATA_BITS);
    }
  }

  lemma {:induction false} MembersEmpty(a: seq<bv64>)
    ensures Members(a) == {} <==> forall i :: 0 <= i < |a| ==> a[i] == 0
  {
    if Members(a) == {} {
      forall i | 0 <= i < |a|
        ensures a[i] == 0
      {
        forall k | 0 <= k < DATA_BITS
          ensures !Bit(a[i], k)
        {
          WordBit(a, i, k);
        }
        NoBits(a[i]);
      }
    } else {
      var n :| n in Members(a);
      ZeroHasNoBit(n % DATA_BITS);
    }
  }

  lemma {:induction false} WordBit(a: seq<bv64>, i: nat, k: nat)
    requires i < |a| && k < DATA_BITS
    ensures Bit(a[i], k) <==> DATA_BITS * i + k in Members(a)
  {
    var n := DATA_BITS * i + k;
    assert n / DATA_BITS == i && n % DATA_BITS == k;
  }

  /** Equal sets of equal size have equal words. */
  lemma {:induction false} MembersInjective(a: seq<bv64>, b: seq<bv64>)
    requires |a| == |b|
    ensures Members(a) == Members(b) <==> a == b
  {
    if Members(a) == Members(b) {
      forall i | 0 <= i < |a|
        ensures a[i] == b[i]
      {
        forall k | 0 <= k < DATA_BITS
          ensures Bit(a[i], k) == Bit(b[i], k)
        {
          WordBit(a, i, k);
          WordBit(b, i, k);
        }
        SameBits(a[i], b[i]);
      }
    }
  }

  lemma {:induction false} BitSwitchedOn(w: bv64, j: nat, k: nat)
    requires j < DATA_BITS && k < DATA_BITS
    ensures Bit(w | Mask(j), k) <==> Bit(w, k) || j == k
  {
    BitOfMask(j, k);
    BitOr(w, Mask(j), k);
  }

  lemma {:induction false} BitSwitchedOff(w: bv64, j: nat, k: nat)
    requires j < DATA_BITS && k < DATA_BITS
    ensures Bit(w & !Mask(j), k) <==> Bit(w, k) && j != k
  {
    BitOfMask(j, k);
    BitAndNot(w, Mask(j), k);
  }

  /** The word c is w with bit j switched on or off. */
  ghost predicate IsSwitched(c: bv64, w: bv64, j: nat, on: bool) {
    forall k :: 0 <= k < DATA_BITS ==> (Bit(c, k) <==> if j == k then on else Bit(w, k))
  }

  method SwitchOn(w: bv64, j: nat) returns (c: bv64)
    requires j < DATA_BITS
    ensures IsSwitched(c, w, j, true)
  {
    c := w | Mask(j);
    forall k | 0 <= k < DATA_BITS
      ensures Bit(c, k) <==> Bit(w, k) || j == k
    {
      BitSwitchedOn(w, j, k);
    }
  }

  method SwitchOff(w: bv64, j: nat) returns (c: bv64)
    requires j < DATA_BITS
    ensures IsSwitched(c, w, j, false)
  {
    c := w & !Mask(j);
    forall k | 0 <= k < DATA_BITS
      ensures Bit(c, k) <==> Bit(w, k) && j != k
    {
      BitSwitchedOff(w, j, k);
    }
  }

  /** Switching one bit changes one member. */
  lemma {:induction false} MembersSwitched(a: seq<bv64>, c: seq<bv64>, n: nat, on: bool)
    requires n / DATA_BITS < |a| == |c|
    requires forall i :: 0 <= i < |a| && i != n / DATA_BITS ==> c[i] == a[i]
    requires IsSwitched(c[n / DATA_BITS], a[n / DATA_BITS], n % DATA_BITS, on)
    ensures Members(c) == if on then Members(a) + {n} else Members(a) - {n}
  {
    forall i: nat
      ensures Has(c, i) <==> if i == n then on else Has(a, i)
    {
    }
  }

  function SizeFor(length: nat): nat
    requires length > 0
  {
    1 + (length - 1) / DATA_BITS
  }

  lemma {:induction false} IndexInSize(i: nat, length: nat)
    requires i < length
    ensures i / DATA_BITS < SizeFor(length)
  {
  }

  class BitVector {
    const length: nat
    const data: array<bv64>

    /** The bits past the length in the last word are always zero. */
    ghost predicate Valid()
      reads data
    {
      && length > 0
      && data.Length == SizeFor(length)
      && forall i :: i in Members(data[..]) ==> i < length
    }

    ghost function Contents(): set<nat>
      reads data
    {
      Members(data[..])
    }

    constructor (length: nat)
      requires length > 0
      ensures Valid() && fresh(data)
      ensures this.length == length && Contents() == {}
    {
      this.length := length;
      data := new bv64[SizeFor(length)](_ => 0);
      new;
      MembersEmpty(data[..]);
    }

    method CopyFrom(other: BitVector)
      requires Valid() && other.Valid() && other.length <= length
      modifies data
      ensures Valid() && Contents() == old(other.Contents())
    {
      ghost var source := other.data[..];
      assert other.data.Length <= data.Length;
      var i := 0;
      while i < other.data.Length
        invariant 0 <= i <= other.data.Length
        invariant data[..i] == source[..i]
        invariant other.data[i..] == source[i..]
      {
        data[i] := other.data[i];
        i := i + 1;
      }
      while i < data.Length
        invariant |source| <= i <= data.Length
        invariant data[..|source|] == source
        invariant forall j :: |source| <= j < i ==> data[j] == 0
      {
        data[i] := 0;
        i := i + 1;
      }
      MembersExtended(source, data[..]);
    }

    method Contains(i: nat) returns (r: bool)
      requires Valid() && i < length
      ensures r <==> i in Contents()
    {
      IndexInSize(i, length);
      var block := data[i / DATA_BITS];
      r := Sees(block, Mask(i % DATA_BITS));
      BitIsSeen(block, i % DATA_BITS);
      MemberIffHas(data[..], i);
    }

    method Add(i: nat)
      requires Valid() && i < length
      modifies data
      ensures Valid() && Contents() == old(Contents()) + {i}
    {
      IndexInSize(i, length);
      ghost var before := data[..];
      data[i / DATA_BITS] := SwitchOn(data[i / DATA_BITS], i % DATA_BITS);
      MembersSwitched(before, data[..], i, true);
    }

    method Remove(i: nat)
      requires Valid() && i < length
      modifies data
      ensures Valid() && Contents() == old(Contents()) - {i}
    {
      IndexInSize(i, length);
      ghost var before := data[..];
      data[i / DATA_BITS] := SwitchOff(data[i / DATA_BITS], i % DATA_BITS);
      MembersSwitched(before, data[..], i, false);
    }

    method Union(other: BitVector)
      requires Valid() && other.Valid() && other.length == length
      modifies data
      ensures Valid() && Contents() == old(Contents()) + old(other.Contents())
    {
      ghost var before, source := data[..], other.data[..];
      var i := 0;
      while i < data.Length
        invariant 0 <= i <= data.Length
        invariant forall j :: 0 <= j < i ==> IsOr(data[j], before[j], source[j])
        invariant forall j :: i <= j < data.Length ==> data[j] == before[j] && other.data[j] == source[j]
      {
        data[i] := OrWords(data[i], other.data[i]);
        i := i + 1;
      }
      MembersUnion(before, source, data[..]);
    }

    /** Returns whether the set changed. */
    method UnionIsChanged(other: BitVector) returns (changed: bool)
      requires Valid() && other.Valid() && other.length == length
      modifies data
      ensures Valid() && Contents() == old(Contents()) + old(other.Contents())
      ensures changed <==> Contents() != old(Contents())
    {
      ghost var before, source := data[..], other.data[..];
      changed := false;
      var i := 0;
      while i < data.Length
        invariant 0 <= i <= data.Length
        invariant forall j :: 0 <= j < i ==> IsOr(data[j], before[j], source[j])
        invariant forall j :: i <= j < data.Length ==> data[j] == before[j] && other.data[j] == source[j]
        invariant changed <==> exists j :: 0 <= j < i && data[j] != before[j]
      {
        var oldData := data[i];
        data[i] := OrWords(data[i], other.data[i]);
        if data[i] != oldData {
          changed := true;
        }
        i := i + 1;
      }
      MembersUnion(before, source, data[..]);
      MembersInjective(data[..], before);
    }

    method Intersect(other: BitVector)
      requires Valid() && other.Valid() && other.length == length
      modifies data
      ensures Valid() && Contents() == old(Contents()) * old(other.Contents())
    {
      ghost var before, source := data[..], other.data[..];
      var i := 0;
      while i < data.Length
        invariant 0 <= i <= data.Length
        invariant forall j :: 0 <= j < i ==> IsAnd(data[j], before[j], source[j])
        invariant forall j :: i <= j < data.Length ==> data[j] == before[j] && other.data[j] == source[j]
      {
        data[i] := AndWords(data[i], other.data[i]);
        i := i + 1;
      }
      MembersIntersection(before, source, data[..]);
    }

    method IntersectIsChanged(other: BitVector) returns (changed: bool)
      requires Valid() && other.Valid() && other.length == length
      modifies data
      ensures Valid() && Contents() == old(Contents()) * old(other.Contents())
      ensures changed <==> Contents() != old(Contents())
    {
      ghost var before, source := data[..], other.data[..];
      changed := false;
      var i := 0;
      while i < data.Length
        invariant 0 <= i <= data.Length
        invariant forall j :: 0 <= j < i ==> IsAnd(data[j], before[j], source[j])
        invariant forall j :: i <= j < data.Length ==> data[j] == before[j] && other.data[j] == source[j]
        invariant changed <==> exists j :: 0 <= j < i && data[j] != before[j]
      {
        var oldData := data[i];
        data[i] := AndWords(data[i], other.data[i]);
        if data[i] != oldData {
          changed := true;
        }
        i := i + 1;
      }
      MembersIntersection(before, source, data[..]);
      MembersInjective(data[..], before);
    }

    method Subtract(other: BitVector)
      requires Valid() && other.Valid() && other.length == length
      modifies data
      ensures Valid() && Contents() == old(Contents()) - old(other.Contents())
    {
      ghost var before, source := data[..], other.data[..];
      var i := 0;
      while i < data.Length
        invariant 0 <= i <= data.Length
        invariant forall j :: 0 <= j < i ==> IsAndNot(data[j], before[j], source[j])
        invariant forall j :: i <= j < data.Length ==> data[j] == before[j] && other.data[j] == source[j]
      {
        data[i] := AndNotWords(data[i], other.data[i]);
        i := i + 1;
      }
      MembersDifference(before, source, data[..]);
    }

    method Clear()
      requires Valid()
      modifies data
      ensures Valid() && Contents() == {}
    {
      var i := 0;
      while i < data.Length
        invariant 0 <= i <= data.Length
        invariant forall j :: 0 <= j < i ==> data[j] == 0
      {
        data[i] := 0;
        i := i + 1;
      }
      MembersEmpty(data[..]);
    }

    method IsEmpty() returns (r: bool)
      requires Valid()
      ensures r <==> Contents() == {}
    {
      MembersEmpty(data[..]);
      var i := 0;
      while i < data.Length
        invariant 0 <= i <= data.Length
        invariant forall j :: 0 <= j < i ==> data[j] == 0
      {
        if data[i] != 0 {
          assert data[..][i] != 0;
          return false;
        }
        i := i + 1;
      }
      r := true;
    }

    method Equals(other: BitVector) returns (r: bool)
      requires Valid() && other.Valid() && other.length == length
      ensures r <==> Contents() == other.Contents()
    {
      MembersInjective(data[..], other.data[..]);
      var i := 0;
      while i < data.Length
        invariant 0 <= i <= data.Length
        invariant data[..i] == other.data[..i]
      {
        if data[i] != other.data[i] {
          assert data[..][i] != other.data[..][i];
          return false;
        }
        i := i + 1;
      }
      r := true;
    }
  }

  // ----- growth -----

  const INITIAL_LENGTH: nat := 1024

  /** The length doubled until it is above the value. */
  function Grown(length: nat, value: nat): (n: nat)
    requires length > 0
    ensures n > value && n >= length
    ensures n == length || n <= 2 * value
    decreases value - length
  {
    if length > value then length else Grown(2 * length, value)
  }

  /** The last length that doubling reaches within an int. */
  function LastLength(length: nat): (n: nat)
    requires 0 < length <= MAX_INT
    ensures length <= n <= MAX_INT < 2 * n
    decreases MAX_INT - length
  {
    if 2 * length > MAX_INT then length else LastLength(2 * length)
  }

  /** No smaller doubling of the length is above the value. */
  lemma {:induction false} GrownIsLeast(length: nat, value: nat) returns (k: nat)
    requires length > 0
    ensures Grown(length, value) == length * Pow(2, k)
    ensures forall j: nat :: value < length * Pow(2, j) ==> k <= j
    decreases value - length
  {
    k := 0;
    if length <= value {
      var m := GrownIsLeast(2 * length, value);
      k := m + 1;
      MulAssoc(length, 2, Pow(2, m));
      forall j: nat | value < length * Pow(2, j)
        ensures k <= j
      {
        if j > 0 { MulAssoc(length, 2, Pow(2, j - 1)); }
      }
    }
  }

  /** The new length, and with it every length on the way, fits in an int exactly for the values below the last
      length that does. */
  lemma {:induction false} WhenGrowthFits(length: nat, value: nat)
    requires 0 < length <= MAX_INT
    ensures Grown(length, value) <= MAX_INT <==> value < LastLength(length)
    decreases MAX_INT - length
  {
    if length <= value {
      if 2 * length <= MAX_INT {
        WhenGrowthFits(2 * length, value);
      }
    }
  }

  lemma {:induction false} LastLengthOfInitial()
    ensures LastLength(INITIAL_LENGTH) == 0x4000_0000
  {
    assert LastLength(0x4000_0000) == 0x4000_0000;
    assert LastLength(0x400_0000) == 0x4000_0000;
    assert LastLength(0x40_0000) == 0x4000_0000;
    assert LastLength(0x4_0000) == 0x4000_0000;
    assert LastLength(0x4000) == 0x4000_0000;
  }

  /** From the initial length the values that fit are those below 2^30. From there on the doubled length leaves
      the range of an int; were it to wrap around, it would never rise above the value and the loop not end. */
  lemma {:induction false} InitialGrowth(value: nat)
    ensures Grown(INITIAL_LENGTH, value) <= MAX_INT <==> value < 0x4000_0000
    ensures value >= 0x4000_0000 ==> forall k: nat :: Wrap32(INITIAL_LENGTH * Pow(2, k)) <= value
  {
    LastLengthOfInitial();
    WhenGrowthFits(INITIAL_LENGTH, value);
    if value >= 0x4000_0000 {
      forall k: nat
        ensures Wrap32(INITIAL_LENGTH * Pow(2, k)) <= value
      {
        WrappedPower(k);
      }
    }
  }

  lemma {:induction false} WrappedPower(k: nat)
    ensures Wrap32(INITIAL_LENGTH * Pow(2, k)) <= 0x4000_0000
  {
    PowersOfTwo();
    PowAdd(2, 10, k);
    if k <= 20 {
      PowMono(2, 10 + k, 30);
      assert Pow(2, 30) == 0x4000_0000 by { PowAdd(2, 2, 30); }
    } else if k == 21 {
      assert Pow(2, 31) == 0x8000_0000 by { PowAdd(2, 1, 31); }
    } else {
      PowAdd(2, k - 22, 32);
      WrapCongruent(0, Pow(2, k - 22));
    }
  }

  /** A bit vector that grows: a set of naturals without a bound. */
  class GrowableBitVector {
    var bits: BitVector?

    ghost predicate Valid()
      reads this, if bits != null then {bits.data} else {}
    {
      bits != null ==> bits.Valid()
    }

    ghost function Contents(): set<nat>
      reads this, if bits != null then {bits.data} else {}
    {
      if bits == null then {} else bits.Contents()
    }

    constructor ()
      ensures Valid() && Contents() == {} && bits == null
    {
      bits := null;
    }

    constructor WithLength(length: nat)
      requires length > 0
      ensures Valid() && Contents() == {}
      ensures bits != null && bits.length == length && fresh(bits) && fresh(bits.data)
    {
      bits := new BitVector(length);
    }

    predicate InBitsRange(value: nat)
      reads this
    {
      bits != null && bits.length > value
    }

    method Contains(value: nat) returns (r: bool)
      requires Valid()
      ensures r <==> value in Contents()
    {
      if !InBitsRange(value) {
        return false;
      }
      r := bits.Contains(value);
    }

    /** The length that doubling starts from. */
    function Length(): (n: nat)
      reads this
    {
      if bits == null then INITIAL_LENGTH else bits.length
    }

    /** Growing keeps the set. */
    method EnsureCapacity(value: nat)
      requires Valid()
      modifies this
      ensures Valid() && InBitsRange(value)
      ensures Contents() == old(Contents())
      ensures bits.length == Grown(old(Length()), value)
      ensures bits == old(bits) || (fresh(bits) && fresh(bits.data))
    {
      if InBitsRange(value) {
        return;
      }
      var newLength := if bits == null then INITIAL_LENGTH else bits.length;
      while newLength <= value
        invariant newLength > 0
        invariant bits != null ==> bits.length <= newLength
        invariant Grown(newLength, value) == Grown(old(Length()), value)
        decreases value - newLength
      {
        newLength := newLength * 2;
      }
      var newBits := new BitVector(newLength);
      if bits != null {
        newBits.CopyFrom(bits);
      }
      bits := newBits;
    }

    method Add(value: nat)
      requires Valid()
      modifies this, if bits != null then {bits.data} else {}
      ensures Valid() && Contents() == old(Contents()) + {value}
      ensures bits != null && bits.length == Grown(old(Length()), value)
      ensures bits == old(bits) || (fresh(bits) && fresh(bits.data))
    {
      EnsureCapacity(value);
      bits.Add(value);
    }

    method Clear()
      requires Valid()
      modifies if bits != null then {bits.data} else {}
      ensures Valid() && Contents() == {}
    {
      if bits != null {
        bits.Clear();
      }
    }
  }

  // ----- the iterator's search for the next bit -----

  function Shifted(w: bv64, n: nat): bv64 {
    if n == 0 then w else Shifted(w, n - 1) >> 1
  }

  lemma {:induction false} ShiftedFirst(w: bv64, h: bv64, n: nat)
    requires h == w >> 1
    ensures Shifted(w, n + 1) == Shifted(h, n)
  {
    if n > 0 {
      ShiftedFirst(w, h, n - 1);
      ShiftedNext(w, n);
      ShiftedNext(h, n - 1);
    } else {
      ShiftedNext(w, 0);
    }
  }

  lemma {:induction false} ShiftedNext(w: bv64, n: nat)
    ensures Shifted(w, n + 1) == Shifted(w, n) >> 1
  {
  }

  lemma {:induction false} BitIsShifted(w: bv64, k: nat)
    requires k < DATA_BITS
    ensures Bit(w, k) <==> Shifted(w, k) & 1 != 0
    decreases k
  {
    if k > 0 {
      ShiftedFirst(w, w >> 1, k - 1);
      BitIsShifted(w >> 1, k - 1);
    }
  }

  /** The word v is w without its n lowest bits, which are all zero. */
  ghost predicate Skipped(w: bv64, v: bv64, n: nat) {
    n < DATA_BITS && v == Shifted(w, n) && ZerosBelow(w, n)
  }

  predicate ZerosBelow(w: bv64, n: nat) {
    n <= DATA_BITS && forall k :: 0 <= k < n ==> !Bit(w, k)
  }

  lemma {:induction false} OneMoreZero(w: bv64, n: nat)
    requires w != 0 && n < DATA_BITS && ZerosBelow(w, n) && !Bit(w, n)
    ensures n < 63 && ZerosBelow(w, n + 1)
  {
    if n == 63 {
      NoBits(w);
    }
  }

  lemma {:induction false} SkipStep(w: bv64, v: bv64, n: nat)
    requires w != 0 && Skipped(w, v, n) && v & 1 == 0
    ensures Skipped(w, v >> 1, n + 1)
  {
    BitIsShifted(w, n);
    OneMoreZero(w, n);
    ShiftedNext(w, n);
  }

  lemma {:induction false} ShiftTwo(v: bv64)
    requires v & 3 == 0
    ensures v & 1 == 0 && (v >> 1) & 1 == 0 && (v >> 1) >> 1 == v >> 2
  {
  }

  lemma {:induction false} SkipTwo(w: bv64, v: bv64, n: nat)
    requires w != 0 && Skipped(w, v, n) && v & 3 == 0
    ensures Skipped(w, v >> 2, n + 2)
  {
    ShiftTwo(v);
    SkipStep(w, v, n);
    SkipStep(w, v >> 1, n + 1);
  }

  lemma {:induction false} ShiftFour(v: bv64)
    requires v & 0xF == 0
    ensures v & 3 == 0 && (v >> 2) & 3 == 0 && (v >> 2) >> 2 == v >> 4
  {
  }

  lemma {:induction false} SkipFour(w: bv64, v: bv64, n: nat)
    requires w != 0 && Skipped(w, v, n) && v & 0xF == 0
    ensures Skipped(w, v >> 4, n + 4)
  {
    ShiftFour(v);
    SkipTwo(w, v, n);
    SkipTwo(w, v >> 2, n + 2);
  }

  lemma {:induction false} ShiftByte(v: bv64)
    requires v & 0xFF == 0
    ensures v & 0xF == 0 && (v >> 4) & 0xF == 0 && (v >> 4) >> 4 == v >> 8
  {
  }

  lemma {:induction false} SkipByte(w: bv64, v: bv64, n: nat)
    requires w != 0 && Skipped(w, v, n) && v & 0xFF == 0
    ensures Skipped(w, v >> 8, n + 8)
  {
    ShiftByte(v);
    SkipFour(w, v, n);
    SkipFour(w, v >> 4, n + 4);
  }

  method SkipZeroBytes(w: bv64, current: int) returns (val: bv64, next: int, ghost n: nat)
    requires w != 0
    ensures next == current + n && Skipped(w, val, n)
    ensures val & 0xFF != 0
  {
    val, next, n := w, current, 0;
    while val & 0xFF == 0
      invariant next == current + n && Skipped(w, val, n)
      decreases DATA_BITS - n
    {
      SkipByte(w, val, n);
      val := val >> 8;
      next := next + 8;
      n := n + 8;
    }
  }

  method SkipZeroBits(w: bv64, start: bv64, current: int, ghost n0: nat) returns (val: bv64, next: int, ghost n: nat)
    requires w != 0 && Skipped(w, start, n0)
    ensures n >= n0 && next == current + (n - n0) && Skipped(w, val, n)
    ensures val & 1 != 0
  {
    val, next, n := start, current, n0;
    while val & 1 == 0
      invariant n >= n0 && next == current + (n - n0) && Skipped(w, val, n)
      decreases DATA_BITS - n
    {
      SkipStep(w, val, n);
      val := val >> 1;
      next := next + 1;
      n := n + 1;
    }
  }

  /** Together they advance to the lowest bit that is set. */
  method SkipZeros(w: bv64, current: int) returns (next: int)
    requires w != 0
    ensures current <= next < current + DATA_BITS
    ensures Bit(w, next - current)
    ensures forall k :: 0 <= k < next - current ==> !Bit(w, k)
  {
    var val;
    ghost var n;
    val, next, n := SkipZeroBytes(w, current);
    val, next, n := SkipZeroBits(w, val, next, n);
    BitIsShifted(w, n);
  }
}

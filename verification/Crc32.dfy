/** The CRC of MPEG-2 sections (Annex A of ISO/IEC 13818-1).

    A 32-bit word is the sequence of its bits, least significant first, so that bit `e` is
    the coefficient of x^e.
 */
module Crc32 {
  import opened Prelude

  type Word = w: seq<bool> | |w| == 32 witness seq(32, i => false)

  function Filled(bit: bool): (w: Word)
    ensures forall e :: 0 <= e < 32 ==> w[e] == bit
  {
    seq(32, i => bit)
  }

  const ZERO: Word := Filled(false)
  const ONES: Word := Filled(true)

  /** 0x04C1_1DB7. */
  const POLYNOMIAL: Word :=
    [ true, true, true, false, true, true, false, true,
      true, false, true, true, true, false, false, false,
      true, false, false, false, false, false, true, true,
      false, false, true, false, false, false, false, false ]

  function Xor(a: Word, b: Word): (c: Word)
    ensures forall e :: 0 <= e < 32 ==> c[e] == (a[e] != b[e])
  {
    seq(32, e requires 0 <= e < 32 => a[e] != b[e])
  }

  /** `w << n`. */
  function ShiftLeft(w: Word, n: nat): (c: Word)
    ensures forall e :: 0 <= e < 32 ==> c[e] == (n <= e && w[e - n])
  {
    seq(32, e requires 0 <= e < 32 => n <= e && w[e - n])
  }

  /** The `k` low bits of a number, least significant first. */
  function BitsOf(n: nat, k: nat): (bits: seq<bool>)
    ensures |bits| == k
  {
    if k == 0 then [] else [n % 2 == 1] + BitsOf(n / 2, k - 1)
  }

  function NumberOf(bits: seq<bool>): (n: nat)
    ensures n < PowerOfTwo(|bits|)
  {
    if bits == [] then 0 else (if bits[0] then 1 else 0) + 2 * NumberOf(bits[1..])
  }

  function PowerOfTwo(k: nat): nat {
    if k == 0 then 1 else 2 * PowerOfTwo(k - 1)
  }

  function ByteOf(bits: seq<bool>): u8
    requires |bits| == 8
  {
    assert PowerOfTwo(8) == 0x100;
    NumberOf(bits)
  }

  lemma {:induction false} NumberOfBits(bits: seq<bool>)
    ensures BitsOf(NumberOf(bits), |bits|) == bits
  {
    if bits != [] {
      NumberOfBits(bits[1..]);
    }
  }

  lemma {:induction false} BitsOfNumber(n: nat, k: nat)
    requires n < PowerOfTwo(k)
    ensures NumberOf(BitsOf(n, k)) == n
  {
    if k != 0 {
      BitsOfNumber(n / 2, k - 1);
      assert BitsOf(n, k)[1..] == BitsOf(n / 2, k - 1);
    }
  }

  /** `byte as u32`. */
  function Widen(b: u8): (w: Word) {
    BitsOf(b, 8) + seq(24, i => false)
  }

  /** `crc.to_be_bytes()`. */
  function BigEndian(w: Word): (b: Bytes)
    ensures |b| == 4
  {
    [ByteOf(w[24..]), ByteOf(w[16..24]), ByteOf(w[8..16]), ByteOf(w[..8])]
  }

  /** One turn of the inner loop. */
  function Turn(crc: Word): Word {
    if crc[31] then Xor(ShiftLeft(crc, 1), POLYNOMIAL) else ShiftLeft(crc, 1)
  }

  function Turns(crc: Word, n: nat): Word
    decreases n, crc
  {
    if n == 0 then crc else Turns(Turn(crc), n - 1)
  }

  function Absorb(crc: Word, b: u8): Word {
    Turns(Xor(crc, ShiftLeft(Widen(b), 24)), 8)
  }

  function Fold(f: (Word, u8) -> Word, crc: Word, bytes: Bytes): Word
    decreases |bytes|, f
  {
    if bytes == [] then crc else f(Fold(f, crc, bytes[..|bytes| - 1]), bytes[|bytes| - 1])
  }

  /** The loop over the bytes. */
  function Feed(crc: Word, bytes: Bytes): Word {
    Fold(Absorb, crc, bytes)
  }

  lemma {:induction false} TurnsSnoc(crc: Word, n: nat)
    ensures Turns(crc, n + 1) == Turn(Turns(crc, n))
    decreases n
  {
    hide Turn;
    if n != 0 {
      TurnsSnoc(Turn(crc), n - 1);
    }
  }

  method MpegCrc32(bytes: Bytes) returns (crc: Word)
    ensures crc == Feed(ONES, bytes)
  {
    hide Widen, ShiftLeft, Xor;
    crc := ONES;
    for i := 0 to |bytes|
      invariant crc == Feed(ONES, bytes[..i])
    {
      ghost var before := crc;
      crc := Xor(crc, ShiftLeft(Widen(bytes[i]), 24));
      ghost var mixed := crc;
      for j := 0 to 8
        invariant crc == Turns(mixed, j)
      {
        TurnsSnoc(mixed, j);
        if crc[31] {
          crc := Xor(ShiftLeft(crc, 1), POLYNOMIAL);
        } else {
          crc := ShiftLeft(crc, 1);
        }
      }
      assert bytes[..i + 1][..i] == bytes[..i];
    }
    assert bytes[..|bytes|] == bytes;
  }

  // ---------------------------------------------------------------------------
  // Bit by bit
  // ---------------------------------------------------------------------------

  /** The bits of a message in the order the register takes them in. */
  function MessageBits(bytes: Bytes): (bits: seq<bool>)
    ensures |bits| == 8 * |bytes|
  {
    if bytes == [] then []
    else MessageBits(bytes[..|bytes| - 1]) + Reverse(BitsOf(bytes[|bytes| - 1], 8))
  }

  function Reverse(s: seq<bool>): (r: seq<bool>)
    ensures |r| == |s| && forall i :: 0 <= i < |s| ==> r[i] == s[|s| - 1 - i]
  {
    seq(|s|, i requires 0 <= i < |s| => s[|s| - 1 - i])
  }

  /** A word with the given bits at its top, the first one highest. */
  function Top(bits: seq<bool>): (w: Word)
    requires |bits| <= 32
    ensures forall e :: 0 <= e < 32 ==> w[e] == (31 - e < |bits| && bits[31 - e])
  {
    seq(32, e requires 0 <= e < 32 => 31 - e < |bits| && bits[31 - e])
  }

  function BitStep(crc: Word, bit: bool): Word {
    Turn(Xor(crc, Top([bit])))
  }

  function BitSteps(crc: Word, bits: seq<bool>): Word
    decreases |bits|
  {
    if bits == [] then crc else BitSteps(BitStep(crc, bits[0]), bits[1..])
  }

  lemma {:induction false} BitStepsAppend(crc: Word, a: seq<bool>, b: seq<bool>)
    ensures BitSteps(crc, a + b) == BitSteps(BitSteps(crc, a), b)
    decreases |a|
  {
    if a == [] {
      assert a + b == b;
    } else {
      assert (a + b)[1..] == a[1..] + b;
      BitStepsAppend(BitStep(crc, a[0]), a[1..], b);
    }
  }

  lemma SameBits(a: Word, b: Word)
    requires forall e :: 0 <= e < 32 ==> a[e] == b[e]
    ensures a == b
  {
  }

  lemma TurnBit(crc: Word, e: nat)
    requires e < 32
    ensures Turn(crc)[e] == ((1 <= e && crc[e - 1]) != (crc[31] && POLYNOMIAL[e]))
  {
  }

  lemma {:induction false} TurnXorTop(crc: Word, bits: seq<bool>)
    requires 1 <= |bits| <= 32
    ensures Turn(Xor(crc, Top(bits))) == Xor(BitStep(crc, bits[0]), Top(bits[1..]))
  {
    var l, r := Turn(Xor(crc, Top(bits))), Xor(BitStep(crc, bits[0]), Top(bits[1..]));
    forall e | 0 <= e < 32
      ensures l[e] == r[e]
    {
      TurnBit(Xor(crc, Top(bits)), e);
      TurnBit(Xor(crc, Top([bits[0]])), e);
    }
    SameBits(l, r);
  }

  /** Mixing up to 32 bits in at once and turning as often is taking them in one by one. */
  lemma {:induction false} TurnsAreBitSteps(crc: Word, bits: seq<bool>)
    requires |bits| <= 32
    ensures Turns(Xor(crc, Top(bits)), |bits|) == BitSteps(crc, bits)
    decreases |bits|
  {
    hide Turn;
    if bits == [] {
      SameBits(Xor(crc, Top([])), crc);
    } else {
      TurnXorTop(crc, bits);
      TurnsAreBitSteps(BitStep(crc, bits[0]), bits[1..]);
    }
  }

  lemma {:induction false} AbsorbIsBitSteps(crc: Word, b: u8)
    ensures Absorb(crc, b) == BitSteps(crc, Reverse(BitsOf(b, 8)))
  {
    var bits := Reverse(BitsOf(b, 8));
    SameBits(ShiftLeft(Widen(b), 24), Top(bits));
    TurnsAreBitSteps(crc, bits);
  }

  lemma {:induction false} FeedIsBitSteps(crc: Word, bytes: Bytes)
    ensures Feed(crc, bytes) == BitSteps(crc, MessageBits(bytes))
  {
    if bytes != [] {
      var front, last := bytes[..|bytes| - 1], bytes[|bytes| - 1];
      FeedIsBitSteps(crc, front);
      AbsorbIsBitSteps(Feed(crc, front), last);
      BitStepsAppend(crc, MessageBits(front), Reverse(BitsOf(last, 8)));
    }
  }

  lemma {:induction false} MessageBitsAppend(a: Bytes, b: Bytes)
    ensures MessageBits(a + b) == MessageBits(a) + MessageBits(b)
  {
    if b == [] {
      assert a + b == a;
    } else {
      var front := b[..|b| - 1];
      assert (a + b)[..|a + b| - 1] == a + front;
      MessageBitsAppend(a, front);
    }
  }

  // ---------------------------------------------------------------------------
  // The loop divides polynomials over GF(2)
  // ---------------------------------------------------------------------------

  /** A polynomial over GF(2): the exponents whose coefficient is one. */
  type Poly = set<nat>

  function Plus(p: Poly, q: Poly): Poly {
    (p - q) + (q - p)
  }

  function TimesX(p: Poly): Poly {
    set e | e in p :: e + 1
  }

  /** The product of the polynomial with coefficients `q`, highest first, and `p`. */
  function Times(q: seq<bool>, p: Poly): Poly {
    if q == [] then {}
    else Plus(TimesX(Times(q[..|q| - 1], p)), if q[|q| - 1] then p else {})
  }

  function WordPoly(w: Word): Poly {
    set e: nat | e < 32 && w[e]
  }

  /** x^32 + x^26 + x^23 + x^22 + x^16 + x^12 + x^11 + x^10 + x^8 + x^7 + x^5 + x^4 + x^2 + x + 1. */
  const GENERATOR: Poly := {32, 26, 23, 22, 16, 12, 11, 10, 8, 7, 5, 4, 2, 1, 0}

  function Exponents(lo: nat, hi: nat): Poly {
    set e: nat | lo <= e < hi && InRange(lo, e, hi)
  }

  predicate InRange(lo: nat, e: nat, hi: nat) {
    lo <= e < hi
  }

  /** The message times x^32, with the all-ones register added to its first 32 coefficients:
      bit `i` of `n` stands at x^(n - 1 - i + 32). */
  function Dividend(bits: seq<bool>): Poly {
    Plus(Exponents(|bits|, |bits| + 32), set e | e in Exponents(32, |bits| + 32) && Coefficient(bits, e))
  }

  predicate Coefficient(bits: seq<bool>, e: nat) {
    32 <= e < |bits| + 32 && bits[|bits| + 31 - e]
  }

  lemma InTimesX(p: Poly, e: nat)
    ensures e in TimesX(p) <==> 1 <= e && (e - 1) as nat in p
  {
    if 1 <= e && e - 1 in p {
      assert e == (e - 1) + 1;
    }
  }

  lemma InPlus(p: Poly, q: Poly, e: nat)
    ensures e in Plus(p, q) <==> ((e in p) != (e in q))
  {
  }

  lemma InGenerator(e: nat)
    ensures e in GENERATOR <==> e == 32 || (e < 32 && POLYNOMIAL[e])
  {
  }

  lemma InDividend(bits: seq<bool>, e: nat)
    ensures e in Dividend(bits) <==> ((|bits| <= e < |bits| + 32) != (32 <= e < |bits| + 32 && bits[|bits| + 31 - e]))
  {
  }

  function BitAt32(bit: bool): Poly {
    if bit then {32} else {}
  }

  lemma DividendStep(bits: seq<bool>, bit: bool)
    ensures Dividend(bits + [bit]) == Plus(TimesX(Dividend(bits)), BitAt32(bit))
  {
    forall e: nat
      ensures e in Dividend(bits + [bit]) <==> e in Plus(TimesX(Dividend(bits)), BitAt32(bit))
    {
      InDividend(bits + [bit], e);
      InPlus(TimesX(Dividend(bits)), BitAt32(bit), e);
      InTimesX(Dividend(bits), e);
      if 1 <= e {
        InDividend(bits, e - 1);
      }
    }
  }

  /** One bit step multiplies the register by x, adds the bit at x^32 and, when that leaves
      a coefficient at x^32, subtracts the generator. */
  lemma {:induction false} RegisterStep(crc: Word, bit: bool)
    ensures
      Plus(TimesX(WordPoly(crc)), BitAt32(bit))
      == Plus(if crc[31] != bit then GENERATOR else {}, WordPoly(BitStep(crc, bit)))
  {
    var g := if crc[31] != bit then GENERATOR else {};
    var mixed := Xor(crc, Top([bit]));
    forall e: nat
      ensures e in Plus(TimesX(WordPoly(crc)), BitAt32(bit)) <==> e in Plus(g, WordPoly(BitStep(crc, bit)))
    {
      InPlus(TimesX(WordPoly(crc)), BitAt32(bit), e);
      InTimesX(WordPoly(crc), e);
      InPlus(g, WordPoly(BitStep(crc, bit)), e);
      InGenerator(e);
      if e < 32 {
        TurnBit(mixed, e);
      }
    }
  }

  lemma DivisionAlgebra(d: Poly, qg: Poly, r: Poly, b: Poly, g: Poly, r': Poly)
    requires d == Plus(qg, r)
    requires Plus(TimesX(r), b) == Plus(g, r')
    ensures Plus(TimesX(d), b) == Plus(Plus(TimesX(qg), g), r')
  {
    forall e: nat
      ensures e in Plus(TimesX(d), b) <==> e in Plus(Plus(TimesX(qg), g), r')
    {
      InTimesX(d, e);
      InTimesX(qg, e);
      InTimesX(r, e);
      InPlus(TimesX(r), b, e);
      InPlus(g, r', e);
      if 1 <= e {
        InPlus(qg, r, e - 1);
      }
    }
  }

  lemma {:induction false} BitStepsDivide(bits: seq<bool>) returns (quotient: seq<bool>)
    ensures |quotient| == |bits|
    ensures Dividend(bits) == Plus(Times(quotient, GENERATOR), WordPoly(BitSteps(ONES, bits)))
  {
    if bits == [] {
      quotient := [];
    } else {
      var n := |bits| - 1;
      var front, bit := bits[..n], bits[n];
      var q := BitStepsDivide(front);
      var crc := BitSteps(ONES, front);
      assert bits == front + [bit];
      BitStepsAppend(ONES, front, [bit]);
      DividendStep(front, bit);
      RegisterStep(crc, bit);
      var t := crc[31] != bit;
      quotient := q + [t];
      DivisionAlgebra(Dividend(front), Times(q, GENERATOR), WordPoly(crc), BitAt32(bit),
                      if t then GENERATOR else {}, WordPoly(BitStep(crc, bit)));
      assert quotient[..n] == q;
      assert BitSteps(crc, [bit]) == BitStep(crc, bit);
    }
  }

  /** The two nested loops compute the remainder, of degree below 32, of the message (with
      its first 32 bits complemented, and times x^32) on division by the generator. */
  lemma {:induction false} CrcIsRemainder(bytes: Bytes) returns (quotient: seq<bool>)
    ensures Dividend(MessageBits(bytes)) == Plus(Times(quotient, GENERATOR), WordPoly(Feed(ONES, bytes)))
    ensures forall e :: e in WordPoly(Feed(ONES, bytes)) ==> e < 32
  {
    FeedIsBitSteps(ONES, bytes);
    quotient := BitStepsDivide(MessageBits(bytes));
  }

  // ---------------------------------------------------------------------------
  // A section with its CRC appended checks
  // ---------------------------------------------------------------------------

  lemma {:induction false} TurnsOfZero(n: nat)
    ensures Turns(ZERO, n) == ZERO
  {
    if n != 0 {
      SameBits(Turn(ZERO), ZERO);
      TurnsOfZero(n - 1);
    }
  }

  lemma BitsOfBigEndian(w: Word)
    ensures MessageBits(BigEndian(w)) == Reverse(w)
  {
    var b := BigEndian(w);
    NumberOfBits(w[24..]);
    NumberOfBits(w[16..24]);
    NumberOfBits(w[8..16]);
    NumberOfBits(w[..8]);
    assert b[..3] == [b[0], b[1], b[2]] && b[..3][..2] == [b[0], b[1]] && b[..3][..2][..1] == [b[0]];
    assert MessageBits([]) == [];
    assert MessageBits([b[0]]) == Reverse(w[24..]);
    assert MessageBits([b[0], b[1]]) == Reverse(w[24..]) + Reverse(w[16..24]);
    assert MessageBits([b[0], b[1], b[2]]) == Reverse(w[24..]) + Reverse(w[16..24]) + Reverse(w[8..16]);
    assert MessageBits(b) == Reverse(w[24..]) + Reverse(w[16..24]) + Reverse(w[8..16]) + Reverse(w[..8]);
  }

  /** Appending the CRC, most significant byte first, to any message leaves residue zero. */
  lemma {:induction false} CrcChecks(bytes: Bytes)
    ensures Feed(ONES, bytes + BigEndian(Feed(ONES, bytes))) == ZERO
  {
    hide Feed, BitSteps, MessageBits, BigEndian, Turns;
    var crc := Feed(ONES, bytes);
    var tail := BigEndian(crc);
    FeedIsBitSteps(ONES, bytes);
    FeedIsBitSteps(ONES, bytes + tail);
    MessageBitsAppend(bytes, tail);
    BitStepsAppend(ONES, MessageBits(bytes), MessageBits(tail));
    BitsOfBigEndian(crc);
    TurnsAreBitSteps(crc, Reverse(crc));
    SameBits(Xor(crc, Top(Reverse(crc))), ZERO);
    TurnsOfZero(32);
  }

  // ---------------------------------------------------------------------------
  // Bursts are detected
  // ---------------------------------------------------------------------------

  lemma TurnInjective(a: Word, b: Word)
    requires Turn(a) == Turn(b)
    ensures a == b
  {
    hide Turn;
    TurnBit(a, 0);
    TurnBit(b, 0);
    assert a[31] == b[31];
    forall e | 0 <= e < 31
      ensures a[e] == b[e]
    {
      TurnBit(a, e + 1);
      TurnBit(b, e + 1);
    }
    SameBits(a, b);
  }

  lemma {:induction false} TurnsInjective(a: Word, b: Word, n: nat)
    requires Turns(a, n) == Turns(b, n)
    ensures a == b
    decreases n
  {
    hide Turn;
    if n != 0 {
      TurnsInjective(Turn(a), Turn(b), n - 1);
      TurnInjective(a, b);
    }
  }

  lemma XorInjective(a: Word, b: Word, c: Word)
    requires Xor(a, b) == Xor(a, c)
    ensures b == c
  {
    forall e | 0 <= e < 32
      ensures b[e] == c[e]
    {
      assert Xor(a, b)[e] == Xor(a, c)[e];
    }
    SameBits(b, c);
  }

  lemma {:induction false} BitStepsInjective(a: Word, b: Word, bits: seq<bool>)
    requires BitSteps(a, bits) == BitSteps(b, bits)
    ensures a == b
    decreases |bits|
  {
    if bits != [] {
      BitStepsInjective(BitStep(a, bits[0]), BitStep(b, bits[0]), bits[1..]);
      var t := Top([bits[0]]);
      TurnInjective(Xor(a, t), Xor(b, t));
      forall e | 0 <= e < 32
        ensures a[e] == b[e]
      {
        assert Xor(a, t)[e] == Xor(b, t)[e];
      }
      SameBits(a, b);
    }
  }

  lemma ByteBitsInjective(m: u8, n: u8)
    requires BitsOf(m, 8) == BitsOf(n, 8)
    ensures m == n
  {
    assert PowerOfTwo(8) == 0x100;
    BitsOfNumber(m, 8);
    BitsOfNumber(n, 8);
  }

  lemma {:induction false} MessageBitsInjective(a: Bytes, b: Bytes)
    requires |a| == |b| && MessageBits(a) == MessageBits(b)
    ensures a == b
  {
    if a != [] {
      var n := |a| - 1;
      var x, y := Reverse(BitsOf(a[n], 8)), Reverse(BitsOf(b[n], 8));
      assert MessageBits(a)[8 * n..] == x && MessageBits(b)[8 * n..] == y;
      assert MessageBits(a)[..8 * n] == MessageBits(a[..n]) && MessageBits(b)[..8 * n] == MessageBits(b[..n]);
      MessageBitsInjective(a[..n], b[..n]);
      assert Reverse(x) == BitsOf(a[n], 8) && Reverse(y) == BitsOf(b[n], 8);
      ByteBitsInjective(a[n], b[n]);
    }
  }

  /** Two messages that differ only inside four consecutive bytes have different CRCs. */
  lemma {:induction false} BurstDetected(head: Bytes, a: Bytes, b: Bytes, tail: Bytes)
    requires |a| == |b| <= 4 && a != b
    ensures Feed(ONES, head + a + tail) != Feed(ONES, head + b + tail)
  {
    hide Feed, BitSteps, MessageBits, Turns;
    if Feed(ONES, head + a + tail) == Feed(ONES, head + b + tail) {
      var crc := Feed(ONES, head);
      FeedIsBitSteps(ONES, head);
      FeedInParts(head, a, tail);
      FeedInParts(head, b, tail);
      BitStepsInjective(BitSteps(crc, MessageBits(a)), BitSteps(crc, MessageBits(b)), MessageBits(tail));
      TurnsAreBitSteps(crc, MessageBits(a));
      TurnsAreBitSteps(crc, MessageBits(b));
      TurnsInjective(Xor(crc, Top(MessageBits(a))), Xor(crc, Top(MessageBits(b))), 8 * |a|);
      XorInjective(crc, Top(MessageBits(a)), Top(MessageBits(b)));
      forall i | 0 <= i < 8 * |a|
        ensures MessageBits(a)[i] == MessageBits(b)[i]
      {
        assert Top(MessageBits(a))[31 - i] == Top(MessageBits(b))[31 - i];
      }
      MessageBitsInjective(a, b);
    }
  }

  lemma {:induction false} FeedInParts(head: Bytes, mid: Bytes, tail: Bytes)
    ensures Feed(ONES, head + mid + tail)
         == BitSteps(BitSteps(Feed(ONES, head), MessageBits(mid)), MessageBits(tail))
  {
    FeedIsBitSteps(ONES, head);
    FeedIsBitSteps(ONES, head + mid + tail);
    MessageBitsAppend(head + mid, tail);
    MessageBitsAppend(head, mid);
    BitStepsAppend(ONES, MessageBits(head) + MessageBits(mid), MessageBits(tail));
    BitStepsAppend(ONES, MessageBits(head), MessageBits(mid));
  }
}

/**
 What the checksum is, after section 3.4 of RFC 2083: the message, read as a polynomial over bits
 with every byte's low bit first and its first 32 bits complemented, leaves the checksum's
 complement as remainder of the division by the generator. Here a polynomial is the natural
 number whose bit e says whether the power e occurs.
 */
module CrcPolynomial {
  import opened Crc32

  /** x^32 + x^26 + x^23 + x^22 + x^16 + x^12 + x^11 + x^10 + x^8 + x^7 + x^5 + x^4 + x^2 + x + 1 */
  function Generator(): nat {
    Pow2(32) + Pow2(26) + Pow2(23) + Pow2(22) + Pow2(16) + Pow2(12) + Pow2(11) + Pow2(10)
    + Pow2(8) + Pow2(7) + Pow2(5) + Pow2(4) + Pow2(2) + Pow2(1) + Pow2(0)
  }

  type Bit = b: nat | b < 2

  /** The message's bits as they are sent: the low bit of a byte comes first. */
  function BitsOf(b: nat, n: nat): seq<Bit> {
    if n == 0 then [] else [b % 2] + BitsOf(b / 2, n - 1)
  }

  function Bits(bytes: seq<Byte>): seq<Bit> {
    if bytes == [] then [] else Bits(bytes[..|bytes| - 1]) + BitsOf(bytes[|bytes| - 1], 8)
  }

  /** The first bit belongs to the highest power. */
  function Polynomial(bits: seq<Bit>): nat {
    if bits == [] then 0 else 2 * Polynomial(bits[..|bits| - 1]) + bits[|bits| - 1]
  }

  function If(bit: nat, g: nat): nat {
    if bit == 1 then g else 0
  }

  /** The product of polynomials. */
  function Times(q: nat, g: nat): nat {
    if q == 0 then 0 else Xor(2 * Times(q / 2, g), If(q % 2, g))
  }

  /** p is r beside a multiple of the generator. */
  ghost predicate Leaves(p: nat, r: nat) {
    exists q: nat :: p == Xor(Times(q, Generator()), r)
  }

  /** r is what division by the generator leaves of p. */
  ghost predicate IsRemainder(p: nat, r: nat) {
    r < Pow2(32) && Leaves(p, r)
  }

  /** The message times x^32, with its first 32 bits complemented. */
  function Dividend(bits: seq<Bit>): nat {
    Xor(Pow2(32) * Polynomial(bits), Pow2(|bits|) * (Pow2(32) - 1))
  }

  /** The low n bits in reverse: the checksum's lowest bit belongs to the highest power. */
  function Reversed(c: nat, n: nat): nat {
    if n == 0 then 0 else If(c % 2, Pow2(n - 1)) + Reversed(c / 2, n - 1)
  }

  // ----- the generator

  const LOW := 0x04c1_1db7

  lemma GeneratorValue()
    ensures Generator() == Pow2(32) + LOW
  {
    SmallPowers();
    Pow2Split(16, 6);
    Pow2Split(16, 7);
    Pow2Split(16, 10);
    hide Pow2;
  }

  lemma SmallPowers()
    ensures Pow2(0) == 1 && Pow2(1) == 2 && Pow2(2) == 4 && Pow2(4) == 16 && Pow2(5) == 32 && Pow2(6) == 64
    ensures Pow2(7) == 128 && Pow2(8) == 256 && Pow2(10) == 1024 && Pow2(11) == 2048 && Pow2(12) == 4096
    ensures Pow2(16) == 65536
  {
    assert Pow2(8) == 256;
    assert Pow2(12) == 16 * Pow2(8);
  }

  lemma GeneratorReversed()
    ensures Reversed(POLYNOMIAL, 32) == LOW
  {
    LargePowers();
    Nibbles();
    hide Pow2, Reversed;
    Nibble(0xedb88320, 28);
    Nibble(0xedb8832, 24);
    Nibble(0xedb883, 20);
    Nibble(0xedb88, 16);
    Nibble(0xedb8, 12);
    Nibble(0xedb, 8);
    Nibble(0xed, 4);
    Nibble(0xe, 0);
    NoBits(0);
  }

  lemma LargePowers()
    ensures Pow2(0) == 1 && Pow2(4) == 0x10 && Pow2(8) == 0x100 && Pow2(12) == 0x1000 && Pow2(16) == 0x1_0000
    ensures Pow2(20) == 0x10_0000 && Pow2(24) == 0x100_0000 && Pow2(28) == 0x1000_0000
  {
    SmallPowers();
    Pow2Split(16, 4);
    Pow2Split(16, 8);
    Pow2Split(16, 12);
    hide Pow2;
  }

  lemma Nibbles()
    ensures Reversed(0x0, 4) == 0x0
    ensures Reversed(0x2, 4) == 0x4
    ensures Reversed(0x3, 4) == 0xc
    ensures Reversed(0x8, 4) == 0x1
    ensures Reversed(0xb, 4) == 0xd
    ensures Reversed(0xd, 4) == 0xb
    ensures Reversed(0xe, 4) == 0x7
  {
    SmallPowers();
  }

  /** Four bits at a time. */
  lemma Nibble(c: nat, n: nat)
    ensures Reversed(c, n + 4) == Reversed(c % 16, 4) * Pow2(n) + Reversed(c / 16, n)
  {
    hide Pow2, Reversed;
    Doublings(n);
    FourSteps(c, n);
    LowNibble(c);
    Weights(c % 2, c / 2 % 2, c / 4 % 2, c / 8 % 2, Pow2(n));
  }

  lemma Doublings(n: nat)
    ensures Pow2(n + 1) == 2 * Pow2(n) && Pow2(n + 2) == 4 * Pow2(n) && Pow2(n + 3) == 8 * Pow2(n)
  {
  }

  lemma LowNibble(c: nat)
    ensures Reversed(c % 16, 4) == If(c % 2, 8) + If(c / 2 % 2, 4) + If(c / 4 % 2, 2) + If(c / 8 % 2, 1)
  {
    hide Pow2, Reversed;
    SmallPowers();
    Doublings(0);
    NibbleBits(c / 16, c % 16);
    FourSteps(c % 16, 0);
    NoBits(c % 16 / 16);
  }

  lemma NibbleBits(h: nat, r: nat)
    requires r < 16
    ensures var c := 16 * h + r;
      c % 2 == r % 2 && c / 2 % 2 == r / 2 % 2 && c / 4 % 2 == r / 4 % 2 && c / 8 % 2 == r / 8 % 2
  {
    LowBitOf(8 * h + r / 2, r % 2);
    LowBitOf(4 * h + r / 4, r / 2 % 2);
    LowBitOf(2 * h + r / 8, r / 4 % 2);
    LowBitOf(h, r / 8);
  }

  lemma LowBitOf(a: nat, b: nat)
    requires b < 2
    ensures (2 * a + b) / 2 == a && (2 * a + b) % 2 == b
  {
  }

  lemma NoBits(c: nat)
    ensures Reversed(c, 0) == 0
  {
  }

  lemma Weights(a: nat, b: nat, c: nat, d: nat, p: nat)
    ensures If(a, 8 * p) + If(b, 4 * p) + If(c, 2 * p) + If(d, p)
         == (If(a, 8) + If(b, 4) + If(c, 2) + If(d, 1)) * p
  {
  }

  lemma FourSteps(c: nat, n: nat)
    ensures Reversed(c, n + 4) == If(c % 2, Pow2(n + 3)) + If(c / 2 % 2, Pow2(n + 2))
      + If(c / 4 % 2, Pow2(n + 1)) + If(c / 8 % 2, Pow2(n)) + Reversed(c / 16, n)
  {
    hide Pow2, Reversed;
    TopStep(c, n + 3);
    TopStep(c / 2, n + 2);
    TopStep(c / 4, n + 1);
    TopStep(c / 8, n);
  }

  // ----- exclusive-or and doubling

  lemma XorDoubles(a: nat, b: nat)
    ensures Xor(2 * a, 2 * b) == 2 * Xor(a, b)
  {
  }

  lemma TimesStep(q: nat, t: nat, g: nat)
    requires t < 2
    ensures Times(2 * q + t, g) == Xor(2 * Times(q, g), If(t, g))
  {
    if q == 0 && t == 0 {
      XorZero(0);
    }
  }

  lemma {:induction false} ReversedBounded(c: nat, n: nat)
    ensures Reversed(c, n) < Pow2(n)
  {
    if n > 0 {
      ReversedBounded(c / 2, n - 1);
      assert Pow2(n) == 2 * Pow2(n - 1);
      hide Pow2;
    }
  }

  lemma {:induction false} ReversedXor(a: nat, b: nat, n: nat)
    ensures Reversed(Xor(a, b), n) == Xor(Reversed(a, n), Reversed(b, n))
    decreases n
  {
    hide Xor, Pow2, Reversed;
    if n > 0 {
      ReversedXor(a / 2, b / 2, n - 1);
      XorHalves(a, b);
      ReversedBounded(a / 2, n - 1);
      ReversedBounded(b / 2, n - 1);
      TopStep(a, n - 1);
      TopStep(b, n - 1);
      TopStep(Xor(a, b), n - 1);
      TopBits(Reversed(a / 2, n - 1), Reversed(b / 2, n - 1), a % 2, b % 2, n - 1);
    } else {
      NoBits(a);
      NoBits(b);
      NoBits(Xor(a, b));
      XorZero(0);
    }
  }

  /** Exclusive-or of two numbers with a top bit each. */
  lemma TopBits(u: nat, v: nat, s: nat, t: nat, n: nat)
    requires u < Pow2(n) && v < Pow2(n) && s < 2 && t < 2
    ensures Xor(If(s, Pow2(n)) + u, If(t, Pow2(n)) + v) == If(if s != t then 1 else 0, Pow2(n)) + Xor(u, v)
  {
    hide Xor, Pow2;
    var p, x := Pow2(n), if s != t then 1 else 0;
    TopBit(u, s, n);
    TopBit(v, t, n);
    XorExchange(u, If(s, p), v, If(t, p));
    LowTerms(s, t, p);
    XorBounded(u, v, n);
    TopBit(Xor(u, v), x, n);
  }

  lemma TopBit(u: nat, s: nat, n: nat)
    requires u < Pow2(n) && s < 2
    ensures Xor(u, If(s, Pow2(n))) == If(s, Pow2(n)) + u
  {
    hide Xor, Pow2;
    XorDisjoint(u, s, n);
    assert Pow2(n) * s == If(s, Pow2(n));
  }

  /** The last of n bits in reverse is the first one. */
  lemma {:induction false} ReversedSmall(c: nat, n: nat)
    requires c < Pow2(n)
    ensures Reversed(c, n + 1) == 2 * Reversed(c, n)
  {
    if n > 0 {
      ReversedSmall(c / 2, n - 1);
    }
  }

  /** Doubling the reverse of a word is the reverse of its shift, with the generator for a bit that falls out. */
  lemma ShiftDivides(c: Word)
    ensures 2 * Reversed(c, 32) == Xor(Reversed(Shift(c), 32), If(c % 2, Generator()))
  {
    var half := Reversed(c / 2, 32);
    DoubleReversed(c);
    ReversedBounded(c / 2, 32);
    GeneratorValue();
    if c % 2 == 1 {
      ShiftOdd(c);
      hide Reversed, Pow2, Generator, Shift, Xor;
      GeneratorFalls(half);
    } else {
      XorZero(half);
      hide Reversed, Pow2, Generator, Xor;
    }
  }

  lemma ShiftOdd(c: Word)
    requires c % 2 == 1
    ensures Reversed(Shift(c), 32) == Xor(Reversed(c / 2, 32), LOW)
  {
    GeneratorReversed();
    hide Reversed, Xor;
    ReversedXor(c / 2, POLYNOMIAL, 32);
  }

  lemma DoubleReversed(c: Word)
    ensures 2 * Reversed(c, 32) == If(c % 2, Pow2(32)) + Reversed(c / 2, 32)
  {
    Pow2Of32();
    hide Pow2;
    ReversedSmall(c / 2, 31);
    TopStep(c, 31);
  }

  lemma TopStep(c: nat, n: nat)
    ensures Reversed(c, n + 1) == If(c % 2, Pow2(n)) + Reversed(c / 2, n)
  {
    hide Pow2;
  }

  lemma GeneratorFalls(half: nat)
    requires half < Pow2(32)
    ensures Xor(Xor(half, LOW), Pow2(32) + LOW) == Pow2(32) + half
  {
    Pow2Of32();
    hide Pow2, Xor;
    XorBounded(half, LOW, 32);
    TopBits(Xor(half, LOW), LOW, 0, 1, 32);
    XorAssociative(half, LOW, LOW);
    XorSelf(LOW);
    XorZero(half);
  }

  // ----- one bit of the message

  function FeedBit(c: Word, b: Bit): Word {
    Shift(XorWord(c, b))
  }

  function FeedBits(c: Word, bits: seq<Bit>): Word {
    if bits == [] then c else FeedBit(FeedBits(c, bits[..|bits| - 1]), bits[|bits| - 1])
  }

  /** Each bit keeps the state the remainder of what was fed. */
  lemma {:induction false} FedRemainder(bits: seq<Bit>)
    ensures IsRemainder(Dividend(bits), Reversed(FeedBits(ALL_ONES, bits), 32))
  {
    ReversedBounded(FeedBits(ALL_ONES, bits), 32);
    if bits == [] {
      NothingDivided();
    } else {
      hide Reversed, Pow2, Times, Xor, FeedBit;
      var before, b := bits[..|bits| - 1], bits[|bits| - 1];
      FedRemainder(before);
      var q: nat :| Dividend(before) == Xor(Times(q, Generator()), Reversed(FeedBits(ALL_ONES, before), 32));
      DividendStep(before, b);
      assert bits == before + [b];
      hide Dividend, Reversed, Generator, Pow2, Times, Xor, FeedBit;
      BitDivides(FeedBits(ALL_ONES, before), b, q, Dividend(before), 32);
    }
  }

  lemma NothingDivided()
    ensures IsRemainder(Dividend([]), Reversed(FeedBits(ALL_ONES, []), 32))
  {
    AllOnesReversed();
    NothingFed();
    hide Pow2, Reversed, Generator, Xor, Times, Dividend;
    assert FeedBits(ALL_ONES, []) == ALL_ONES;
  }

  lemma NothingFed()
    ensures Dividend([]) == Xor(Times(0, Generator()), Pow2(32) - 1)
  {
    hide Pow2, Xor, Generator;
    assert Pow2(0) == 1 by { SmallPowers(); }
    assert Times(0, Generator()) == 0;
  }

  lemma AllOnesReversed()
    ensures Reversed(ALL_ONES, 32) == Pow2(32) - 1
  {
    Pow2Of32();
    OnesReversed(32);
    hide Pow2, Reversed;
    assert ALL_ONES == Pow2(32) - 1;
  }

  lemma {:induction false} OnesReversed(n: nat)
    ensures Reversed(Pow2(n) - 1, n) == Pow2(n) - 1
  {
    if n > 0 {
      OnesReversed(n - 1);
      assert Pow2(n) == 2 * Pow2(n - 1);
      hide Pow2;
      assert (Pow2(n) - 1) / 2 == Pow2(n - 1) - 1 && (Pow2(n) - 1) % 2 == 1;
    }
  }

  lemma DividendStep(bits: seq<Bit>, b: Bit)
    ensures Dividend(bits + [b]) == Xor(2 * Dividend(bits), b * Pow2(32))
  {
    var m, n := Polynomial(bits), |bits|;
    assert (bits + [b])[..n] == bits;
    assert Polynomial(bits + [b]) == 2 * m + b;
    assert Pow2(n + 1) == 2 * Pow2(n);
    LowBit(m, b);
    hide Polynomial, Pow2, Xor;
    StepOf(Pow2(32), m, b, Pow2(n), Pow2(32) - 1);
  }

  lemma StepOf(p: nat, m: nat, b: nat, k: nat, ones: nat)
    requires p * (2 * m + b) == Xor(2 * (p * m), b * p)
    ensures Xor(p * (2 * m + b), (2 * k) * ones) == Xor(2 * Xor(p * m, k * ones), b * p)
  {
    hide Xor;
    TwiceAs(k, ones);
    Dividends(p * m, b * p, k * ones);
  }

  lemma TwiceAs(a: nat, b: nat)
    ensures (2 * a) * b == 2 * (a * b)
  {
  }

  lemma LowBit(m: nat, b: Bit)
    ensures Pow2(32) * (2 * m + b) == Xor(2 * (Pow2(32) * m), b * Pow2(32))
  {
    BelowEven(m, b);
    hide Pow2, Xor;
    ShiftedXor(b, 2 * m, 32);
    Commuted(Pow2(32), m, b);
    XorSymmetric(b * Pow2(32), 2 * (Pow2(32) * m));
  }

  lemma BelowEven(m: nat, b: Bit)
    ensures Xor(b, 2 * m) == 2 * m + b
  {
    assert Pow2(1) == 2;
    hide Pow2;
    XorDisjoint(b, m, 1);
  }

  lemma Commuted(p: nat, m: nat, b: nat)
    ensures p * (2 * m) == 2 * (p * m) && p * b == b * p
  {
  }

  lemma {:induction false} ShiftedXor(a: nat, b: nat, n: nat)
    ensures Xor(Pow2(n) * a, Pow2(n) * b) == Pow2(n) * Xor(a, b)
  {
    if n > 0 {
      ShiftedXor(a, b, n - 1);
      var p := Pow2(n - 1);
      assert Pow2(n) == 2 * p;
      XorDoubles(p * a, p * b);
      hide Pow2, Xor;
      TwiceAs(p, a);
      TwiceAs(p, b);
      TwiceAs(p, Xor(a, b));
    } else {
      assert Pow2(0) == 1;
    }
  }

  lemma Dividends(m: nat, b: nat, ones: nat)
    ensures Xor(Xor(2 * m, b), 2 * ones) == Xor(2 * Xor(m, ones), b)
  {
    XorDoubles(m, ones);
    XorAssociative(2 * m, b, 2 * ones);
    XorSymmetric(b, 2 * ones);
    XorAssociative(2 * m, 2 * ones, b);
  }

  lemma BitDivides(c: Word, b: Bit, q: nat, p: nat, w: nat)
    requires w == 32
    requires p == Xor(Times(q, Generator()), Reversed(c, w))
    ensures Leaves(Xor(2 * p, b * Pow2(w)), Reversed(FeedBit(c, b), w))
  {
    hide Xor, Pow2, Generator, Reversed, FeedBit, Times, If, XorWord;
    var g, d := Generator(), XorWord(c, b);
    var t := d % 2;
    BitTurns(c, b, w);
    TimesStep(q, t, g);
    XorDoubles(Times(q, g), Reversed(c, w));
    Combine(2 * Times(q, g), 2 * Reversed(c, w), b * Pow2(w), Reversed(FeedBit(c, b), w), If(t, g));
    assert Xor(2 * p, b * Pow2(w)) == Xor(Times(2 * q + t, g), Reversed(FeedBit(c, b), w));
  }

  ghost predicate Turns(c: Word, b: Bit, w: nat, g: nat) {
    Xor(2 * Reversed(c, w), b * Pow2(w)) == Xor(Reversed(FeedBit(c, b), w), If(XorWord(c, b) % 2, g))
  }

  lemma BitTurns(c: Word, b: Bit, w: nat)
    requires w == 32
    ensures Turns(c, b, w, Generator())
  {
    hide Xor, Pow2, Generator, Reversed, Shift, If;
    ShiftDivides(XorWord(c, b));
    DoubledXor(c, b, w);
  }

  lemma DoubledXor(c: Word, b: Bit, w: nat)
    requires w == 32
    ensures 2 * Reversed(XorWord(c, b), w) == Xor(2 * Reversed(c, w), b * Pow2(w))
  {
    hide Xor, Pow2, Reversed;
    ReversedXor(c, b, w);
    XorDoubles(Reversed(c, w), Reversed(b, w));
    BitReversed(b);
    TopPower(b);
  }

  lemma TopPower(b: Bit)
    ensures 2 * (b * Pow2(31)) == b * Pow2(32)
  {
    Pow2Of32();
  }

  lemma Combine(t: nat, r: nat, b: nat, next: nat, g: nat)
    requires Xor(r, b) == Xor(next, g)
    ensures Xor(Xor(t, r), b) == Xor(Xor(t, g), next)
  {
    hide Xor;
    XorAssociative(t, r, b);
    XorSymmetric(next, g);
    XorAssociative(t, g, next);
  }

  lemma BitReversed(b: Bit)
    ensures Reversed(b, 32) == b * Pow2(31)
  {
    hide Pow2, Reversed;
    TopStep(b, 31);
    ZeroReversed(31);
    assert b / 2 == 0;
  }

  lemma {:induction false} ZeroReversed(n: nat)
    ensures Reversed(0, n) == 0
  {
    if n > 0 {
      ZeroReversed(n - 1);
    }
  }

  // ----- bytes

  /** A byte's eight shifts take in its bits, the low one first. */
  lemma {:induction false} ShiftsFeed(c: Word, b: nat, n: nat)
    requires b < Pow2(n) && n <= 8
    ensures b < WORD && Shifts(n, XorWord(c, b)) == FeedBits(c, BitsOf(b, n))
    decreases n
  {
    assert Pow2(8) == 256;
    Pow2Monotone(n, 8);
    if n == 0 {
      XorZero(c);
    } else {
      var low, rest := b % 2, b / 2;
      ShiftsFeed(FeedBit(c, low), rest, n - 1);
      FirstBit(c, b);
      ShiftsCompose(n - 1, 1, XorWord(c, b));
      assert Shifts(1, XorWord(c, b)) == Shift(Shifts(0, XorWord(c, b)));
      FeedFirst(c, low, BitsOf(rest, n - 1));
    }
  }

  lemma FirstBit(c: Word, b: Word)
    ensures Shift(XorWord(c, b)) == XorWord(FeedBit(c, b % 2), b / 2)
  {
    var low, high := b % 2, 2 * (b / 2);
    assert low < Pow2(1) && Pow2(1) * (b / 2) == high;
    XorDisjoint(low, b / 2, 1);
    XorAssociative(c, low, high);
    assert XorWord(c, b) == XorWord(XorWord(c, low), high);
    ShiftLinear(XorWord(c, low), high);
    assert Shift(high) == b / 2;
  }

  lemma {:induction false} FeedFirst(c: Word, b: Bit, bits: seq<Bit>)
    ensures FeedBits(c, [b] + bits) == FeedBits(FeedBit(c, b), bits)
    decreases |bits|
  {
    var all := [b] + bits;
    if bits == [] {
      assert all[..0] == [] && FeedBits(c, all[..0]) == c;
    } else {
      FeedFirst(c, b, bits[..|bits| - 1]);
      assert all[..|all| - 1] == [b] + bits[..|bits| - 1];
    }
  }

  lemma {:induction false} FeedAppend(c: Word, a: seq<Bit>, b: seq<Bit>)
    ensures FeedBits(c, a + b) == FeedBits(FeedBits(c, a), b)
    decreases |b|
  {
    if b == [] {
      assert a + b == a;
    } else {
      FeedAppend(c, a, b[..|b| - 1]);
      assert (a + b)[..|a + b| - 1] == a + b[..|b| - 1];
    }
  }

  lemma {:induction false} FeedIsBits(c: Word, bytes: seq<Byte>)
    ensures Feed(c, bytes) == FeedBits(c, Bits(bytes))
  {
    if bytes != [] {
      var before, last := bytes[..|bytes| - 1], bytes[|bytes| - 1];
      FeedIsBits(c, before);
      assert Pow2(8) == 256;
      ShiftsFeed(Feed(c, before), last, 8);
      FeedAppend(c, Bits(before), BitsOf(last, 8));
    }
  }

  // ----- the checksum

  /** The checksum's complement is the remainder of the message. */
  lemma ChecksumIsRemainder(bytes: seq<Byte>)
    ensures IsRemainder(Dividend(Bits(bytes)), Reversed(XorWord(Checksum(bytes), ALL_ONES), 32))
  {
    var c := Feed(ALL_ONES, bytes);
    XorAssociative(c, ALL_ONES, ALL_ONES);
    XorSelf(ALL_ONES);
    XorZero(c);
    FeedIsBits(ALL_ONES, bytes);
    FedRemainder(Bits(bytes));
  }

  lemma {:induction false} TimesLinear(a: nat, b: nat, g: nat)
    ensures Times(Xor(a, b), g) == Xor(Times(a, g), Times(b, g))
    decreases a + b
  {
    if a == 0 {
      XorZero(b);
      XorZero(Times(b, g));
    } else if b == 0 {
      XorZero(a);
      XorZero(Times(a, g));
    } else {
      TimesLinear(a / 2, b / 2, g);
      XorHalves(a, b);
      TimesHalf(a, g);
      TimesHalf(b, g);
      TimesHalf(Xor(a, b), g);
      hide Xor, Times;
      XorDoubles(Times(a / 2, g), Times(b / 2, g));
      XorExchange(2 * Times(a / 2, g), If(a % 2, g), 2 * Times(b / 2, g), If(b % 2, g));
      LowTerms(a % 2, b % 2, g);
    }
  }

  lemma TimesHalf(q: nat, g: nat)
    ensures Times(q, g) == Xor(2 * Times(q / 2, g), If(q % 2, g))
  {
    XorZero(0);
  }

  lemma LowTerms(s: nat, t: nat, g: nat)
    requires s < 2 && t < 2
    ensures Xor(If(s, g), If(t, g)) == If(if s != t then 1 else 0, g)
  {
    XorSelf(g);
    XorZero(g);
    XorZero(0);
    hide Xor;
  }

  lemma {:induction false} TimesLarge(q: nat)
    requires q > 0
    ensures Times(q, Generator()) >= Pow2(32)
  {
    GeneratorValue();
    Pow2Of32();
    var g := Generator();
    TimesHalf(q, g);
    hide Generator;
    if q == 1 {
      XorZero(g);
      assert Times(0, g) == 0;
    } else {
      TimesLarge(q / 2);
      assert Pow2(33) == 2 * Pow2(32);
      hide Pow2, Xor, Times;
      assert If(q % 2, g) <= g;
      XorStaysLarge(If(q % 2, g), 2 * Times(q / 2, g), 33);
      XorSymmetric(If(q % 2, g), 2 * Times(q / 2, g));
    }
  }

  lemma {:induction false} XorStaysLarge(a: nat, b: nat, bits: nat)
    requires a < Pow2(bits) <= b
    ensures Xor(a, b) >= Pow2(bits)
    decreases bits
  {
    if bits > 0 {
      XorStaysLarge(a / 2, b / 2, bits - 1);
    } else {
      XorZero(b);
    }
  }

  /** And there is only one remainder, so this says which checksum it is. */
  lemma RemainderUnique(p: nat, r: nat, s: nat)
    requires IsRemainder(p, r) && IsRemainder(p, s)
    ensures r == s
  {
    var g := Generator();
    var a: nat :| p == Xor(Times(a, g), r);
    var b: nat :| p == Xor(Times(b, g), s);
    XorExchange(Times(a, g), r, Times(b, g), s);
    XorSelf(p);
    TimesLinear(a, b, g);
    XorCancels(Times(Xor(a, b), g), Xor(r, s));
    XorBounded(r, s, 32);
    if Xor(a, b) > 0 {
      TimesLarge(Xor(a, b));
    }
    XorCancels(r, s);
  }
}

/**
 The bitwise CRC-32 of src/drawing-thumbnail.ts.

 A 32-bit word is a natural number below 2^32 and a byte is one below 256; exclusive-or is
 written out bit by bit. `Update` is one pass of the inner loop over eight bits, `Feed` is the
 outer loop over a message.
 */
module Crc32 {

  const WORD := 0x1_0000_0000
  const POLYNOMIAL := 0xedb88320
  const ALL_ONES := 0xffff_ffff

  type Byte = b: int | 0 <= b < 256
  type Word = w: int | 0 <= w < 0x1_0000_0000

  // ----- exclusive-or on naturals

  function Xor(a: nat, b: nat): nat
    decreases a + b
  {
    if a == 0 && b == 0 then 0
    else 2 * Xor(a / 2, b / 2) + (if a % 2 != b % 2 then 1 else 0)
  }

  lemma {:induction false} XorSymmetric(a: nat, b: nat)
    ensures Xor(a, b) == Xor(b, a)
    decreases a + b
  {
    if a != 0 || b != 0 {
      XorSymmetric(a / 2, b / 2);
    }
  }

  lemma {:induction false} XorZero(a: nat)
    ensures Xor(a, 0) == a && Xor(0, a) == a
  {
    if a != 0 {
      XorZero(a / 2);
    }
  }

  lemma {:induction false} XorSelf(a: nat)
    ensures Xor(a, a) == 0
  {
    if a != 0 {
      XorSelf(a / 2);
    }
  }

  lemma {:induction false} XorAssociative(a: nat, b: nat, c: nat)
    ensures Xor(Xor(a, b), c) == Xor(a, Xor(b, c))
    decreases a + b + c
  {
    if a != 0 || b != 0 || c != 0 {
      XorAssociative(a / 2, b / 2, c / 2);
      XorHalves(a, b);
      XorHalves(b, c);
      XorHalves(Xor(a, b), c);
      XorHalves(a, Xor(b, c));
    }
  }

  /** The two ends of an exclusive-or: its low bit and the rest. */
  lemma XorHalves(a: nat, b: nat)
    ensures Xor(a, b) / 2 == Xor(a / 2, b / 2)
    ensures Xor(a, b) % 2 == (if a % 2 != b % 2 then 1 else 0)
  {
  }

  lemma {:induction false} XorBounded(a: nat, b: nat, bits: nat)
    requires a < Pow2(bits) && b < Pow2(bits)
    ensures Xor(a, b) < Pow2(bits)
    decreases bits
  {
    if bits > 0 {
      XorBounded(a / 2, b / 2, bits - 1);
    }
  }

  /** (a ^ b) ^ (c ^ d) == (a ^ c) ^ (b ^ d) */
  lemma XorExchange(a: nat, b: nat, c: nat, d: nat)
    ensures Xor(Xor(a, b), Xor(c, d)) == Xor(Xor(a, c), Xor(b, d))
  {
    XorAssociative(a, b, Xor(c, d));
    XorAssociative(b, c, d);
    XorSymmetric(b, c);
    XorAssociative(c, b, d);
    XorAssociative(a, c, Xor(b, d));
  }

  lemma XorCancels(a: nat, b: nat)
    requires Xor(a, b) == 0
    ensures a == b
  {
    XorAssociative(a, b, b);
    XorSelf(b);
    XorZero(a);
    XorZero(b);
  }

  function Pow2(n: nat): nat
    ensures Pow2(n) > 0
  {
    if n == 0 then 1 else 2 * Pow2(n - 1)
  }

  function XorWord(a: Word, b: Word): (r: Word) {
    assert Pow2(32) == WORD by { Pow2Of32(); }
    XorBounded(a, b, 32);
    Xor(a, b)
  }

  lemma Pow2Of32()
    ensures Pow2(32) == WORD && Pow2(31) == 0x8000_0000 && Pow2(8) == 256
  {
    assert Pow2(8) == 256;
    assert Pow2(16) == 256 * Pow2(8);
    assert Pow2(24) == 256 * Pow2(16);
    assert Pow2(31) == 128 * Pow2(24);
  }

  // ----- one bit, eight bits, one message

  /** `(crc >>> 1) ^ (crc & 1 ? 0xedb88320 : 0)` */
  function Shift(c: Word): Word {
    if c % 2 == 1 then XorWord(c / 2, POLYNOMIAL) else c / 2
  }

  /** The word that shifts to `c`: the polynomial's top bit tells which branch was taken. */
  function Unshift(c: Word): Word {
    if c >= 0x8000_0000 then
      var h := XorWord(c, POLYNOMIAL);
      XorTopBitSet(c, POLYNOMIAL);
      2 * h + 1
    else 2 * c
  }

  function Shifts(n: nat, c: Word): Word {
    if n == 0 then c else Shift(Shifts(n - 1, c))
  }

  function Update(c: Word, b: Byte): Word {
    Shifts(8, XorWord(c, b))
  }

  function Feed(c: Word, bytes: seq<Byte>): Word {
    if bytes == [] then c else Update(Feed(c, bytes[..|bytes| - 1]), bytes[|bytes| - 1])
  }

  function Checksum(bytes: seq<Byte>): Word {
    XorWord(Feed(ALL_ONES, bytes), ALL_ONES)
  }

  /** The loops of `crc32`. */
  method Crc(bytes: seq<Byte>) returns (checksum: Word)
    ensures checksum == Checksum(bytes)
  {
    var crc: Word := ALL_ONES;
    for i := 0 to |bytes|
      invariant crc == Feed(ALL_ONES, bytes[..i])
    {
      crc := XorWord(crc, bytes[i]);
      ghost var mixed := crc;
      for bit := 0 to 8
        invariant crc == Shifts(bit, mixed)
      {
        crc := XorWord(crc / 2, if crc % 2 == 1 then POLYNOMIAL else 0);
        XorZero(Shifts(bit, mixed) / 2);
      }
      assert bytes[..i + 1][..i] == bytes[..i];
    }
    assert bytes[..|bytes|] == bytes;
    checksum := XorWord(crc, ALL_ONES);
  }

  // ----- the top bit

  lemma {:induction false} XorTopBit(a: nat, b: nat, bits: nat)
    requires a < Pow2(bits) && Pow2(bits) <= b < 2 * Pow2(bits)
    ensures Pow2(bits) <= Xor(a, b) < 2 * Pow2(bits)
    decreases bits
  {
    if bits > 0 {
      XorTopBit(a / 2, b / 2, bits - 1);
    } else {
      assert a == 0 && b == 1;
      XorZero(1);
    }
  }

  lemma {:induction false} XorTopBits(a: nat, b: nat, bits: nat)
    requires Pow2(bits) <= a < 2 * Pow2(bits) && Pow2(bits) <= b < 2 * Pow2(bits)
    ensures Xor(a, b) < Pow2(bits)
    decreases bits
  {
    if bits > 0 {
      XorTopBits(a / 2, b / 2, bits - 1);
    } else {
      assert a == 1 && b == 1;
      XorSelf(1);
    }
  }

  lemma XorTopBitSet(a: Word, b: Word)
    requires a >= 0x8000_0000 && b >= 0x8000_0000
    ensures Xor(a, b) < 0x8000_0000
  {
    Pow2Of32();
    XorTopBits(a, b, 31);
  }

  lemma XorTopBitClear(a: Word, b: Word)
    requires a < 0x8000_0000 <= b
    ensures Xor(a, b) >= 0x8000_0000
  {
    Pow2Of32();
    XorTopBit(a, b, 31);
  }

  // ----- bijection

  /** One bit of the loop is a bijection on 32-bit words. */
  lemma ShiftBijective(c: Word)
    ensures Unshift(Shift(c)) == c
    ensures Shift(Unshift(c)) == c
  {
    XorTwice(c / 2, POLYNOMIAL);
    XorTwice(c, POLYNOMIAL);
    if c % 2 == 1 {
      XorTopBitClear(c / 2, POLYNOMIAL);
    }
    if c >= 0x8000_0000 {
      XorTopBitSet(c, POLYNOMIAL);
      assert Unshift(c) / 2 == XorWord(c, POLYNOMIAL);
    }
  }

  lemma XorTwice(a: nat, b: nat)
    ensures Xor(Xor(a, b), b) == a
  {
    XorAssociative(a, b, b);
    XorSelf(b);
    XorZero(a);
  }

  function Unshifts(n: nat, c: Word): Word {
    if n == 0 then c else Unshifts(n - 1, Unshift(c))
  }

  lemma {:induction false} ShiftsBijective(n: nat, c: Word)
    ensures Unshifts(n, Shifts(n, c)) == c
    ensures Shifts(n, Unshifts(n, c)) == c
  {
    if n > 0 {
      ShiftBijective(Shifts(n - 1, c));
      ShiftBijective(c);
      ShiftsBijective(n - 1, c);
      ShiftsBijective(n - 1, Unshift(c));
    }
  }

  /** Feeding a fixed byte is a bijection on the states, with this inverse. */
  function Unupdate(c: Word, b: Byte): Word {
    XorWord(Unshifts(8, c), b)
  }

  lemma UpdateBijective(c: Word, b: Byte)
    ensures Unupdate(Update(c, b), b) == c
    ensures Update(Unupdate(c, b), b) == c
  {
    ShiftsBijective(8, XorWord(c, b));
    ShiftsBijective(8, c);
    XorTwice(c, b);
    XorTwice(Unshifts(8, c), b);
  }

  lemma {:induction false} FeedInjective(c: Word, d: Word, bytes: seq<Byte>)
    requires Feed(c, bytes) == Feed(d, bytes)
    ensures c == d
    decreases |bytes|
  {
    if bytes != [] {
      var b := bytes[|bytes| - 1];
      UpdateBijective(Feed(c, bytes[..|bytes| - 1]), b);
      UpdateBijective(Feed(d, bytes[..|bytes| - 1]), b);
      FeedInjective(c, d, bytes[..|bytes| - 1]);
    }
  }

  // ----- linearity

  lemma ShiftLinear(a: Word, b: Word)
    ensures Shift(XorWord(a, b)) == XorWord(Shift(a), Shift(b))
  {
    XorHalves(a, b);
    var p := if a % 2 == 1 then POLYNOMIAL else 0;
    var q := if b % 2 == 1 then POLYNOMIAL else 0;
    XorZero(a / 2);
    XorZero(b / 2);
    XorZero(XorWord(a, b) / 2);
    XorZero(POLYNOMIAL);
    XorSelf(POLYNOMIAL);
    XorZero(0);
    XorExchange(a / 2, p, b / 2, q);
  }

  lemma {:induction false} ShiftsLinear(n: nat, a: Word, b: Word)
    ensures Shifts(n, XorWord(a, b)) == XorWord(Shifts(n, a), Shifts(n, b))
  {
    if n > 0 {
      ShiftsLinear(n - 1, a, b);
      ShiftLinear(Shifts(n - 1, a), Shifts(n - 1, b));
    }
  }

  lemma UpdateLinear(c: Word, d: Word, a: Byte, b: Byte)
    ensures Update(XorWord(c, d), XorByte(a, b)) == XorWord(Update(c, a), Update(d, b))
  {
    XorExchange(c, d, a, b);
    ShiftsLinear(8, XorWord(c, a), XorWord(d, b));
  }

  function XorByte(a: Byte, b: Byte): (r: Byte) {
    assert Pow2(8) == 256 by { Pow2Of32(); }
    XorBounded(a, b, 8);
    Xor(a, b)
  }

  function XorMessage(a: seq<Byte>, b: seq<Byte>): (r: seq<Byte>)
    requires |a| == |b|
    ensures |r| == |a| && forall i :: 0 <= i < |a| ==> r[i] == XorByte(a[i], b[i])
  {
    seq(|a|, i requires 0 <= i < |a| => XorByte(a[i], b[i]))
  }

  lemma {:induction false} FeedLinear(c: Word, d: Word, a: seq<Byte>, b: seq<Byte>)
    requires |a| == |b|
    ensures Feed(XorWord(c, d), XorMessage(a, b)) == XorWord(Feed(c, a), Feed(d, b))
    decreases |a|
  {
    if a != [] {
      var n := |a| - 1;
      FeedLinear(c, d, a[..n], b[..n]);
      assert XorMessage(a, b)[..n] == XorMessage(a[..n], b[..n]);
      UpdateLinear(Feed(c, a[..n]), Feed(d, b[..n]), a[n], b[n]);
    }
  }

  function Zeros(n: nat): (r: seq<Byte>)
    ensures |r| == n
  {
    seq(n, _ => 0)
  }

  /**
   The checksum is affine: for messages of one length, exclusive-or of messages and of
   checksums agree up to the checksum of the zero message of that length.
   */
  lemma ChecksumAffine(a: seq<Byte>, b: seq<Byte>)
    requires |a| == |b|
    ensures Checksum(XorMessage(a, b)) == XorWord(XorWord(Checksum(a), Checksum(b)), Checksum(Zeros(|a|)))
  {
    var z := Zeros(|a|);
    var fa, fb, fz := Feed(ALL_ONES, a), Feed(ALL_ONES, b), Feed(ALL_ONES, z);
    var ab := XorMessage(a, b);
    XorSelf(ALL_ONES);
    XorZero(ALL_ONES);
    FeedLinear(ALL_ONES, ALL_ONES, a, b);
    FeedLinear(0, ALL_ONES, ab, z);
    assert XorMessage(ab, z) == ab by {
      forall i | 0 <= i < |ab| ensures XorMessage(ab, z)[i] == ab[i] { XorZero(ab[i]); }
    }
    assert Feed(ALL_ONES, ab) == XorWord(XorWord(fa, fb), fz);
    // (fa ^ 1s) ^ (fb ^ 1s) == fa ^ fb, and one mask is left beside fz.
    XorExchange(fa, ALL_ONES, fb, ALL_ONES);
    XorZero(Xor(fa, fb));
    XorAssociative(Xor(fa, fb), fz, ALL_ONES);
  }

  // ----- burst errors

  /** The little-endian number whose bits a short message feeds into the register. */
  function Pattern(d: seq<Byte>): nat {
    if d == [] then 0 else Pattern(d[..|d| - 1]) + Pow2(8 * (|d| - 1)) * d[|d| - 1]
  }

  lemma {:induction false} PatternBounded(d: seq<Byte>)
    ensures Pattern(d) < Pow2(8 * |d|)
  {
    if d != [] {
      var n := |d| - 1;
      PatternBounded(d[..n]);
      PlaceValue(Pow2(8 * n), d[n]);
      Pow2Split(8 * n, 8);
      Pow2Of32();
    }
  }

  lemma PlaceValue(p: nat, digit: Byte)
    ensures p * digit + p <= p * 256
  {
  }

  lemma {:induction false} PatternNonzero(d: seq<Byte>, k: nat)
    requires k < |d| && d[k] != 0
    ensures Pattern(d) != 0
  {
    var n := |d| - 1;
    var p := Pow2(8 * n);
    if k == n {
      assert p * d[n] >= p by { NonzeroDigit(p, d[n]); }
    } else {
      PatternNonzero(d[..n], k);
    }
  }

  lemma NonzeroDigit(p: nat, digit: Byte)
    requires digit != 0
    ensures p * digit >= p
  {
  }

  lemma {:induction false} Pow2Split(a: nat, b: nat)
    ensures Pow2(a + b) == Pow2(a) * Pow2(b)
    decreases b
  {
    if b > 0 {
      Pow2Split(a, b - 1);
    }
  }

  /** Numbers with no bit in common: exclusive-or is addition. */
  lemma {:induction false} XorDisjoint(low: nat, high: nat, bits: nat)
    requires low < Pow2(bits)
    ensures Xor(low, Pow2(bits) * high) == low + Pow2(bits) * high
    decreases bits
  {
    if bits == 0 {
      XorZero(high);
    } else {
      var h := Pow2(bits - 1) * high;
      assert Pow2(bits) * high == 2 * h;
      XorDisjoint(low / 2, high, bits - 1);
      assert (2 * h) / 2 == h && (2 * h) % 2 == 0;
      if low != 0 || h != 0 {
        assert Xor(low, 2 * h) == 2 * Xor(low / 2, h) + (if low % 2 != 0 then 1 else 0);
      }
    }
  }

  /** A word whose low n bits are clear is only shifted by n steps. */
  lemma {:induction false} ShiftsOut(n: nat, high: nat)
    requires Pow2(n) * high < WORD
    ensures Shifts(n, Pow2(n) * high) == high
  {
    if n > 0 {
      assert Pow2(n) * high == Pow2(n - 1) * (2 * high);
      ShiftsOut(n - 1, 2 * high);
    }
  }

  lemma {:induction false} ShiftsCompose(m: nat, n: nat, c: Word)
    ensures Shifts(m, Shifts(n, c)) == Shifts(m + n, c)
  {
    if m > 0 {
      ShiftsCompose(m - 1, n, c);
    }
  }

  /** Up to four bytes fed into a zero register: their pattern, shifted out bit by bit. */
  lemma {:induction false} FeedPattern(d: seq<Byte>)
    requires |d| <= 4
    ensures Pattern(d) < WORD && Feed(0, d) == Shifts(8 * |d|, Pattern(d))
    decreases |d|
  {
    PatternFits(d);
    if d != [] {
      FeedPattern(d[..|d| - 1]);
      FeedPatternStep(d, |d| - 1);
    }
  }

  lemma LastByte(d: seq<Byte>, n: nat)
    requires n + 1 == |d|
    ensures Pattern(d) == Pattern(d[..n]) + Pow2(8 * n) * d[n]
    ensures Feed(0, d) == Update(Feed(0, d[..n]), d[n])
  {
    hide Pow2, Shifts, Xor, XorWord, Update;
  }

  lemma FeedPatternStep(d: seq<Byte>, n: nat)
    requires n + 1 == |d| <= 4
    requires Pattern(d[..n]) < WORD && Feed(0, d[..n]) == Shifts(8 * n, Pattern(d[..n]))
    ensures Pattern(d) < WORD && Feed(0, d) == Shifts(8 * |d|, Pattern(d))
  {
    hide Pow2, Shifts, Xor, XorWord, Update, Pattern, Feed;
    PatternFits(d);
    PatternBounded(d[..n]);
    LastByte(d, n);
    FeedNextByte(n, Pattern(d[..n]), d[n], Pow2(8 * n) * d[n]);
  }

  lemma PatternFits(d: seq<Byte>)
    requires |d| <= 4
    ensures Pattern(d) < WORD
  {
    hide Pattern;
    PatternBounded(d);
    Pow2Monotone(8 * |d|, 32);
    Pow2Of32();
  }

  lemma FeedNextByte(n: nat, low: Word, x: Byte, high: nat)
    requires low < Pow2(8 * n) && high == Pow2(8 * n) * x && low + high < WORD
    ensures Update(Shifts(8 * n, low), x) == Shifts(8 * (n + 1), low + high)
  {
    XorDisjoint(low, x, 8 * n);
    ShiftsOut(8 * n, x);
    ShiftsLinear(8 * n, low, high);
    ShiftsCompose(8, 8 * n, low + high);
  }

  lemma {:induction false} Pow2Monotone(a: nat, b: nat)
    requires a <= b
    ensures Pow2(a) <= Pow2(b)
    decreases b
  {
    if a < b {
      Pow2Monotone(a, b - 1);
    }
  }

  lemma {:induction false} ShiftsOfZero(n: nat)
    ensures Shifts(n, 0) == 0
  {
    if n > 0 {
      ShiftsOfZero(n - 1);
    }
  }

  lemma {:induction false} FeedConcat(c: Word, a: seq<Byte>, b: seq<Byte>)
    ensures Feed(c, a + b) == Feed(Feed(c, a), b)
    decreases |b|
  {
    if b == [] {
      assert a + b == a;
    } else {
      FeedConcat(c, a, b[..|b| - 1]);
      assert (a + b)[..|a + b| - 1] == a + b[..|b| - 1];
    }
  }

  /** Two short messages fed from one state leave different states. */
  lemma ShortBurst(c: Word, a: seq<Byte>, b: seq<Byte>)
    requires |a| == |b| <= 4 && a != b
    ensures Feed(c, a) != Feed(c, b)
  {
    var d := XorMessage(a, b);
    XorSelf(c);
    FeedLinear(c, c, a, b);
    FeedPattern(d);
    var k :| 0 <= k < |a| && a[k] != b[k];
    if d[k] == 0 {
      XorCancels(a[k], b[k]);
      assert false;
    }
    PatternNonzero(d, k);
    ShiftsOfZero(8 * |d|);
    ShiftsBijective(8 * |d|, Pattern(d));
    ShiftsBijective(8 * |d|, 0);
    XorSelf(Feed(c, a));
  }

  lemma ThreeParts(s: seq<Byte>, k: nat, e: nat)
    requires k <= e <= |s|
    ensures s == s[..k] + s[k..e] + s[e..]
  {
  }

  /**
   Two messages of one length, whatever it is, that differ only inside four adjacent bytes
   have different checksums.
   */
  lemma BurstDetected(a: seq<Byte>, b: seq<Byte>, k: nat)
    requires |a| == |b| && a != b && k <= |a|
    requires forall i :: 0 <= i < |a| && (i < k || k + 4 <= i) ==> a[i] == b[i]
    ensures Checksum(a) != Checksum(b)
  {
    var e := if k + 4 <= |a| then k + 4 else |a|;
    ThreeParts(a, k, e);
    ThreeParts(b, k, e);
    assert a[..k] == b[..k] && a[e..] == b[e..];
    var c := Feed(ALL_ONES, a[..k]);
    ShortBurst(c, a[k..e], b[k..e]);
    FeedConcat(ALL_ONES, a[..k], a[k..e]);
    FeedConcat(ALL_ONES, b[..k], b[k..e]);
    FeedConcat(ALL_ONES, a[..k] + a[k..e], a[e..]);
    FeedConcat(ALL_ONES, b[..k] + b[k..e], b[e..]);
    if Feed(ALL_ONES, a) == Feed(ALL_ONES, b) {
      FeedInjective(Feed(c, a[k..e]), Feed(c, b[k..e]), a[e..]);
      assert false;
    }
    XorTwice(Feed(ALL_ONES, a), ALL_ONES);
    XorTwice(Feed(ALL_ONES, b), ALL_ONES);
  }
}

/** Unsigned machine words as natural numbers: bits, masks, shifts and bit reversal.
    A right shift by s is a division by 2^s, a left shift a multiplication. */
module Bits {

  function Pow2(n: nat): (p: nat)
    ensures p > 0
  {
    if n == 0 then 1 else 2 * Pow2(n - 1)
  }

  /** The bit of weight 2^k. */
  predicate Bit(n: nat, k: nat) {
    if k == 0 then n % 2 == 1 else Bit(n / 2, k - 1)
  }

  /** Bitwise conjunction. */
  function And(a: nat, b: nat): nat {
    if a == 0 || b == 0 then 0 else (a % 2) * (b % 2) + 2 * And(a / 2, b / 2)
  }

  /** Bitwise disjunction. */
  function Or(a: nat, b: nat): nat
    decreases a + b
  {
    if a == 0 then b
    else if b == 0 then a
    else (if a % 2 == 1 || b % 2 == 1 then 1 else 0) + 2 * Or(a / 2, b / 2)
  }

  function Shr(n: nat, s: nat): nat {
    if s == 0 then n else Shr(n / 2, s - 1)
  }

  function Shl(n: nat, s: nat): nat {
    n * Pow2(s)
  }

  /** The number whose w bits are the low w bits of n read backwards. */
  function Rev(n: nat, w: nat): (r: nat)
    ensures r < Pow2(w)
  {
    if w == 0 then 0 else (n % 2) * Pow2(w - 1) + Rev(n / 2, w - 1)
  }

  // ---------------------------------------------------------------- powers of two

  lemma {:induction false} Pow2Add(a: nat, b: nat)
    ensures Pow2(a + b) == Pow2(a) * Pow2(b)
  {
    if a > 0 {
      Pow2Add(a - 1, b);
      calc {
        Pow2(a + b);
        2 * Pow2(a - 1 + b);
        2 * (Pow2(a - 1) * Pow2(b));
        (2 * Pow2(a - 1)) * Pow2(b);
      }
    }
  }

  lemma {:induction false} Pow2Mono(a: nat, b: nat)
    requires a <= b
    ensures Pow2(a) <= Pow2(b)
    ensures a < b ==> 2 * Pow2(a) <= Pow2(b)
  {
    Pow2Add(a, b - a);
    if a < b {
      assert Pow2(b - a) >= 2;
      MulMono(2, Pow2(b - a), Pow2(a));
    } else {
      assert Pow2(b - a) == 1;
    }
  }

  lemma Pow2Values()
    ensures Pow2(0) == 1 && Pow2(1) == 2 && Pow2(2) == 4 && Pow2(3) == 8 && Pow2(4) == 16
    ensures Pow2(5) == 32 && Pow2(6) == 64 && Pow2(7) == 128 && Pow2(8) == 256 && Pow2(9) == 512
    ensures Pow2(10) == 1024 && Pow2(11) == 2048 && Pow2(12) == 4096 && Pow2(13) == 8192
    ensures Pow2(14) == 16384 && Pow2(15) == 32768 && Pow2(16) == 65536
  {
    assert Pow2(3) == 8;
    assert Pow2(6) == 64;
    assert Pow2(9) == 512;
    assert Pow2(12) == 4096;
    assert Pow2(15) == 32768;
  }

  lemma MulMono(a: nat, b: nat, c: nat)
    requires a <= b
    ensures a * c <= b * c
  {
    assert (b - a) * c >= 0;
  }

  lemma MoveFactor(a: int, b: int, c: int)
    ensures a * (b * c) == (a * b) * c == b * (a * c)
  {
  }

  lemma MulCancel(a: int, b: int, c: int)
    requires c > 0 && a * c <= b * c
    ensures a <= b
  {
    assert (a - b) * c <= 0;
  }

  /** Quotient and remainder are the only decomposition of their kind. */
  lemma DivModUnique(n: nat, d: nat, q: nat, r: nat)
    requires d > 0 && r < d && n == q * d + r
    ensures n / d == q && n % d == r
  {
    var q', r' := n / d, n % d;
    assert n == q' * d + r';
    assert (q - q') * d == r' - r;
    if q > q' {
      MulMono(1, q - q', d);
    } else if q < q' {
      MulMono(1, q' - q, d);
    }
  }

  lemma DivMod(n: nat, d: nat)
    requires d > 0
    ensures n == (n / d) * d + n % d && 0 <= n % d < d
  {
  }

  /** Two successive divisions are one. */
  lemma DivDiv(n: nat, a: nat, b: nat)
    requires a > 0 && b > 0
    ensures a * b > 0 && n / a / b == n / (a * b)
    ensures n % (a * b) == n % a + a * ((n / a) % b)
  {
    var q, r := n / a, n % a;
    DivMod(n, a);
    DivMod(q, b);
    TwoSteps(n, a, b, q, r, q / b, q % b);
    DivModUnique(n, a * b, q / b, a * (q % b) + r);
  }

  lemma TwoSteps(n: nat, a: nat, b: nat, q: nat, r: nat, q2: nat, r2: nat)
    requires a > 0 && b > 0 && n == q * a + r && r < a && q == q2 * b + r2 && r2 < b
    ensures a * b > 0 && n == q2 * (a * b) + (a * r2 + r) && a * r2 + r < a * b
  {
    MulMono(1, a, b);
    MulMono(r2 + 1, b, a);
    assert (r2 + 1) * a == r2 * a + a;
    assert (q2 * b + r2) * a == (q2 * b) * a + r2 * a;
    MoveFactor(q2, b, a);
  }

  lemma DivLess(n: nat, d: nat, q: nat)
    requires d > 0
    ensures n < q * d <==> n / d < q
  {
    DivMod(n, d);
    if n / d < q {
      MulMono(n / d + 1, q, d);
      assert (n / d + 1) * d == (n / d) * d + d;
    } else {
      MulMono(q, n / d, d);
    }
  }

  // ---------------------------------------------------------------- bits of words

  lemma {:induction false} ShrIsDiv(n: nat, s: nat)
    ensures Shr(n, s) == n / Pow2(s)
  {
    if s > 0 {
      DivDiv(n, 2, Pow2(s - 1));
      ShrIsDiv(n / 2, s - 1);
    }
  }

  lemma {:induction false} BitShr(n: nat, s: nat, k: nat)
    ensures Bit(Shr(n, s), k) == Bit(n, s + k)
  {
    if s > 0 {
      BitShr(n / 2, s - 1, k);
    }
  }

  /** Bit k is the digit of weight 2^k. */
  lemma BitIsDigit(n: nat, k: nat)
    ensures Bit(n, k) <==> n / Pow2(k) % 2 == 1
  {
    ShrIsDiv(n, k);
    BitShr(n, k, 0);
  }

  lemma {:induction false} BitShl(n: nat, s: nat, k: nat)
    ensures Bit(Shl(n, s), k) == (k >= s && Bit(n, k - s))
  {
    if s > 0 {
      assert n * Pow2(s) == 2 * (n * Pow2(s - 1));
      if k > 0 {
        BitShl(n, s - 1, k - 1);
      }
    }
  }

  lemma {:induction false} BitZero(k: nat)
    ensures !Bit(0, k)
  {
    if k > 0 { BitZero(k - 1); }
  }

  lemma {:induction false} BitAnd(a: nat, b: nat, k: nat)
    ensures Bit(And(a, b), k) == (Bit(a, k) && Bit(b, k))
  {
    if a == 0 || b == 0 {
      BitZero(k);
    } else {
      var d := (a % 2) * (b % 2);
      assert d == 1 <==> a % 2 == 1 && b % 2 == 1;
      assert 0 <= d <= 1;
      assert And(a, b) / 2 == And(a / 2, b / 2);
      if k > 0 { BitAnd(a / 2, b / 2, k - 1); }
    }
  }

  lemma {:induction false} BitOr(a: nat, b: nat, k: nat)
    ensures Bit(Or(a, b), k) == (Bit(a, k) || Bit(b, k))
    decreases k
  {
    if a == 0 || b == 0 {
      BitZero(k);
    } else if k > 0 {
      BitOr(a / 2, b / 2, k - 1);
    }
  }

  lemma {:induction false} BitRev(n: nat, w: nat, k: nat)
    ensures Bit(Rev(n, w), k) == (k < w && Bit(n, w - 1 - k))
    decreases w, k
  {
    if w == 0 {
      BitZero(k);
    } else if n % 2 == 0 {
      if k < w - 1 {
        BitRev(n / 2, w - 1, k);
      } else {
        BitRev(n / 2, w - 1, k);
      }
    } else {
      BitTop(Rev(n / 2, w - 1), w - 1, k);
      BitRev(n / 2, w - 1, k);
    }
  }

  /** Adding 2^w to a w-bit number sets bit w and nothing else. */
  lemma {:induction false} BitTop(n: nat, w: nat, k: nat)
    requires n < Pow2(w)
    ensures Bit(Pow2(w) + n, k) == (k == w || Bit(n, k))
  {
    if w == 0 {
      BitZero(k);
      if k > 0 { BitZero(k - 1); }
    } else if k > 0 {
      assert (Pow2(w) + n) / 2 == Pow2(w - 1) + n / 2;
      BitTop(n / 2, w - 1, k - 1);
    }
  }

  /** Words are determined by their bits. */
  lemma {:induction false} SameBits(a: nat, b: nat)
    requires forall k: nat :: Bit(a, k) == Bit(b, k)
    ensures a == b
    decreases a + b
  {
    if a + b > 0 {
      assert Bit(a, 0) == Bit(b, 0);
      forall k: nat
        ensures Bit(a / 2, k) == Bit(b / 2, k)
      {
        assert Bit(a, k + 1) == Bit(b, k + 1);
      }
      SameBits(a / 2, b / 2);
    }
  }

  // ---------------------------------------------------------------- reversal

  /** Reversing reads only the low w bits. */
  lemma RevLow(n: nat, w: nat)
    ensures Rev(n % Pow2(w), w) == Rev(n, w)
  {
    forall k: nat
      ensures Bit(Rev(n % Pow2(w), w), k) == Bit(Rev(n, w), k)
    {
      BitRev(n % Pow2(w), w, k);
      BitRev(n, w, k);
      if k < w { BitMod(n, w, w - 1 - k); }
    }
    SameBits(Rev(n % Pow2(w), w), Rev(n, w));
  }

  lemma {:induction false} BitMod(n: nat, w: nat, k: nat)
    ensures Bit(n % Pow2(w), k) == (k < w && Bit(n, k))
  {
    if w == 0 {
      BitZero(k);
    } else {
      ModStep(n, Pow2(w - 1));
      if k > 0 { BitMod(n / 2, w - 1, k - 1); }
    }
  }

  lemma ModStep(n: nat, p: nat)
    requires p > 0
    ensures n % (2 * p) % 2 == n % 2 && n % (2 * p) / 2 == (n / 2) % p
  {
    DivDiv(n, 2, p);
  }

  /** The top s bits of a reversed word are the reversed low s bits. */
  lemma RevTop(n: nat, w: nat, s: nat)
    requires s <= w
    ensures Shr(Rev(n, w), w - s) == Rev(n, s)
  {
    forall k: nat
      ensures Bit(Shr(Rev(n, w), w - s), k) == Bit(Rev(n, s), k)
    {
      BitShr(Rev(n, w), w - s, k);
      BitRev(n, w, w - s + k);
      BitRev(n, s, k);
    }
    SameBits(Shr(Rev(n, w), w - s), Rev(n, s));
  }

  lemma RevRev(n: nat, w: nat)
    ensures Rev(Rev(n, w), w) == n % Pow2(w)
  {
    forall k: nat
      ensures Bit(Rev(Rev(n, w), w), k) == Bit(n % Pow2(w), k)
    {
      BitRev(Rev(n, w), w, k);
      if k < w { BitRev(n, w, w - 1 - k); }
      BitMod(n, w, k);
    }
    SameBits(Rev(Rev(n, w), w), n % Pow2(w));
  }

  // ---------------------------------------------------------------- stbi__bitreverse16

  /** One butterfly step: the two masked halves trade places by s positions. */
  function SwapStep(n: nat, high: nat, low: nat, s: nat): nat {
    Or(Shr(And(n, high), s), Shl(And(n, low), s))
  }

  function BitReverse16(n: nat): nat {
    var n1 := SwapStep(n, 0xAAAA, 0x5555, 1);
    var n2 := SwapStep(n1, 0xCCCC, 0x3333, 2);
    var n3 := SwapStep(n2, 0xF0F0, 0x0F0F, 4);
    SwapStep(n3, 0xFF00, 0x00FF, 8)
  }

  /** Reverse 16 bits and shift the rest away. */
  function BitReverse(v: nat, bits: nat): nat
    requires bits <= 16
  {
    Shr(BitReverse16(v), 16 - bits)
  }

  /** Repeating a w-bit pattern p: the bits of p + 2^w * rest. */
  lemma {:induction false} BitConcat(p: nat, w: nat, rest: nat, k: nat)
    requires p < Pow2(w)
    ensures Bit(p + Pow2(w) * rest, k) == (if k < w then Bit(p, k) else Bit(rest, k - w))
  {
    if w > 0 {
      var n := p + Pow2(w) * rest;
      assert n == p + 2 * (Pow2(w - 1) * rest);
      assert n % 2 == p % 2 && n / 2 == p / 2 + Pow2(w - 1) * rest;
      if k > 0 { BitConcat(p / 2, w - 1, rest, k - 1); }
    }
  }

  lemma HighBits(n: nat, w: nat, k: nat)
    requires n < Pow2(w) && w <= k
    ensures !Bit(n, k)
  {
    BitConcat(n, w, 0, k);
    BitZero(k - w);
  }

  /** Bit k lies in a group of s bits with an odd number. */
  predicate OddGroup(k: nat, s: nat)
    requires s > 0
    ensures OddGroup(k, s) ==> k >= s
  {
    k >= s && !OddGroup(k - s, s)
  }

  lemma {:induction false} OddGroupIsDiv(k: nat, s: nat)
    requires s > 0
    ensures OddGroup(k, s) <==> k / s % 2 == 1
  {
    if k >= s {
      OddGroupIsDiv(k - s, s);
      DivModUnique(k, s, (k - s) / s + 1, (k - s) % s);
    } else {
      DivModUnique(k, s, 0, k);
    }
  }

  /** Partner of bit k in the exchange of neighbouring groups of s bits. */
  function Partner(k: nat, s: nat): nat
    requires s > 0
  {
    if OddGroup(k, s) then k - s else k + s
  }

  /** A mask pair whose high mask selects the odd groups of s bits and whose low mask the even ones. */
  ghost predicate MaskPair(high: nat, low: nat, s: nat)
    requires s > 0
  {
    forall k: nat :: Bit(high, k) == (k < 16 && OddGroup(k, s)) && Bit(low, k) == (k < 16 && !OddGroup(k, s))
  }

  /** The masks, read from bit k on, by halving them sixteen times. */
  predicate MasksFrom(high: nat, low: nat, s: nat, k: nat)
    requires s > 0 && k <= 16
    decreases 16 - k
  {
    if k == 16 then high == 0 && low == 0
    else
      (high % 2 == 1) == OddGroup(k, s) && (low % 2 == 1) == !OddGroup(k, s) &&
      MasksFrom(high / 2, low / 2, s, k + 1)
  }

  lemma {:induction false} MasksFromBits(high: nat, low: nat, s: nat, from: nat, k: nat)
    requires s > 0 && from <= 16 && MasksFrom(high, low, s, from)
    ensures Bit(high, k) == (from + k < 16 && OddGroup(from + k, s))
    ensures Bit(low, k) == (from + k < 16 && !OddGroup(from + k, s))
    decreases 16 - from
  {
    if from == 16 {
      BitZero(k);
    } else if k > 0 {
      MasksFromBits(high / 2, low / 2, s, from + 1, k - 1);
    }
  }

  lemma MaskPairHolds(high: nat, low: nat, s: nat)
    requires s > 0 && MasksFrom(high, low, s, 0)
    ensures MaskPair(high, low, s)
  {
    forall k: nat
      ensures Bit(high, k) == (k < 16 && OddGroup(k, s)) && Bit(low, k) == (k < 16 && !OddGroup(k, s))
    {
      MasksFromBits(high, low, s, 0, k);
    }
  }

  lemma GroupInWord(k: nat, s: nat)
    requires s in {1, 2, 4, 8} && k < 16 && !OddGroup(k, s)
    ensures k + s < 16
  {
    OddGroupIsDiv(k, s);
    if s == 8 { assert k < 8; } else if s == 4 { assert k < 12; } else if s == 2 { assert k < 14; }
  }

  lemma SwapStepBit(n: nat, high: nat, low: nat, s: nat, k: nat)
    requires s in {1, 2, 4, 8} && MaskPair(high, low, s)
    ensures Bit(SwapStep(n, high, low, s), k) == (k < 16 && Bit(n, Partner(k, s)))
  {
    BitOr(Shr(And(n, high), s), Shl(And(n, low), s), k);
    BitShr(And(n, high), s, k);
    BitAnd(n, high, s + k);
    BitShl(And(n, low), s, k);
    if k < 16 && !OddGroup(k, s) { GroupInWord(k, s); }
    assert OddGroup(k + s, s) == !OddGroup(k, s);
    if k >= s {
      BitAnd(n, low, k - s);
      if k - s < 16 && !OddGroup(k - s, s) { GroupInWord(k - s, s); }
    }
  }

  lemma PartnersReverse(k: nat)
    requires k < 16
    ensures Partner(k, 8) < 16 && Partner(Partner(k, 8), 4) < 16 && Partner(Partner(Partner(k, 8), 4), 2) < 16
    ensures Partner(Partner(Partner(Partner(k, 8), 4), 2), 1) == 15 - k
  {
    OddGroupIsDiv(k, 8);
    OddGroupIsDiv(Partner(k, 8), 4);
    OddGroupIsDiv(Partner(Partner(k, 8), 4), 2);
    OddGroupIsDiv(Partner(Partner(Partner(k, 8), 4), 2), 1);
  }

  lemma BitReverse16Bit(n: nat, k: nat)
    requires MaskPair(0xAAAA, 0x5555, 1) && MaskPair(0xCCCC, 0x3333, 2)
    requires MaskPair(0xF0F0, 0x0F0F, 4) && MaskPair(0xFF00, 0x00FF, 8)
    ensures Bit(BitReverse16(n), k) == (k < 16 && Bit(n, 15 - k))
  {
    var n1 := SwapStep(n, 0xAAAA, 0x5555, 1);
    var n2 := SwapStep(n1, 0xCCCC, 0x3333, 2);
    var n3 := SwapStep(n2, 0xF0F0, 0x0F0F, 4);
    SwapStepBit(n3, 0xFF00, 0x00FF, 8, k);
    if k < 16 {
      PartnersReverse(k);
      var k3 := Partner(k, 8);
      var k2 := Partner(k3, 4);
      SwapStepBit(n2, 0xF0F0, 0x0F0F, 4, k3);
      SwapStepBit(n1, 0xCCCC, 0x3333, 2, k2);
      SwapStepBit(n, 0xAAAA, 0x5555, 1, Partner(k2, 2));
    }
  }

  lemma Masks()
    ensures MaskPair(0xAAAA, 0x5555, 1) && MaskPair(0xCCCC, 0x3333, 2)
    ensures MaskPair(0xF0F0, 0x0F0F, 4) && MaskPair(0xFF00, 0x00FF, 8)
  {
    Masks1(); Masks2(); Masks4(); Masks8();
  }

  lemma Masks1()
    ensures MaskPair(0xAAAA, 0x5555, 1)
  {
    hide Bit, MaskPair;
    assert MasksFrom(0x2, 0x1, 1, 14);
    assert MasksFrom(0xA, 0x5, 1, 12);
    assert MasksFrom(0x2A, 0x15, 1, 10);
    assert MasksFrom(0xAA, 0x55, 1, 8);
    assert MasksFrom(0x2AA, 0x155, 1, 6);
    assert MasksFrom(0xAAA, 0x555, 1, 4);
    assert MasksFrom(0x2AAA, 0x1555, 1, 2);
    MaskPairHolds(0xAAAA, 0x5555, 1);
  }

  lemma Masks2()
    ensures MaskPair(0xCCCC, 0x3333, 2)
  {
    hide Bit, MaskPair;
    assert MasksFrom(0x3, 0x0, 2, 14);
    assert MasksFrom(0xC, 0x3, 2, 12);
    assert MasksFrom(0x33, 0xC, 2, 10);
    assert MasksFrom(0xCC, 0x33, 2, 8);
    assert MasksFrom(0x333, 0xCC, 2, 6);
    assert MasksFrom(0xCCC, 0x333, 2, 4);
    assert MasksFrom(0x3333, 0xCCC, 2, 2);
    MaskPairHolds(0xCCCC, 0x3333, 2);
  }

  lemma Masks4()
    ensures MaskPair(0xF0F0, 0x0F0F, 4)
  {
    hide Bit, MaskPair;
    assert MasksFrom(0x3, 0x0, 4, 14);
    assert MasksFrom(0xF, 0x0, 4, 12);
    assert MasksFrom(0x3C, 0x3, 4, 10);
    assert MasksFrom(0xF0, 0xF, 4, 8);
    assert MasksFrom(0x3C3, 0x3C, 4, 6);
    assert MasksFrom(0xF0F, 0xF0, 4, 4);
    assert MasksFrom(0x3C3C, 0x3C3, 4, 2);
    MaskPairHolds(0xF0F0, 0x0F0F, 4);
  }

  lemma Masks8()
    ensures MaskPair(0xFF00, 0x00FF, 8)
  {
    hide Bit, MaskPair;
    assert MasksFrom(0x3, 0x0, 8, 14);
    assert MasksFrom(0xF, 0x0, 8, 12);
    assert MasksFrom(0x3F, 0x0, 8, 10);
    assert MasksFrom(0xFF, 0x0, 8, 8);
    assert MasksFrom(0x3FC, 0x3, 8, 6);
    assert MasksFrom(0xFF0, 0xF, 8, 4);
    assert MasksFrom(0x3FC0, 0x3F, 8, 2);
    MaskPairHolds(0xFF00, 0x00FF, 8);
  }

  /** The masks and shifts of the program really reverse the low 16 bits. */
  lemma BitReverse16IsRev(n: nat)
    ensures BitReverse16(n) == Rev(n, 16)
  {
    Masks();
    forall k: nat
      ensures Bit(BitReverse16(n), k) == Bit(Rev(n, 16), k)
    {
      BitReverse16Bit(n, k);
      BitRev(n, 16, k);
    }
    SameBits(BitReverse16(n), Rev(n, 16));
  }

  /** Bit k of the result is bit (bits - 1 - k) of the argument. */
  lemma BitReverseIsRev(v: nat, bits: nat)
    requires bits <= 16
    ensures BitReverse(v, bits) == Rev(v, bits)
  {
    BitReverse16IsRev(v);
    RevTop(v, 16, bits);
  }
}

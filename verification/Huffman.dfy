/** Canonical prefix codes, as section 3.2.2 of RFC 1951 defines them from a list of code lengths.
    Symbol i has length lengths[i]; length 0 means that the symbol has no code. */
module Huffman {
  import opened Bits

  const MAX_SYMBOLS := 288
  const MAX_LENGTH := 15

  /** What callers hand to stbi__zbuild_huffman. */
  predicate Lengths(lengths: seq<nat>) {
    |lengths| <= MAX_SYMBOLS && forall i :: 0 <= i < |lengths| ==> lengths[i] <= MAX_LENGTH
  }

  predicate Coded(lengths: seq<nat>, i: nat) {
    i < |lengths| && 1 <= lengths[i] <= MAX_LENGTH
  }

  /** How many symbols have length s. */
  function Count(lengths: seq<nat>, s: nat): nat {
    if lengths == [] then 0
    else Count(lengths[..|lengths| - 1], s) + (if lengths[|lengths| - 1] == s then 1 else 0)
  }

  /** How many s-bit words are codes or start with a shorter code. */
  function Used(lengths: seq<nat>, s: nat): nat {
    if s == 0 then 0 else 2 * Used(lengths, s - 1) + Count(lengths, s)
  }

  /** The smallest code of length s. */
  function FirstCode(lengths: seq<nat>, s: nat): nat
    requires s >= 1
  {
    2 * Used(lengths, s - 1)
  }

  /** How many symbols have a code shorter than s bits. */
  function Shorter(lengths: seq<nat>, s: nat): nat
    requires s >= 1
  {
    if s == 1 then 0 else Shorter(lengths, s - 1) + Count(lengths, s - 1)
  }

  function Code(lengths: seq<nat>, i: nat): nat
    requires Coded(lengths, i)
  {
    FirstCode(lengths, lengths[i]) + Count(lengths[..i], lengths[i])
  }

  /** Rank of symbol i among the coded symbols, ordered by length and then by symbol. */
  function Slot(lengths: seq<nat>, i: nat): nat
    requires Coded(lengths, i)
  {
    Shorter(lengths, lengths[i]) + Count(lengths[..i], lengths[i])
  }

  /** Kraft's sum, scaled by 2^15: a code of s bits takes up 2^(15-s) of the 2^15 words. */
  function KraftSum(lengths: seq<nat>): nat {
    if lengths == [] then 0
    else
      var l := lengths[|lengths| - 1];
      KraftSum(lengths[..|lengths| - 1]) + (if 1 <= l <= MAX_LENGTH then Pow2(MAX_LENGTH - l) else 0)
  }

  /** No length has more codes than words. */
  ghost predicate Feasible(lengths: seq<nat>) {
    forall s :: 1 <= s <= MAX_LENGTH ==> Used(lengths, s) <= Pow2(s)
  }

  // ---------------------------------------------------------------- bit strings

  /** The code of symbol i as it is transmitted, most significant bit first. */
  function CodeString(lengths: seq<nat>, i: nat): (bits: seq<bool>)
    requires Coded(lengths, i)
    ensures |bits| == lengths[i]
  {
    var s := lengths[i];
    seq(s, k requires 0 <= k < s => Bit(Code(lengths, i), s - 1 - k))
  }

  /** The next n bits of a stream held in a number, least significant bit first. */
  function StreamPrefix(stream: nat, n: nat): (bits: seq<bool>)
    ensures |bits| == n
  {
    seq(n, k requires 0 <= k < n => Bit(stream, k))
  }

  /** The stream starts with the code of symbol i. */
  predicate StartsWith(stream: nat, lengths: seq<nat>, i: nat) {
    Coded(lengths, i) && StreamPrefix(stream, lengths[i]) == CodeString(lengths, i)
  }

  /** The same, on numbers. */
  predicate Matches(stream: nat, lengths: seq<nat>, i: nat) {
    Coded(lengths, i) && Rev(stream, lengths[i]) == Code(lengths, i)
  }

  // ---------------------------------------------------------------- counting

  lemma {:induction false} CountMono(lengths: seq<nat>, i: nat, j: nat, s: nat)
    requires i <= j <= |lengths|
    ensures Count(lengths[..i], s) <= Count(lengths[..j], s)
    ensures i < j && lengths[i] == s ==> Count(lengths[..i], s) < Count(lengths[..j], s)
    decreases j - i
  {
    if i < j {
      assert lengths[..j][..j - 1] == lengths[..j - 1];
      CountMono(lengths, i, j - 1, s);
    }
  }

  lemma CodeBelowUsed(lengths: seq<nat>, i: nat)
    requires Coded(lengths, i)
    ensures FirstCode(lengths, lengths[i]) <= Code(lengths, i) < Used(lengths, lengths[i])
  {
    assert lengths[..|lengths|] == lengths;
    CountMono(lengths, i, |lengths|, lengths[i]);
  }

  lemma {:induction false} UsedGrows(lengths: seq<nat>, s: nat, t: nat)
    requires s <= t
    ensures Used(lengths, t) >= Used(lengths, s) * Pow2(t - s)
  {
    if s < t {
      UsedGrows(lengths, s, t - 1);
      MoveFactor(Used(lengths, s), 2, Pow2(t - 1 - s));
    }
  }

  lemma {:induction false} UsedSnoc(lengths: seq<nat>, l: nat, s: nat)
    ensures Used(lengths + [l], s) == Used(lengths, s) + (if 1 <= l <= s then Pow2(s - l) else 0)
  {
    if s > 0 {
      UsedSnoc(lengths, l, s - 1);
      assert (lengths + [l])[..|lengths|] == lengths;
    }
  }

  lemma {:induction false} KraftIsUsed(lengths: seq<nat>)
    ensures KraftSum(lengths) == Used(lengths, MAX_LENGTH)
  {
    if lengths == [] {
      NothingUsed(MAX_LENGTH);
    } else {
      var rest, l := lengths[..|lengths| - 1], lengths[|lengths| - 1];
      assert lengths == rest + [l];
      KraftIsUsed(rest);
      UsedSnoc(rest, l, MAX_LENGTH);
    }
  }

  lemma {:induction false} NothingUsed(s: nat)
    ensures Used([], s) == 0
  {
    if s > 0 { NothingUsed(s - 1); }
  }

  lemma RoomLeft(lengths: seq<nat>, s: nat, t: nat)
    requires s <= t && Used(lengths, t) <= Pow2(t)
    ensures Used(lengths, s) <= Pow2(s)
  {
    UsedGrows(lengths, s, t);
    Pow2Add(s, t - s);
    MulCancel(Used(lengths, s), Pow2(s), Pow2(t - s));
  }

  /** The step-by-step tests of the decoder amount to Kraft's inequality. */
  lemma FeasibleIsKraft(lengths: seq<nat>)
    ensures Feasible(lengths) <==> KraftSum(lengths) <= Pow2(MAX_LENGTH)
  {
    var m := MAX_LENGTH;
    KraftIsUsed(lengths);
    if Used(lengths, m) <= Pow2(m) {
      forall s | 1 <= s <= m
        ensures Used(lengths, s) <= Pow2(s)
      {
        RoomLeft(lengths, s, m);
      }
    }
  }

  // ---------------------------------------------------------------- the codes of the standard

  /** Step 2 of section 3.2.2: the smallest code of each length. */
  lemma FirstCodes(lengths: seq<nat>, s: nat)
    requires s >= 1
    ensures FirstCode(lengths, 1) == 0
    ensures FirstCode(lengths, s + 1) == 2 * (FirstCode(lengths, s) + Count(lengths, s))
  {
  }

  /** Step 3: codes of one length are consecutive, in the order of their symbols, from the smallest. */
  lemma ConsecutiveCodes(lengths: seq<nat>, i: nat, j: nat)
    requires Coded(lengths, j) && i < j && lengths[i] == lengths[j]
    requires forall k :: i < k < j ==> lengths[k] != lengths[j]
    ensures Coded(lengths, i) && Code(lengths, j) == Code(lengths, i) + 1
  {
    assert lengths[..i + 1] == lengths[..i] + [lengths[i]];
    CountNone(lengths, i + 1, j, lengths[j]);
  }

  lemma SmallestCode(lengths: seq<nat>, i: nat)
    requires Coded(lengths, i) && forall k :: 0 <= k < i ==> lengths[k] != lengths[i]
    ensures Code(lengths, i) == FirstCode(lengths, lengths[i])
  {
    CountNone(lengths, 0, i, lengths[i]);
    assert lengths[..0] == [];
  }

  lemma {:induction false} CountNone(lengths: seq<nat>, i: nat, j: nat, s: nat)
    requires i <= j <= |lengths| && forall k :: i <= k < j ==> lengths[k] != s
    ensures Count(lengths[..j], s) == Count(lengths[..i], s)
    decreases j - i
  {
    if i < j {
      assert lengths[..j] == lengths[..j - 1] + [lengths[j - 1]];
      CountNone(lengths, i, j - 1, s);
    }
  }

  /** The example of section 3.2.2: lengths 3, 3, 3, 3, 3, 2, 4, 4 for A to H give A 010, F 00 and H 1111. */
  lemma ExampleCodes()
    ensures var lengths := [3, 3, 3, 3, 3, 2, 4, 4];
      CodeString(lengths, 0) == [false, true, false] && CodeString(lengths, 5) == [false, false] &&
      CodeString(lengths, 7) == [true, true, true, true]
  {
    var lengths := [3, 3, 3, 3, 3, 2, 4, 4];
    ExampleCounts();
    SmallestCode(lengths, 0);
    SmallestCode(lengths, 5);
    SmallestCode(lengths, 6);
    ConsecutiveCodes(lengths, 6, 7);
    FirstCodes(lengths, 1);
    FirstCodes(lengths, 2);
    FirstCodes(lengths, 3);
    assert Code(lengths, 0) == 2 && Code(lengths, 5) == 0 && Code(lengths, 7) == 15;
    ExampleBits();
  }

  lemma ExampleCounts()
    ensures var lengths := [3, 3, 3, 3, 3, 2, 4, 4];
      Count(lengths, 1) == 0 && Count(lengths, 2) == 1 && Count(lengths, 3) == 5
  {
    var lengths := [3, 3, 3, 3, 3, 2, 4, 4];
    var five := [3, 3, 3, 3, 3];
    assert lengths == (((five + [2]) + [4]) + [4]);
    CountSnoc((five + [2]) + [4], 4);
    CountSnoc(five + [2], 4);
    CountSnoc(five, 2);
    assert five == ((([3] + [3]) + [3]) + [3]) + [3] && [3] == [] + [3];
    CountSnoc((([3] + [3]) + [3]) + [3], 3);
    CountSnoc(([3] + [3]) + [3], 3);
    CountSnoc([3] + [3], 3);
    CountSnoc([3], 3);
    CountSnoc([], 3);
  }

  lemma CountSnoc(lengths: seq<nat>, l: nat)
    ensures forall s: nat :: Count(lengths + [l], s) == Count(lengths, s) + (if l == s then 1 else 0)
  {
    assert (lengths + [l])[..|lengths|] == lengths;
  }

  lemma ExampleBits()
    ensures !Bit(2, 2) && Bit(2, 1) && !Bit(2, 0) && !Bit(0, 1) && !Bit(0, 0)
    ensures Bit(15, 0) && Bit(15, 1) && Bit(15, 2) && Bit(15, 3)
  {
    assert Bit(15, 3) == Bit(7, 2) == Bit(3, 1) == Bit(1, 0);
    assert Bit(15, 2) == Bit(7, 1) == Bit(3, 0);
  }

  // ---------------------------------------------------------------- matching

  lemma CodeFits(lengths: seq<nat>, i: nat)
    requires Feasible(lengths) && Coded(lengths, i)
    ensures Code(lengths, i) < Pow2(lengths[i])
  {
    CodeBelowUsed(lengths, i);
  }

  /** Bit strings and reversed numbers say the same. */
  lemma MatchesIsStartsWith(stream: nat, lengths: seq<nat>, i: nat)
    requires Feasible(lengths)
    ensures Matches(stream, lengths, i) <==> StartsWith(stream, lengths, i)
  {
    if Coded(lengths, i) {
      var s, c := lengths[i], Code(lengths, i);
      CodeFits(lengths, i);
      if Rev(stream, s) == c {
        forall k | 0 <= k < s
          ensures StreamPrefix(stream, s)[k] == CodeString(lengths, i)[k]
        {
          BitRev(stream, s, s - 1 - k);
        }
      }
      if StreamPrefix(stream, s) == CodeString(lengths, i) {
        forall k: nat
          ensures Bit(Rev(stream, s), k) == Bit(c, k)
        {
          BitRev(stream, s, k);
          if k < s {
            assert StreamPrefix(stream, s)[s - 1 - k] == CodeString(lengths, i)[s - 1 - k];
          } else {
            HighBits(c, s, k);
          }
        }
        SameBits(Rev(stream, s), c);
      }
    }
  }

  /** A t-bit code is past every word that starts with a shorter code. */
  lemma LongerCodeIsLarger(lengths: seq<nat>, i: nat, j: nat)
    requires Coded(lengths, i) && Coded(lengths, j) && lengths[i] < lengths[j]
    ensures Code(lengths, j) >= (Code(lengths, i) + 1) * Pow2(lengths[j] - lengths[i])
  {
    var s, t := lengths[i], lengths[j];
    CodeBelowUsed(lengths, i);
    CodeBelowUsed(lengths, j);
    UsedGrows(lengths, s, t - 1);
    var u := Used(lengths, s);
    MoveFactor(u, 2, Pow2(t - 1 - s));
    MulMono(Code(lengths, i) + 1, u, Pow2(t - s));
  }

  lemma NotBothMatch(stream: nat, lengths: seq<nat>, i: nat, j: nat)
    requires Matches(stream, lengths, i) && Matches(stream, lengths, j)
    requires lengths[i] <= lengths[j]
    ensures i == j
  {
    var s, t := lengths[i], lengths[j];
    if s < t {
      RevTop(stream, t, s);
      ShrIsDiv(Rev(stream, t), t - s);
      LongerCodeIsLarger(lengths, i, j);
      DivLess(Code(lengths, j), Pow2(t - s), Code(lengths, i) + 1);
      assert false;
    } else if i < j {
      CountMono(lengths, i, j, s);
    } else if j < i {
      CountMono(lengths, j, i, s);
    }
  }

  /** At most one symbol's code starts the stream. */
  lemma MatchUnique(stream: nat, lengths: seq<nat>, i: nat, j: nat)
    requires Matches(stream, lengths, i) && Matches(stream, lengths, j)
    ensures i == j
  {
    if lengths[i] <= lengths[j] {
      NotBothMatch(stream, lengths, i, j);
    } else {
      NotBothMatch(stream, lengths, j, i);
    }
  }

  /** A stream that starts with the code of j also starts with each prefix of that code. */
  lemma PrefixMatches(stream: nat, lengths: seq<nat>, i: nat, j: nat)
    requires StartsWith(stream, lengths, j) && Coded(lengths, i)
    requires CodeString(lengths, i) <= CodeString(lengths, j)
    ensures StartsWith(stream, lengths, i)
  {
    forall k | 0 <= k < lengths[i]
      ensures StreamPrefix(stream, lengths[i])[k] == CodeString(lengths, i)[k]
    {
      assert StreamPrefix(stream, lengths[j])[k] == Bit(stream, k);
      assert CodeString(lengths, i)[k] == CodeString(lengths, j)[k];
    }
  }

  /** A stream that starts with the code of symbol j. */
  lemma SomeStream(lengths: seq<nat>, j: nat) returns (stream: nat)
    requires Feasible(lengths) && Coded(lengths, j)
    ensures Matches(stream, lengths, j)
  {
    stream := Rev(Code(lengths, j), lengths[j]);
    CodeFits(lengths, j);
    RevRev(Code(lengths, j), lengths[j]);
    DivModUnique(Code(lengths, j), Pow2(lengths[j]), 0, Code(lengths, j));
  }

  /** No code is a prefix of another one. */
  lemma PrefixFree(lengths: seq<nat>, i: nat, j: nat)
    requires KraftSum(lengths) <= Pow2(MAX_LENGTH)
    requires Coded(lengths, i) && Coded(lengths, j)
    requires CodeString(lengths, i) <= CodeString(lengths, j)
    ensures i == j
  {
    FeasibleIsKraft(lengths);
    var stream := SomeStream(lengths, j);
    MatchesIsStartsWith(stream, lengths, j);
    PrefixMatches(stream, lengths, i, j);
    MatchesIsStartsWith(stream, lengths, i);
    MatchUnique(stream, lengths, i, j);
  }

  // ---------------------------------------------------------------- the search by thresholds

  /** First 16-bit word, read most significant bit first, past all codes of at most s bits. */
  function Threshold(lengths: seq<nat>, s: nat): nat
    requires s <= 16
  {
    Shl(Used(lengths, s), 16 - s)
  }

  lemma ThresholdBelow(lengths: seq<nat>, s: nat)
    requires 1 <= s <= 16
    ensures Threshold(lengths, s - 1) == FirstCode(lengths, s) * Pow2(16 - s)
  {
    assert Pow2(16 - (s - 1)) == 2 * Pow2(16 - s);
    MoveFactor(Used(lengths, s - 1), 2, Pow2(16 - s));
  }

  lemma {:induction false} ThresholdMono(lengths: seq<nat>, s: nat, t: nat)
    requires s <= t <= 16
    ensures Threshold(lengths, s) <= Threshold(lengths, t)
  {
    if s < t {
      ThresholdMono(lengths, s, t - 1);
      ThresholdBelow(lengths, t);
      MulMono(FirstCode(lengths, t), Used(lengths, t), Pow2(16 - t));
    }
  }

  /** The word lies between the thresholds of s-1 and s bits exactly when its first s bits are a code. */
  lemma WordInLength(stream: nat, lengths: seq<nat>, s: nat)
    requires 1 <= s <= MAX_LENGTH
    ensures Threshold(lengths, s - 1) <= Rev(stream, 16) < Threshold(lengths, s)
            <==> FirstCode(lengths, s) <= Rev(stream, s) < Used(lengths, s)
  {
    ThresholdBelow(lengths, s);
    var w := 16;
    RevTop(stream, w, s);
    ShrIsDiv(Rev(stream, w), w - s);
    DivLess(Rev(stream, w), Pow2(w - s), Used(lengths, s));
    DivLess(Rev(stream, w), Pow2(w - s), FirstCode(lengths, s));
  }

  /** The n-th symbol of length s, for every n that Count allows. */
  lemma {:induction false} NthSymbol(lengths: seq<nat>, s: nat, n: nat) returns (i: nat)
    requires n < Count(lengths, s)
    ensures i < |lengths| && lengths[i] == s && Count(lengths[..i], s) == n
  {
    var m := |lengths| - 1;
    if lengths[m] == s && Count(lengths[..m], s) == n {
      i := m;
    } else {
      i := NthSymbol(lengths[..m], s, n);
      assert lengths[..m][..i] == lengths[..i];
    }
  }

  /** A word in the range of length s starts with the code of some symbol of that length. */
  lemma WordHasSymbol(stream: nat, lengths: seq<nat>, s: nat) returns (i: nat)
    requires 1 <= s <= MAX_LENGTH
    requires Threshold(lengths, s - 1) <= Rev(stream, 16) < Threshold(lengths, s)
    ensures Matches(stream, lengths, i) && lengths[i] == s
    ensures Slot(lengths, i) == Rev(stream, s) - FirstCode(lengths, s) + Shorter(lengths, s)
  {
    WordInLength(stream, lengths, s);
    i := NthSymbol(lengths, s, Rev(stream, s) - FirstCode(lengths, s));
  }

  lemma MatchInLength(stream: nat, lengths: seq<nat>, i: nat)
    requires Matches(stream, lengths, i)
    ensures Threshold(lengths, lengths[i] - 1) <= Rev(stream, 16) < Threshold(lengths, lengths[i])
  {
    CodeBelowUsed(lengths, i);
    WordInLength(stream, lengths, lengths[i]);
  }

  /** The number of coded symbols up to a length, for table sizes. */
  lemma {:induction false} CodedBound(lengths: seq<nat>, s: nat)
    requires s >= 1
    ensures Shorter(lengths, s) <= |lengths|
  {
    SumBound(lengths, s);
  }

  lemma {:induction false} SumBound(lengths: seq<nat>, s: nat)
    requires s >= 1
    ensures Shorter(lengths, s) <= |lengths|
    decreases lengths
  {
    if lengths == [] {
      ShorterOfNothing(s);
    } else {
      SumBound(lengths[..|lengths| - 1], s);
      ShorterSnoc(lengths, s);
    }
  }

  lemma {:induction false} ShorterOfNothing(s: nat)
    requires s >= 1
    ensures Shorter([], s) == 0
  {
    if s > 1 { ShorterOfNothing(s - 1); }
  }

  lemma {:induction false} ShorterSnoc(lengths: seq<nat>, s: nat)
    requires s >= 1 && lengths != []
    ensures Shorter(lengths, s) == Shorter(lengths[..|lengths| - 1], s) +
                                   (if 1 <= lengths[|lengths| - 1] < s then 1 else 0)
  {
    if s > 1 { ShorterSnoc(lengths, s - 1); }
  }

  lemma {:induction false} ShorterMono(lengths: seq<nat>, s: nat, t: nat)
    requires 1 <= s <= t
    ensures Shorter(lengths, s) <= Shorter(lengths, t)
    ensures s < t ==> Shorter(lengths, s) + Count(lengths, s) <= Shorter(lengths, t)
  {
    if s < t { ShorterMono(lengths, s, t - 1); }
  }

  lemma SlotBound(lengths: seq<nat>, i: nat)
    requires Coded(lengths, i)
    ensures Slot(lengths, i) < |lengths|
  {
    assert lengths[..|lengths|] == lengths;
    CountMono(lengths, i, |lengths|, lengths[i]);
    CodedBound(lengths, lengths[i] + 1);
  }

  /** Different symbols have different slots. */
  lemma SlotInjective(lengths: seq<nat>, i: nat, j: nat)
    requires Coded(lengths, i) && Coded(lengths, j) && i < j
    ensures Slot(lengths, i) != Slot(lengths, j)
  {
    assert lengths[..|lengths|] == lengths;
    var s, t := lengths[i], lengths[j];
    CountMono(lengths, i, |lengths|, s);
    CountMono(lengths, j, |lengths|, t);
    if s == t {
      CountMono(lengths, i, j, s);
    } else if s < t {
      ShorterMono(lengths, s, t);
    } else {
      ShorterMono(lengths, t, s);
    }
  }

  /** When Kraft's sum is full, every stream starts with a code. */
  lemma CompleteCodeMatches(stream: nat, lengths: seq<nat>) returns (i: nat)
    requires KraftSum(lengths) == Pow2(MAX_LENGTH)
    ensures StartsWith(stream, lengths, i)
  {
    KraftIsUsed(lengths);
    FeasibleIsKraft(lengths);
    var s := 1;
    assert Threshold(lengths, 0) == 0;
    assert Threshold(lengths, MAX_LENGTH) == Pow2(MAX_LENGTH) * Pow2(1) == Pow2(16);
    while Rev(stream, 16) >= Threshold(lengths, s)
      invariant 1 <= s <= MAX_LENGTH
      invariant Rev(stream, 16) >= Threshold(lengths, s - 1)
      decreases MAX_LENGTH - s
    {
      s := s + 1;
    }
    i := WordHasSymbol(stream, lengths, s);
    MatchesIsStartsWith(stream, lengths, i);
  }
}

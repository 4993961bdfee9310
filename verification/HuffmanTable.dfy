/** The decoding tables of stb_image and their construction. */
module HuffmanTable {
  import opened Bits
  import opened Huffman

  const ZFAST_BITS := 9
  const ZFAST_SIZE := 512

  /** Conversion to an unsigned 16-bit field. */
  function Uint16(n: nat): nat {
    n % 65536
  }

  /** A fast-table entry: the length above nine bits of symbol. */
  function FastEntry(s: nat, i: nat): nat {
    Uint16(Or(Shl(s, ZFAST_BITS), i))
  }

  lemma {:induction false} OrIsSum(high: nat, w: nat, low: nat)
    requires low < Pow2(w)
    ensures Or(Shl(high, w), low) == high * Pow2(w) + low
  {
    forall k: nat
      ensures Bit(Or(Shl(high, w), low), k) == Bit(low + Pow2(w) * high, k)
    {
      BitOr(Shl(high, w), low, k);
      BitShl(high, w, k);
      BitConcat(low, w, high, k);
      if k >= w { HighBits(low, w, k); }
    }
    SameBits(Or(Shl(high, w), low), low + Pow2(w) * high);
  }

  lemma FastEntryValue(s: nat, i: nat)
    requires s <= ZFAST_BITS && i < MAX_SYMBOLS
    ensures FastEntry(s, i) == s * 512 + i
  {
    Pow2Values();
    OrIsSum(s, ZFAST_BITS, i);
  }

  lemma {:induction false} OnesBit(w: nat, k: nat)
    ensures Bit(Pow2(w) - 1, k) == (k < w)
  {
    if w == 0 {
      BitZero(k);
    } else if k > 0 {
      assert (Pow2(w) - 1) / 2 == Pow2(w - 1) - 1;
      OnesBit(w - 1, k - 1);
    }
  }

  /** n & (2^w - 1) is n modulo 2^w. */
  lemma AndMask(n: nat, w: nat)
    ensures And(n, Pow2(w) - 1) == n % Pow2(w)
  {
    forall k: nat
      ensures Bit(And(n, Pow2(w) - 1), k) == Bit(n % Pow2(w), k)
    {
      BitAnd(n, Pow2(w) - 1, k);
      OnesBit(w, k);
      BitMod(n, w, k);
    }
    SameBits(And(n, Pow2(w) - 1), n % Pow2(w));
  }

  /** The fast table resolves exactly the codes of at most nine bits among the first n symbols. */
  ghost predicate FastEntries(table: seq<nat>, lengths: seq<nat>, n: nat) {
    forall j: nat :: j < |table| ==> FastEntryFor(table[j], j, lengths, n)
  }

  ghost predicate FastEntryFor(entry: nat, j: nat, lengths: seq<nat>, n: nat) {
    if entry == 0 then forall i: nat :: i < n && Matches(j, lengths, i) ==> lengths[i] > ZFAST_BITS
    else exists i: nat ::
        i < n && Matches(j, lengths, i) && lengths[i] <= ZFAST_BITS &&
        entry == FastEntry(lengths[i], i)
  }

  ghost predicate LengthEntry(first: nat, symbol: nat, max: nat, lengths: seq<nat>, s: nat)
    requires 1 <= s <= 15
  {
    first == FirstCode(lengths, s) && symbol == Shorter(lengths, s) && max == Threshold(lengths, s)
  }

  ghost predicate RoomUpTo(lengths: seq<nat>, s: nat) {
    Used(lengths, s) <= Pow2(s) && (s > 0 ==> RoomUpTo(lengths, s - 1))
  }

  lemma RoomNone(lengths: seq<nat>)
    ensures RoomUpTo(lengths, 0)
  {
  }

  lemma RoomStep(lengths: seq<nat>, s: nat)
    requires s > 0 && RoomUpTo(lengths, s - 1)
    requires Count(lengths, s) == 0 || 2 * Used(lengths, s - 1) + Count(lengths, s) <= Pow2(s)
    ensures RoomUpTo(lengths, s)
  {
  }

  lemma NoRoom(lengths: seq<nat>, s: nat)
    requires 1 <= s <= MAX_LENGTH && FirstCode(lengths, s) + Count(lengths, s) > Pow2(s)
    ensures !Feasible(lengths)
  {
    assert Used(lengths, s) > Pow2(s);
  }

  lemma {:induction false} RoomBelow(lengths: seq<nat>, s: nat, t: nat)
    requires s <= t && RoomUpTo(lengths, t)
    ensures Used(lengths, s) <= Pow2(s)
  {
    if s < t { RoomBelow(lengths, s, t - 1); }
  }

  lemma RoomIsFeasible(lengths: seq<nat>)
    requires RoomUpTo(lengths, MAX_LENGTH)
    ensures Feasible(lengths)
  {
    forall s | 1 <= s <= MAX_LENGTH
      ensures Used(lengths, s) <= Pow2(s)
    {
      RoomBelow(lengths, s, MAX_LENGTH);
    }
  }

  lemma FastEntryKept(entry: nat, j: nat, lengths: seq<nat>, n: nat)
    requires FastEntryFor(entry, j, lengths, n)
    requires Matches(j, lengths, n) ==> lengths[n] > ZFAST_BITS
    ensures FastEntryFor(entry, j, lengths, n + 1)
  {
    if entry != 0 {
      var i: nat :| i < n && Matches(j, lengths, i) && lengths[i] <= ZFAST_BITS && entry == FastEntry(lengths[i], i);
    }
  }

  lemma FastEntriesSkip(table: seq<nat>, lengths: seq<nat>, n: nat)
    requires FastEntries(table, lengths, n)
    requires Coded(lengths, n) ==> lengths[n] > ZFAST_BITS
    ensures FastEntries(table, lengths, n + 1)
  {
    forall j: nat | j < |table|
      ensures FastEntryFor(table[j], j, lengths, n + 1)
    {
      FastEntryKept(table[j], j, lengths, n);
    }
  }

  lemma FastEntriesStep(before: seq<nat>, after: seq<nat>, lengths: seq<nat>, n: nat)
    requires FastEntries(before, lengths, n) && |before| == |after|
    requires Feasible(lengths) && Coded(lengths, n) && lengths[n] <= ZFAST_BITS && n < MAX_SYMBOLS
    requires forall j: nat :: j < |after| ==>
      after[j] == if j % Pow2(lengths[n]) == Rev(Code(lengths, n), lengths[n]) then FastEntry(lengths[n], n)
          else before[j]
    ensures FastEntries(after, lengths, n + 1)
  {
    forall j: nat | j < |after|
      ensures FastEntryFor(after[j], j, lengths, n + 1)
    {
      MatchesIsStride(j, lengths, n);
      if Matches(j, lengths, n) {
        FastEntryValue(lengths[n], n);
      } else {
        FastEntryKept(after[j], j, lengths, n);
      }
    }
  }

  class ZHuffman {
    const fast: array<nat>
    const firstcode: array<nat>
    const maxcode: array<nat>
    const firstsymbol: array<nat>
    const size: array<nat>
    const value: array<nat>

    ghost predicate Valid()
    {
      fast.Length == ZFAST_SIZE && firstcode.Length == 16 && maxcode.Length == 17 &&
      firstsymbol.Length == 16 && size.Length == MAX_SYMBOLS && value.Length == MAX_SYMBOLS &&
      Distinct()
    }

    ghost predicate Distinct() {
      fast != firstcode && fast != maxcode && fast != firstsymbol && fast != size && fast != value &&
      firstcode != maxcode && firstcode != firstsymbol && firstcode != size && firstcode != value &&
      maxcode != firstsymbol && maxcode != size && maxcode != value &&
      firstsymbol != size && firstsymbol != value && size != value
    }

    ghost function Repr(): set<object> {
      {fast, firstcode, maxcode, firstsymbol, size, value}
    }

    /** firstcode, firstsymbol and maxcode describe all lengths below s. */
    ghost predicate LengthTables(lengths: seq<nat>, s: nat)
      requires Valid() && s <= 16
      reads firstcode, maxcode, firstsymbol
    {
      forall t :: 1 <= t < s ==> LengthEntry(firstcode[t], firstsymbol[t], maxcode[t], lengths, t)
    }

    /** size and value describe the first n symbols. */
    ghost predicate SymbolTables(lengths: seq<nat>, n: nat)
      requires Valid() && n <= |lengths| <= MAX_SYMBOLS
      reads size, value
    {
      forall i: nat {:trigger Coded(lengths, i)} :: i < n && Coded(lengths, i) ==>
        Slot(lengths, i) < MAX_SYMBOLS &&
        size[Slot(lengths, i)] == lengths[i] && value[Slot(lengths, i)] == i
    }

    ghost predicate FastTable(lengths: seq<nat>, n: nat)
      requires Valid()
      reads fast
    {
      FastEntries(fast[..], lengths, n)
    }

    /** The tables decode the canonical code of these lengths. */
    ghost predicate Decodes(lengths: seq<nat>)
      reads Repr()
    {
      Valid() && Lengths(lengths) && Feasible(lengths) &&
      LengthTables(lengths, 16) && maxcode[16] == 0x10000 &&
      SymbolTables(lengths, |lengths|) && FastTable(lengths, |lengths|)
    }

    constructor ()
      ensures Valid() && fresh(Repr())
    {
      fast := new nat[ZFAST_SIZE](_ => 0);
      firstcode := new nat[16](_ => 0);
      maxcode := new nat[17](_ => 0);
      firstsymbol := new nat[16](_ => 0);
      size := new nat[MAX_SYMBOLS](_ => 0);
      value := new nat[MAX_SYMBOLS](_ => 0);
    }

    /** stbi__zbuild_huffman: accepts exactly the lists that satisfy Kraft's inequality. */
    method Build(sizelist: seq<nat>) returns (ok: bool)
      requires Valid() && Lengths(sizelist)
      modifies Repr()
      ensures ok <==> KraftSum(sizelist) <= Pow2(MAX_LENGTH)
      ensures ok ==> Decodes(sizelist)
    {
      hide KraftSum, Feasible, Pow2, ZHuffman.LengthTables, ZHuffman.SymbolTables, ZHuffman.FastTable;
      FeasibleIsKraft(sizelist);
      forall j | 0 <= j < fast.Length { fast[j] := 0; }
      var sizes := CountSizes(sizelist);
      ok := CheckSizes(sizelist, sizes);
      if !ok { return; }
      var next_code := new nat[16](_ => 0);
      ok := BuildLengths(sizelist, sizes, next_code);
      if ok {
        BuildSymbols(sizelist, next_code);
      }
    }

    /** How often each length occurs. */
    method CountSizes(sizelist: seq<nat>) returns (sizes: array<nat>)
      requires Lengths(sizelist)
      ensures fresh(sizes) && sizes.Length == 17
      ensures forall s :: 1 <= s <= 16 ==> sizes[s] == Count(sizelist, s)
    {
      sizes := new nat[17](_ => 0);
      var i := 0;
      while i < |sizelist|
        invariant 0 <= i <= |sizelist|
        invariant forall s :: 0 <= s < 17 ==> sizes[s] == Count(sizelist[..i], s)
      {
        assert sizelist[..i + 1][..i] == sizelist[..i];
        sizes[sizelist[i]] := sizes[sizelist[i]] + 1;
        i := i + 1;
      }
      assert sizelist[..i] == sizelist;
      sizes[0] := 0;
    }

    /** No length may have more codes than words; a first test that ignores shorter codes. */
    static method CheckSizes(ghost lengths: seq<nat>, sizes: array<nat>) returns (ok: bool)
      requires sizes.Length == 17
      requires forall s :: 1 <= s <= 16 ==> sizes[s] == Count(lengths, s)
      ensures !ok ==> !Feasible(lengths)
    {
      var i := 1;
      while i < 16
        invariant 1 <= i <= 16
      {
        if sizes[i] > Pow2(i) {
          assert Used(lengths, i) > Pow2(i);
          return false;
        }
        i := i + 1;
      }
      return true;
    }

    /** The tables indexed by length; fails as soon as a length runs out of words. */
    method BuildLengths(ghost lengths: seq<nat>, sizes: array<nat>, next_code: array<nat>) returns (ok: bool)
      requires Valid() && Lengths(lengths)
      requires sizes.Length == 17 && next_code.Length == 16 && next_code != sizes
      requires sizes !in Repr() && next_code !in Repr()
      requires forall s :: 1 <= s <= 16 ==> sizes[s] == Count(lengths, s)
      modifies firstcode, maxcode, firstsymbol, next_code
      ensures ok <==> Feasible(lengths)
      ensures ok ==> LengthTables(lengths, 16) && maxcode[16] == 0x10000
      ensures ok ==> forall s :: 1 <= s < 16 ==> next_code[s] == FirstCode(lengths, s)
    {
      hide Pow2, Shl, Uint16, Feasible, RoomUpTo, Lengths;
      var code, k := 0, 0;
      var i := 1;
      RoomNone(lengths);
      while i < 16
        invariant 1 <= i <= 16
        invariant code == FirstCode(lengths, i) && k == Shorter(lengths, i)
        invariant RoomUpTo(lengths, i - 1)
        invariant LengthTables(lengths, i)
        invariant forall s :: 1 <= s < i ==> next_code[s] == FirstCode(lengths, s)
      {
        RoomBelow(lengths, i - 1, i - 1);
        FieldsFit(lengths, i);
        next_code[i] := code;
        firstcode[i] := Uint16(code);
        firstsymbol[i] := Uint16(k);
        code := code + sizes[i];
        if sizes[i] != 0 {
          if code - 1 >= Pow2(i) {
            NoRoom(lengths, i);
            return false;
          }
        }
        RoomStep(lengths, i);
        maxcode[i] := Shl(code, 16 - i);
        assert LengthEntry(firstcode[i], firstsymbol[i], maxcode[i], lengths, i);
        code := 2 * code;
        k := k + sizes[i];
        i := i + 1;
      }
      maxcode[16] := 0x10000;
      RoomIsFeasible(lengths);
      return true;
    }

    /** Enters every coded symbol into the tables. */
    method BuildSymbols(sizelist: seq<nat>, next_code: array<nat>)
      requires Valid() && Lengths(sizelist) && Feasible(sizelist)
      requires LengthTables(sizelist, 16) && next_code.Length == 16 && next_code !in Repr()
      requires forall s :: 1 <= s < 16 ==> next_code[s] == FirstCode(sizelist, s)
      requires forall j :: 0 <= j < ZFAST_SIZE ==> fast[j] == 0
      modifies fast, size, value, next_code
      ensures SymbolTables(sizelist, |sizelist|) && FastTable(sizelist, |sizelist|)
    {
      var i := 0;
      while i < |sizelist|
        invariant 0 <= i <= |sizelist|
        invariant forall s :: 1 <= s < 16 ==> next_code[s] == FirstCode(sizelist, s) + Count(sizelist[..i], s)
        invariant SymbolTables(sizelist, i) && FastTable(sizelist, i)
      {
        assert sizelist[..i + 1][..i] == sizelist[..i];
        var s := sizelist[i];
        if s != 0 {
          var c := next_code[s] - firstcode[s] + firstsymbol[s];
          SlotBound(sizelist, i);
          label Before:
          assert c == Slot(sizelist, i);
          EnterSymbol(sizelist, i, c, s);
          if s <= ZFAST_BITS {
            FillFast(sizelist, i, next_code[s], s);
          } else {
            FastEntriesSkip(fast[..], sizelist, i);
          }
          next_code[s] := next_code[s] + 1;
        } else {
          FastEntriesSkip(fast[..], sizelist, i);
        }
        i := i + 1;
      }
    }

    method EnterSymbol(lengths: seq<nat>, i: nat, c: nat, s: nat)
      requires Valid() && Lengths(lengths) && Coded(lengths, i) && s == lengths[i]
      requires c == Slot(lengths, i) < MAX_SYMBOLS && SymbolTables(lengths, i)
      modifies size, value
      ensures SymbolTables(lengths, i + 1)
    {
      size[c] := s;
      value[c] := Uint16(i);
      forall m: nat | m < i && Coded(lengths, m)
        ensures Slot(lengths, m) != c
      {
        SlotInjective(lengths, m, i);
      }
    }

    /** Every index whose low s bits are the reversed code of symbol i resolves to it. */
    method FillFast(ghost lengths: seq<nat>, i: nat, code: nat, s: nat)
      requires Valid() && Feasible(lengths) && Coded(lengths, i) && i < MAX_SYMBOLS
      requires s == lengths[i] <= ZFAST_BITS && code == Code(lengths, i)
      requires FastTable(lengths, i)
      modifies fast
      ensures FastTable(lengths, i + 1)
    {
      var start := BitReverse(code, s);
      BitReverseIsRev(code, s);
      FillStride(fast, start, Pow2(s), FastEntry(s, i));
      FastEntriesStep(old(fast[..]), fast[..], lengths, i);
    }
  }

  /** Writes v at start and at every d-th index after it. */
  method FillStride(a: array<nat>, start: nat, d: nat, v: nat)
    requires start < d
    modifies a
    ensures forall m :: 0 <= m < a.Length ==> a[m] == if m % d == start then v else old(a[m])
  {
    var j := start;
    DivModUnique(start, d, 0, start);
    ghost var was := a[..];
    forall m | 0 <= m < j
      ensures m % d != start
    {
      DivModUnique(m, d, 0, m);
    }
    while j < a.Length
      invariant j % d == start
      invariant forall m :: 0 <= m < a.Length ==> a[m] == if m < j && m % d == start then v else was[m]
      decreases a.Length - j
    {
      a[j] := v;
      NextInStride(j, d);
      j := j + d;
    }
  }

  /** Codes and ranks fit the 16-bit fields they are stored in. */
  lemma FieldsFit(lengths: seq<nat>, s: nat)
    requires Lengths(lengths) && 1 <= s <= MAX_LENGTH
    requires Used(lengths, s - 1) <= Pow2(s - 1)
    ensures Uint16(FirstCode(lengths, s)) == FirstCode(lengths, s)
    ensures Uint16(Shorter(lengths, s)) == Shorter(lengths, s)
  {
    Pow2Values();
    Pow2Mono(s, 15);
    CodedBound(lengths, s);
  }

  lemma NextInStride(j: nat, d: nat)
    requires d > 0
    ensures (j + d) % d == j % d
    ensures forall m :: j < m < j + d ==> m % d != j % d
  {
    DivModUnique(j + d, d, j / d + 1, j % d);
    forall m | j < m < j + d
      ensures m % d != j % d
    {
      if j % d + (m - j) < d {
        DivModUnique(m, d, j / d, j % d + (m - j));
      } else {
        DivModUnique(m, d, j / d + 1, j % d + (m - j) - d);
      }
    }
  }

  /** The streams that start with a code are those with the reversed code in their low bits. */
  lemma MatchesIsStride(m: nat, lengths: seq<nat>, i: nat)
    requires Feasible(lengths) && Coded(lengths, i)
    ensures Matches(m, lengths, i) <==> m % Pow2(lengths[i]) == Rev(Code(lengths, i), lengths[i])
  {
    var s, c := lengths[i], Code(lengths, i);
    CodeFits(lengths, i);
    RevRev(m, s);
    RevRev(c, s);
    DivModUnique(c, Pow2(s), 0, c);
    RevLow(m, s);
  }
}

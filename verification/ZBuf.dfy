/** The bit reader of the inflate decoder and the decoding of one symbol. */
module ZBuf {
  import opened Bits
  import opened Bytes
  import opened Huffman
  import opened HuffmanTable

  const UINT_MAX := 0xFFFF_FFFF

  /** Outcome r of decoding from the buffered bits: a symbol whose code they start with is removed,
      and without such a symbol nothing changes. */
  ghost predicate Decoded(lengths: seq<nat>, code: nat, bits: nat, r: int, code': nat, bits': nat) {
    if r == -1 then code' == code && bits' == bits && forall i: nat :: !Matches(code, lengths, i)
    else 0 <= r < |lengths| && Matches(code, lengths, r) && code' == Shr(code, lengths[r]) && bits' == bits - lengths[r]
  }

  class Reader {
    const zbuffer: seq<Byte>
    var pos: nat
    var num_bits: nat
    var code_buffer: nat

    ghost predicate Valid()
      reads this
    {
      pos <= |zbuffer| && num_bits <= 32 && code_buffer < Pow2(num_bits)
    }

    /** Everything not yet consumed, as one number whose low bits come first.
        Past the end of the input the stream goes on with zeros. */
    ghost function Pending(): nat
      requires Valid()
      reads this
    {
      code_buffer + Pow2(num_bits) * Little(zbuffer[pos..])
    }

    /** Bits that are buffered or still in the input. */
    ghost function Available(): nat
      requires Valid()
      reads this
    {
      num_bits + 8 * (|zbuffer| - pos)
    }

    constructor (input: seq<Byte>)
      ensures Valid() && zbuffer == input && pos == 0 && num_bits == 0
      ensures Pending() == Little(input) && Available() == 8 * |input|
    {
      zbuffer := input;
      pos, num_bits, code_buffer := 0, 0, 0;
    }

    predicate Eof()
      reads this
    {
      pos >= |zbuffer|
    }

    method Get8() returns (b: Byte)
      requires pos <= |zbuffer|
      modifies this`pos
      ensures old(pos) < |zbuffer| ==> b == zbuffer[old(pos)] && pos == old(pos) + 1
      ensures old(pos) == |zbuffer| ==> b == 0 && pos == old(pos)
    {
      if Eof() {
        b := 0;
      } else {
        b := zbuffer[pos];
        pos := pos + 1;
      }
    }

    /** Refilling neither loses nor reorders bits. A buffer with more bits than it should hold
        is treated as the end of the input. */
    method FillBits()
      requires pos <= |zbuffer| && num_bits <= 24
      modifies this
      ensures old(Valid()) ==> Valid() && num_bits > 24 && Pending() == old(Pending())
      ensures old(Valid()) ==> Available() >= old(Available())
      ensures old(Valid()) && Available() > old(Available()) ==> Eof()
      ensures !old(Valid()) ==> pos == |zbuffer| && num_bits == old(num_bits) && code_buffer == old(code_buffer)
    {
      hide Pow2, Shl, Or, Little;
      while true
        invariant pos <= |zbuffer| && num_bits <= 24
        invariant old(Valid()) ==> Valid() && Pending() == old(Pending()) && Available() >= old(Available())
        invariant old(Valid()) && Available() > old(Available()) ==> Eof()
        invariant !old(Valid()) ==> num_bits == old(num_bits) && code_buffer == old(code_buffer)
        decreases 25 - num_bits
      {
        if code_buffer >= Pow2(num_bits) {
          pos := |zbuffer|;
          return;
        }
        NextByte(zbuffer, pos);
        var b := Get8();
        PushByte(code_buffer, num_bits, b, Little(zbuffer[pos..]));
        code_buffer := Or(code_buffer, Shl(b, num_bits));
        num_bits := num_bits + 8;
        if num_bits > 24 {
          break;
        }
      }
    }

    /** Takes the next n bits. */
    method Receive(n: nat) returns (k: nat)
      requires Valid() && n <= 16
      modifies this
      ensures Valid()
      ensures k == old(Pending()) % Pow2(n) && Pending() == Shr(old(Pending()), n)
      ensures Available() >= old(Available()) - n
      ensures Available() > old(Available()) - n ==> Eof()
    {
      if num_bits < n {
        FillBits();
      }
      AndMask(code_buffer, n);
      DropBits(code_buffer, num_bits, n, Little(zbuffer[pos..]));
      k := And(code_buffer, Pow2(n) - 1);
      code_buffer := Shr(code_buffer, n);
      num_bits := num_bits - n;
    }

    /** Decodes one symbol: r is the symbol whose code starts the stream, or -1 when there is none
        or when fewer than 16 bits are left in a used-up input. */
    method Decode(z: ZHuffman, ghost lengths: seq<nat>) returns (r: int)
      requires Valid() && z.Decodes(lengths)
      modifies this
      ensures Valid() && z.Decodes(lengths)
      ensures old(num_bits) < 16 && old(Eof()) ==> r == -1
      ensures r == -1 || 0 <= r < |lengths|
      ensures r >= 0 ==> StartsWith(old(Pending()), lengths, r)
      ensures r >= 0 ==> Pending() == Shr(old(Pending()), lengths[r])
      ensures r >= 0 ==> Available() >= old(Available()) - lengths[r]
      ensures r >= 0 && Available() > old(Available()) - lengths[r] ==> Eof()
      ensures r == -1 ==> Pending() == old(Pending()) && Available() >= old(Available())
      ensures r == -1 && !(old(num_bits) < 16 && old(Eof())) ==>
                forall i: nat :: !StartsWith(old(Pending()), lengths, i)
    {
      hide Pow2, Shr, Rev, Code, Threshold, Feasible, Little, StreamPrefix, CodeString, Lengths,
          ZHuffman.LengthTables, ZHuffman.SymbolTables, ZHuffman.FastTable;
      if num_bits < 16 {
        if Eof() {
          return -1;
        }
        FillBits();
      }
      ghost var rest := Little(zbuffer[pos..]);
      ghost var code, bits := code_buffer, num_bits;
      ghost var stream := code + Pow2(bits) * rest;
      assert stream == old(Pending());
      MatchesPending(code, bits, rest, lengths);
      r := DecodeBuffered(z, lengths);
      if r >= 0 {
        assert Matches(code, lengths, r);
        DropBits(code, bits, lengths[r], rest);
      } else {
        forall i: nat
          ensures !StartsWith(stream, lengths, i)
        {
          assert !Matches(code, lengths, i);
        }
      }
    }

    /** The table lookup, once 16 bits are buffered. */
    method DecodeBuffered(z: ZHuffman, ghost lengths: seq<nat>) returns (r: int)
      requires Valid() && num_bits >= 16 && z.Decodes(lengths)
      modifies this
      ensures Valid() && pos == old(pos)
      ensures Decoded(lengths, old(code_buffer), old(num_bits), r, code_buffer, num_bits)
    {
      hide Pow2, Rev, Code, Threshold;
      FastIndex(code_buffer);
      var b := z.fast[And(code_buffer, ZFAST_SIZE - 1)];
      if b != 0 {
        ghost var i := FastHit(z.fast[..], code_buffer, lengths);
        var s := Shr(b, 9);
        DropBits(code_buffer, num_bits, s, 0);
        code_buffer := Shr(code_buffer, s);
        num_bits := num_bits - s;
        FastIndex(b);
        r := And(b, 511);
      } else {
        FastMiss(z.fast[..], code_buffer, lengths);
        r := DecodeSlowPath(z, lengths);
      }
    }

    /** Searches the code lengths above nine bits. With the tables of an accepted code the two
        range checks at the end never fire: -1 means that no code starts the stream. */
    method DecodeSlowPath(z: ZHuffman, ghost lengths: seq<nat>) returns (r: int)
      requires Valid() && num_bits >= 16 && z.Valid() && z.maxcode[16] == 0x10000
      modifies this
      ensures Valid() && pos == old(pos)
      ensures z.Decodes(lengths) && Threshold(lengths, ZFAST_BITS) <= Rev(old(code_buffer), 16) ==>
                Decoded(lengths, old(code_buffer), old(num_bits), r, code_buffer, num_bits)
    {
      hide Pow2, Shr, Rev, Code, Threshold, Feasible, Lengths, ZHuffman.LengthTables, ZHuffman.SymbolTables,
          ZHuffman.FastTable;
      var k := BitReverse(code_buffer, 16);
      BitReverseIsRev(code_buffer, 16);
      var s, v := LookupLong(z, k, lengths, code_buffer);
      if v < 0 {
        return -1;
      }
      DropBits(code_buffer, num_bits, s, 0);
      code_buffer := Shr(code_buffer, s);
      num_bits := num_bits - s;
      return v;
    }
  }

  /** Length and value of the code at the top of the 16-bit word k. */
  method LookupLong(z: ZHuffman, k: nat, ghost lengths: seq<nat>, ghost code: nat) returns (s: nat, v: int)
    requires z.Valid() && z.maxcode[16] == 0x10000 && k == Rev(code, 16)
    ensures v >= -1 && s <= 16
    ensures z.Decodes(lengths) && Threshold(lengths, ZFAST_BITS) <= k ==>
              if v == -1 then forall i: nat :: !Matches(code, lengths, i)
              else Matches(code, lengths, v) && lengths[v] == s
  {
    ghost var exact := z.Decodes(lengths) && Threshold(lengths, ZFAST_BITS) <= k;
    assert k < 0x10000 by { Pow2Values(); }
    s := FindLength(z, k, lengths);
    if s >= 16 {
      if exact { NoMatchPastEnd(code, lengths); }
      return s, -1;
    }
    ghost var i := 0;
    if exact { i := LongMatch(z, lengths, code, s); }
    var b := Shr(k, 16 - s) - z.firstcode[s] + z.firstsymbol[s];
    if b < 0 || b >= z.size.Length {
      return s, -1;
    }
    if z.size[b] != s {
      return s, -1;
    }
    return s, z.value[b];
  }

  /** The first length above nine bits whose threshold is past k. */
  method FindLength(z: ZHuffman, k: nat, ghost lengths: seq<nat>) returns (s: nat)
    requires z.Valid() && z.maxcode[16] == 0x10000 && k < 0x10000
    ensures ZFAST_BITS < s <= 16 && k < z.maxcode[s]
    ensures z.Decodes(lengths) && Threshold(lengths, ZFAST_BITS) <= k ==> Threshold(lengths, s - 1) <= k
  {
    ghost var exact := z.Decodes(lengths) && Threshold(lengths, ZFAST_BITS) <= k;
    s := ZFAST_BITS + 1;
    while k >= z.maxcode[s]
      invariant ZFAST_BITS + 1 <= s <= 16
      invariant exact ==> Threshold(lengths, s - 1) <= k
      decreases 16 - s
    {
      assert exact ==> LengthEntry(z.firstcode[s], z.firstsymbol[s], z.maxcode[s], lengths, s);
      s := s + 1;
    }
  }

  /** The symbol that the slow path finds at length s. */
  lemma LongMatch(z: ZHuffman, lengths: seq<nat>, code: nat, s: nat) returns (i: nat)
    requires z.Decodes(lengths) && ZFAST_BITS < s <= MAX_LENGTH
    requires Threshold(lengths, s - 1) <= Rev(code, 16) < z.maxcode[s]
    ensures Matches(code, lengths, i) && lengths[i] == s
    ensures 0 <= Shr(Rev(code, 16), 16 - s) - z.firstcode[s] + z.firstsymbol[s] < z.size.Length
    ensures z.size[Shr(Rev(code, 16), 16 - s) - z.firstcode[s] + z.firstsymbol[s]] == s
    ensures z.value[Shr(Rev(code, 16), 16 - s) - z.firstcode[s] + z.firstsymbol[s]] == i
  {
    assert LengthEntry(z.firstcode[s], z.firstsymbol[s], z.maxcode[s], lengths, s);
    i := WordHasSymbol(code, lengths, s);
    RevTop(code, 16, s);
    assert Coded(lengths, i);
  }

  // ---------------------------------------------------------------- arithmetic of the reader

  /** Bit k of byte i is bit 8 * i + k of the stream: bytes in order, each from its least significant bit
      (section 3.1.1 of RFC 1951). */
  lemma {:induction false} StreamBit(data: seq<Byte>, i: nat, k: nat)
    requires i < |data| && k < 8
    ensures Bit(Little(data), 8 * i + k) == Bit(data[i], k)
    decreases data
  {
    Pow2Values();
    BitConcat(data[0], 8, Little(data[1..]), 8 * i + k);
    if i > 0 { StreamBit(data[1..], i - 1, k); }
  }

  /** Past the end of the input the next byte is zero. */
  lemma NextByte(data: seq<Byte>, pos: nat)
    requires pos <= |data|
    ensures pos < |data| ==> Little(data[pos..]) == data[pos] + 256 * Little(data[pos + 1..])
    ensures pos == |data| ==> Little(data[pos..]) == 0
  {
    if pos < |data| { assert data[pos..][1..] == data[pos + 1..]; }
  }

  /** Inserting a byte above the buffered bits. */
  lemma PushByte(code: nat, bits: nat, b: Byte, rest: nat)
    requires code < Pow2(bits)
    ensures Or(code, Shl(b, bits)) < Pow2(bits + 8)
    ensures Or(code, Shl(b, bits)) + Pow2(bits + 8) * rest == code + Pow2(bits) * (b + 256 * rest)
  {
    OrIsSum(b, bits, code);
    OrCommutes(code, Shl(b, bits));
    Pow2Add(bits, 8);
    assert Pow2(8) == 256;
    PushSum(code, Pow2(bits), b, rest);
  }

  lemma PushSum(code: nat, p: nat, b: nat, rest: nat)
    requires code < p && b < 256
    ensures b * p + code < p * 256
    ensures b * p + code + (p * 256) * rest == code + p * (b + 256 * rest)
  {
    MulMono(b, 255, p);
    MoveFactor(p, 256, rest);
    assert p * (b + 256 * rest) == p * b + p * (256 * rest);
  }

  lemma OrCommutes(a: nat, b: nat)
    ensures Or(a, b) == Or(b, a)
  {
    forall k: nat
      ensures Bit(Or(a, b), k) == Bit(Or(b, a), k)
    {
      BitOr(a, b, k);
      BitOr(b, a, k);
    }
    SameBits(Or(a, b), Or(b, a));
  }

  /** Removing n of the buffered bits. */
  lemma DropBits(code: nat, bits: nat, n: nat, rest: nat)
    requires code < Pow2(bits) && n <= bits
    ensures Shr(code, n) < Pow2(bits - n)
    ensures Shr(code + Pow2(bits) * rest, n) == Shr(code, n) + Pow2(bits - n) * rest
    ensures (code + Pow2(bits) * rest) % Pow2(n) == code % Pow2(n)
  {
    ShrIsDiv(code, n);
    ShrIsDiv(code + Pow2(bits) * rest, n);
    Pow2Add(bits - n, n);
    DivLess(code, Pow2(n), Pow2(bits - n));
    SplitProduct(code, Pow2(bits - n), Pow2(n), rest);
  }

  lemma SplitProduct(code: nat, p: nat, q: nat, rest: nat)
    requires q > 0
    ensures (code + (p * q) * rest) / q == code / q + p * rest
    ensures (code + (p * q) * rest) % q == code % q
  {
    var a := code / q;
    DivMod(code, q);
    assert (p * q) * rest == (p * rest) * q;
    assert (a + p * rest) * q == a * q + (p * rest) * q;
    DivModUnique(code + (p * q) * rest, q, a + p * rest, code % q);
  }

  lemma MatchesLow(a: nat, b: nat, w: nat, lengths: seq<nat>, i: nat)
    requires a % Pow2(w) == b % Pow2(w)
    requires Coded(lengths, i) ==> lengths[i] <= w
    ensures Matches(a, lengths, i) == Matches(b, lengths, i)
  {
    if Coded(lengths, i) {
      var s := lengths[i];
      ModLow(a, b, s, w);
      RevLow(a, s);
      RevLow(b, s);
    }
  }

  lemma ModLow(a: nat, b: nat, s: nat, w: nat)
    requires s <= w && a % Pow2(w) == b % Pow2(w)
    ensures a % Pow2(s) == b % Pow2(s)
  {
    forall k: nat
      ensures Bit(a % Pow2(s), k) == Bit(b % Pow2(s), k)
    {
      BitMod(a, s, k);
      BitMod(b, s, k);
      BitMod(a, w, k);
      BitMod(b, w, k);
    }
    SameBits(a % Pow2(s), b % Pow2(s));
  }

  /** With enough bits buffered, the buffer decides which code starts the stream. */
  lemma MatchPending(code: nat, bits: nat, rest: nat, lengths: seq<nat>, i: nat, w: nat)
    requires code < Pow2(bits) && w <= bits && Feasible(lengths)
    requires Coded(lengths, i) ==> lengths[i] <= w
    ensures Matches(code, lengths, i) == StartsWith(code + Pow2(bits) * rest, lengths, i)
  {
    DropBits(code, bits, w, rest);
    MatchesLow(code, code + Pow2(bits) * rest, w, lengths, i);
    MatchesIsStartsWith(code + Pow2(bits) * rest, lengths, i);
  }

  lemma MatchesPending(code: nat, bits: nat, rest: nat, lengths: seq<nat>)
    requires code < Pow2(bits) && bits >= 16 && Feasible(lengths)
    ensures forall i: nat :: Matches(code, lengths, i) == StartsWith(code + Pow2(bits) * rest, lengths, i)
  {
    forall i: nat
      ensures Matches(code, lengths, i) == StartsWith(code + Pow2(bits) * rest, lengths, i)
    {
      MatchPending(code, bits, rest, lengths, i, bits);
    }
  }

  lemma FastIndex(n: nat)
    ensures And(n, 511) == n % 512
  {
    assert Pow2(9) == 512 by { Pow2Values(); }
    AndMask(n, 9);
  }

  lemma FastHit(table: seq<nat>, code: nat, lengths: seq<nat>) returns (i: nat)
    requires |table| == ZFAST_SIZE && FastEntries(table, lengths, |lengths|)
    requires Lengths(lengths) && table[code % 512] != 0
    ensures Matches(code, lengths, i) && lengths[i] <= ZFAST_BITS
    ensures Shr(table[code % 512], 9) == lengths[i] && table[code % 512] % 512 == i
  {
    var j, w := code % 512, ZFAST_BITS;
    assert FastEntryFor(table[j], j, lengths, |lengths|);
    i :| i < |lengths| && Matches(j, lengths, i) && lengths[i] <= w && table[j] == FastEntry(lengths[i], i);
    assert Pow2(w) == 512 by { Pow2Values(); }
    EntryParts(lengths[i], i, w);
    SameLowBits(code, w);
    MatchesLow(j, code, w, lengths, i);
  }

  lemma EntryParts(s: nat, i: nat, w: nat)
    requires Pow2(w) == 512 && s <= ZFAST_BITS && i < MAX_SYMBOLS
    ensures Shr(FastEntry(s, i), w) == s && FastEntry(s, i) % 512 == i
  {
    FastEntryValue(s, i);
    ShrIsDiv(FastEntry(s, i), w);
  }

  lemma SameLowBits(code: nat, w: nat)
    requires w == ZFAST_BITS
    ensures (code % 512) % Pow2(w) == code % Pow2(w)
  {
    assert Pow2(w) == 512 by { Pow2Values(); }
  }

  /** A miss means that the stream is past all codes of at most nine bits. */
  lemma FastMiss(table: seq<nat>, code: nat, lengths: seq<nat>)
    requires |table| == ZFAST_SIZE && FastEntries(table, lengths, |lengths|)
    requires table[code % 512] == 0
    ensures Threshold(lengths, ZFAST_BITS) <= Rev(code, 16)
  {
    var j, w := code % 512, ZFAST_BITS;
    assert FastEntryFor(table[j], j, lengths, |lengths|);
    SameLowBits(code, w);
    forall i: nat | Matches(code, lengths, i)
      ensures lengths[i] > w
    {
      if lengths[i] <= w { MatchesLow(j, code, w, lengths, i); }
    }
    PastShortCodes(code, lengths, w);
  }

  lemma {:induction false} PastShortCodes(code: nat, lengths: seq<nat>, s: nat)
    requires s <= MAX_LENGTH
    requires forall i: nat :: Matches(code, lengths, i) ==> lengths[i] > s
    ensures Threshold(lengths, s) <= Rev(code, 16)
  {
    if s > 0 {
      PastShortCodes(code, lengths, s - 1);
      if Rev(code, 16) < Threshold(lengths, s) {
        var i := WordHasSymbol(code, lengths, s);
      }
    }
  }

  lemma NoMatchPastEnd(code: nat, lengths: seq<nat>)
    requires Threshold(lengths, MAX_LENGTH) <= Rev(code, 16)
    ensures forall i: nat :: !Matches(code, lengths, i)
  {
    forall i: nat
      ensures !Matches(code, lengths, i)
    {
      if Matches(code, lengths, i) {
        MatchInLength(code, lengths, i);
        ThresholdMono(lengths, lengths[i], MAX_LENGTH);
      }
    }
  }
}

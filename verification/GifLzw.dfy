/** LZW as GIF uses it (Appendix F of the GIF89a Specification). The decoder is given on strings; the encodings
    it must invert are given without it. */
module GifLzw {
  import opened Bits
  import opened Bytes

  /** Entries the program's table holds, and entries 12-bit codes can name. */
  const MAX_CODES := 8192
  const MAX_NAMED := 4096

  /** What a run of codes gives: the symbols and whether the run met no illegal code. */
  datatype Output = Output(symbols: seq<Byte>, ok: bool)

  /** Outcome of one code. */
  datatype Step = Emit(next: Lzw, symbols: seq<Byte>) | End | Illegal

  /** size is the number of bits of a symbol, dict[c] the string of code c, last the code before this one
      or -1 after a clear code, started whether a clear code was seen. */
  datatype Lzw = Lzw(size: nat, dict: seq<seq<Byte>>, last: int, started: bool) {

    function Clear(): nat {
      Pow2(size)
    }

    predicate Control(c: int) {
      c == Clear() || c == Clear() + 1
    }

    ghost predicate Valid() {
      size <= 12 && Clear() + 2 <= |dict| <= MAX_CODES &&
      (forall c :: 0 <= c < |dict| && !Control(c) ==> dict[c] != []) &&
      (last == -1 ==> |dict| == Clear() + 2) && -1 <= last < |dict| && !Control(last)
    }

    /** What one code means. */
    function Read(c: nat): Step
      requires Valid()
    {
      if c == Clear() then Emit(Lzw(size, InitialDict(Clear()), -1, true), [])
      else if c == Clear() + 1 then End
      else if c > |dict| || !started then Illegal
      else if last == -1 then
        if c < |dict| then Emit(this.(last := c), dict[c]) else Illegal
      else if |dict| == MAX_CODES then Illegal
      else
        var head := if c < |dict| then dict[c] else dict[last];
        var dict' := dict + [dict[last] + [head[0]]];
        Emit(Lzw(size, dict', c, true), dict'[c])
    }
  }

  function InitialDict(clear: nat): (d: seq<seq<Byte>>)
    ensures |d| == clear + 2
    ensures forall c :: 0 <= c < clear ==> d[c] == [c % 256]
  {
    seq(clear + 2, c requires 0 <= c => if c < clear then [c % 256] else [])
  }

  lemma SizeBound(size: nat)
    requires size <= 12
    ensures Pow2(size) <= 4096 && (size >= 1 ==> Pow2(size) >= 2) && (size <= 11 ==> Pow2(size) <= 2048)
    ensures Pow2(size + 1) == 2 * Pow2(size)
  {
    Pow2Values();
    Pow2Mono(size, 12);
    if size >= 1 { Pow2Mono(1, size); }
    if size <= 11 { Pow2Mono(size, 11); }
  }

  function Start(size: nat, started: bool): (s: Lzw)
    ensures size <= 12 ==> s.Valid()
  {
    if size <= 12 then SizeBound(size); Lzw(size, InitialDict(Pow2(size)), -1, started)
    else Lzw(size, InitialDict(Pow2(size)), -1, started)
  }

  /** Which codes mean what: the clear code starts over; before it, past the next entry, at the next entry without a
      code before, or with a full table a code is an error; any other code gives its string, or for the next entry the
      string before with its first symbol again. */
  lemma CodeMeaning(s: Lzw, c: nat)
    requires s.Valid()
    ensures s.Read(c).End? <==> c == Pow2(s.size) + 1
    ensures s.Read(c).Illegal? <==>
            !s.Control(c) && (!s.started || c > |s.dict| || (s.last == -1 && c == |s.dict|) ||
                              (s.last != -1 && |s.dict| == 8192))
    ensures s.Read(c).Emit? && c == Pow2(s.size) ==>
              s.Read(c).symbols == [] && s.Read(c).next == Lzw(s.size, InitialDict(Pow2(s.size)), -1, true)
    ensures s.Read(c).Emit? && c != Pow2(s.size) ==>
              s.Read(c).symbols == (if c < |s.dict| then s.dict[c] else s.dict[s.last] + [s.dict[s.last][0]]) &&
              s.Read(c).next.last == c &&
              s.Read(c).next.dict ==
              if s.last == -1 then s.dict else s.dict + [s.dict[s.last] + [s.Read(c).symbols[0]]]
  {
  }

  lemma ReadKeepsValid(s: Lzw, c: nat)
    requires s.Valid() && s.Read(c).Emit?
    ensures s.Read(c).next.Valid() && s.Read(c).next.size == s.size
  {
    SizeBound(s.size);
  }

  function Run(s: Lzw, codes: seq<nat>): Output
    requires s.Valid()
    decreases |codes|
  {
    if codes == [] then Output([], true)
    else
      match s.Read(codes[0])
      case End => Output([], true)
      case Illegal => Output([], false)
      case Emit(next, symbols) =>
        ReadKeepsValid(s, codes[0]);
        After(symbols, Run(next, codes[1..]))
  }

  // ---------------------------------------------------------------- the encodings of an input

  function Learn(dict: seq<seq<Byte>>, s: seq<Byte>): seq<seq<Byte>> {
    if |dict| < MAX_NAMED then dict + [s] else dict
  }

  /** The codes spell the input over a dictionary that learns, after each code, the code's string and the next
      input symbol until it holds 4096 strings. Any choice of matching codes is allowed, not only the longest,
      and so is a clear code anywhere, a deferred one included. The end code comes last. */
  ghost predicate Spells(clear: nat, dict: seq<seq<Byte>>, input: seq<Byte>, codes: seq<nat>)
    decreases |codes|
  {
    codes != [] &&
    var c := codes[0];
    if c == clear then Spells(clear, InitialDict(clear), input, codes[1..])
    else if c == clear + 1 then input == [] && codes == [c]
    else
      c < |dict| && dict[c] != [] && dict[c] <= input &&
      var rest := input[|dict[c]|..];
      Spells(clear, if rest == [] then dict else Learn(dict, dict[c] + [rest[0]]), rest, codes[1..])
  }

  /** Codes that may follow a clear code before the program's table is full: the first of them adds no entry. */
  function Budget(clear: nat): int {
    MAX_CODES - (clear + 2) + 1
  }

  /** No more than left codes before the next clear code, and never more than Budget between two of them. */
  predicate WithinBudget(clear: nat, codes: seq<nat>, left: int)
    decreases |codes|
  {
    codes == [] || codes[0] == clear + 1 ||
    if codes[0] == clear then WithinBudget(clear, codes[1..], Budget(clear))
    else left > 0 && WithinBudget(clear, codes[1..], left - 1)
  }

  /** The decoder is one entry behind the encoder. */
  ghost predicate Follows(s: Lzw, encoder: seq<seq<Byte>>, input: seq<Byte>)
    requires s.Valid()
  {
    s.started && s.size <= 11 &&
    (input != [] ==> encoder == if s.last == -1 then s.dict else Capped(s.dict + [s.dict[s.last] + [input[0]]]))
  }

  function Capped(dict: seq<seq<Byte>>): seq<seq<Byte>> {
    if |dict| <= MAX_NAMED then dict else dict[..MAX_NAMED]
  }

  function Left(s: Lzw): int {
    MAX_CODES - |s.dict| + if s.last == -1 then 1 else 0
  }

  /** A matching code makes the decoder emit what the encoder matched and catch up with it, the code of
      the entry being learnt included. */
  lemma FollowStep(s: Lzw, encoder: seq<seq<Byte>>, input: seq<Byte>, c: nat)
    requires s.Valid() && Follows(s, encoder, input) && !s.Control(c)
    requires c < |encoder| && encoder[c] != [] && encoder[c] <= input
    ensures Left(s) > 0 <==> s.Read(c).Emit?
    ensures Left(s) <= 0 <==> s.Read(c).Illegal?
    ensures Left(s) > 0 ==>
      var rest, next := input[|encoder[c]|..], s.Read(c).next;
      s.Read(c).symbols == encoder[c] && next.Valid() && Left(next) == Left(s) - 1 && next.size == s.size &&
      Follows(next, if rest == [] then encoder else Learn(encoder, encoder[c] + [rest[0]]), rest)
  {
    assert encoder[c][0] == input[0];
    SizeBound(s.size);
    if Left(s) > 0 {
      ReadKeepsValid(s, c);
      if s.last != -1 {
        assert s.Read(c).next.dict == s.dict + [s.dict[s.last] + [input[0]]];
      }
    }
  }

  /** One code further the decoder still follows the encoder. */
  lemma NextSpelling(s: Lzw, encoder: seq<seq<Byte>>, input: seq<Byte>, codes: seq<nat>)
      returns (encoder': seq<seq<Byte>>, input': seq<Byte>)
    requires s.Valid() && Follows(s, encoder, input) && Spells(s.Clear(), encoder, input, codes)
    requires s.Read(codes[0]).Emit?
    ensures input == s.Read(codes[0]).symbols + input'
    ensures s.Read(codes[0]).next.Valid() && Follows(s.Read(codes[0]).next, encoder', input')
    ensures Spells(s.Clear(), encoder', input', codes[1..])
    ensures codes[0] != s.Clear() ==> Left(s) > 0 && Left(s.Read(codes[0]).next) == Left(s) - 1
    ensures codes[0] == s.Clear() ==> Left(s.Read(codes[0]).next) == Budget(s.Clear())
  {
    var c := codes[0];
    ReadKeepsValid(s, c);
    if c == s.Clear() {
      encoder', input' := InitialDict(c), input;
    } else {
      FollowStep(s, encoder, input, c);
      input' := input[|encoder[c]|..];
      encoder' := if input' == [] then encoder else Learn(encoder, encoder[c] + [input'[0]]);
    }
  }

  /** Decoding inverts encoding, exactly when no more codes stand between two clear codes than the
      program's table can learn from; otherwise it reports an error. */
  lemma {:induction false} RunSpelled(s: Lzw, encoder: seq<seq<Byte>>, input: seq<Byte>, codes: seq<nat>)
    requires s.Valid() && Follows(s, encoder, input) && Spells(s.Clear(), encoder, input, codes)
    ensures WithinBudget(s.Clear(), codes, Left(s)) ==> Run(s, codes) == Output(input, true)
    ensures !WithinBudget(s.Clear(), codes, Left(s)) ==> !Run(s, codes).ok
    decreases |codes|
  {
    if s.Read(codes[0]).Emit? {
      var encoder', input' := NextSpelling(s, encoder, input, codes);
      RunSpelled(s.Read(codes[0]).next, encoder', input', codes[1..]);
    } else if codes[0] != s.Clear() + 1 {
      FollowStep(s, encoder, input, codes[0]);
    }
  }

  // ---------------------------------------------------------------- codes as bits

  /** The low w bits of v. */
  function Low(v: nat, w: nat): nat {
    if w == 0 then 0 else v % 2 + 2 * Low(v / 2, w - 1)
  }

  lemma {:induction false} LowIsMod(v: nat, w: nat)
    ensures Low(v, w) == v % Pow2(w)
  {
    if w > 0 {
      LowIsMod(v / 2, w - 1);
      ModStep(v, Pow2(w - 1));
    }
  }

  /** How the program widens its codes. */
  function Grow(width: nat, entries: nat): nat {
    if Low(entries, width) == 0 && entries <= 0x0FFF then width + 1 else width
  }

  function NextWidth(s: Lzw, width: nat, c: nat): nat
    requires s.Valid() && s.Read(c).Emit?
  {
    if c == s.Clear() then s.size + 1 else Grow(width, |s.Read(c).next.dict|)
  }

  /** The low w bits of c, then rest. */
  function Append(c: nat, w: nat, rest: nat): nat {
    if w == 0 then rest else c % 2 + 2 * Append(c / 2, w - 1, rest)
  }

  lemma {:induction false} TakeCode(c: nat, w: nat, rest: nat)
    requires c < Pow2(w)
    ensures Low(Append(c, w, rest), w) == c && Shr(Append(c, w, rest), w) == rest
  {
    if w > 0 { TakeCode(c / 2, w - 1, rest); }
  }

  lemma {:induction false} AppendIsSum(c: nat, w: nat, rest: nat)
    requires c < Pow2(w)
    ensures Append(c, w, rest) == c + Pow2(w) * rest
  {
    if w > 0 { AppendIsSum(c / 2, w - 1, rest); }
  }

  /** Decoding n bits held in v, first bit least significant. */
  function RunBits(s: Lzw, width: nat, v: nat, n: nat): Output
    requires s.Valid() && width > 0
    decreases n, 1
  {
    if n < width then Output([], true) else RunCode(s, width, Low(v, width), Shr(v, width), n - width)
  }

  /** Decoding a code of the given width, then n bits held in v. */
  function RunCode(s: Lzw, width: nat, c: nat, v: nat, n: nat): Output
    requires s.Valid() && width > 0
    decreases n + width, 0
  {
    match s.Read(c)
    case End => Output([], true)
    case Illegal => Output([], false)
    case Emit(next, symbols) =>
      ReadKeepsValid(s, c);
      After(symbols, RunBits(next, NextWidth(s, width, c), v, n))
  }

  function After(symbols: seq<Byte>, rest: Output): Output {
    Output(symbols + rest.symbols, rest.ok)
  }

  lemma OneCode(s: Lzw, w: nat, c: nat, rest: nat, n: nat)
    requires s.Valid() && w > 0 && c < Pow2(w)
    ensures RunBits(s, w, Append(c, w, rest), w + n) == RunCode(s, w, c, rest, n)
  {
    TakeCode(c, w, rest);
  }

  /** A code read from bits and the same code read from a list agree when what follows agrees. */
  lemma SameCode(s: Lzw, w: nat, codes: seq<nat>, v: nat, n: nat)
    requires s.Valid() && w > 0 && codes != []
    requires s.Read(codes[0]).Emit? ==> s.Read(codes[0]).next.Valid()
    requires s.Read(codes[0]).Emit? ==>
               RunBits(s.Read(codes[0]).next, NextWidth(s, w, codes[0]), v, n) == Run(s.Read(codes[0]).next, codes[1..])
    ensures RunCode(s, w, codes[0], v, n) == Run(s, codes)
  {
  }

  /** The smallest width from w up to 12 that can hold the number of entries. */
  function Width(w: nat, entries: nat): (r: nat)
    ensures w <= r && (w <= 12 ==> r <= 12)
    decreases 12 - w
  {
    if w >= 12 || entries < Pow2(w) then w else Width(w + 1, entries)
  }

  lemma {:induction false} WidthHolds(w: nat, entries: nat)
    requires w <= 12
    ensures entries < Pow2(Width(w, entries)) || Width(w, entries) == 12
    decreases 12 - w
  {
    if w < 12 && entries >= Pow2(w) { WidthHolds(w + 1, entries); }
  }

  /** Widening by one when the count reaches a power of two keeps the width smallest, for every symbol size
      from 2 bits on. */
  lemma {:induction false} GrowIsWidth(w: nat, entries: nat)
    requires 1 <= w <= 12 && entries > 0
    ensures Width(w, entries) == w && entries < Pow2(w) ==> Grow(w, entries + 1) == Width(w, entries + 1)
    ensures Grow(Width(w, entries), entries + 1) == Width(w, entries + 1)
    decreases 12 - w
  {
    Pow2Values();
    Pow2Mono(w, 12);
    if entries < Pow2(w) {
      GrowAtWidth(w, entries + 1);
    } else if w < 12 {
      GrowIsWidth(w + 1, entries);
    }
  }

  lemma LowZero(n: nat, w: nat)
    requires 0 < n <= Pow2(w)
    ensures Low(n, w) == 0 <==> n == Pow2(w)
  {
    LowIsMod(n, w);
    if n == Pow2(w) { DivModUnique(n, Pow2(w), 1, 0); } else { DivModUnique(n, Pow2(w), 0, n); }
  }

  lemma GrowAtWidth(w: nat, entries: nat)
    requires 1 <= w <= 12 && 0 < entries <= Pow2(w)
    ensures Grow(w, entries) == Width(w, entries)
  {
    LowZero(entries, w);
    Pow2Values();
    Pow2Mono(w, 12);
    if w < 12 {
      Pow2Mono(w, 11);
      Pow2Mono(w, w + 1);
      if entries == Pow2(w) {
        assert entries < Pow2(w + 1);
        assert Width(w, entries) == w + 1;
      }
    } else {
      assert Width(w, entries) == w;
    }
  }

  lemma FirstGrow(size: nat)
    requires 2 <= size <= 12
    ensures Grow(size + 1, Pow2(size) + 2) == size + 1 == Width(size + 1, Pow2(size) + 2)
    ensures Pow2(size) + 2 < Pow2(size + 1)
  {
    Pow2Values();
    Pow2Mono(2, size);
    LowZero(Pow2(size) + 2, size + 1);
  }

  /** Entries the table has before a code that follows k others since the last clear code. */
  function Entries(clear: nat, k: nat): nat {
    clear + 2 + if k == 0 then 0 else k - 1
  }

  /** The encoder's output: each code in the smallest width for the entries learnt so far, then the bits of
      tail. */
  function Pack(size: nat, k: nat, codes: seq<nat>, tail: nat): nat
    decreases |codes|
  {
    if codes == [] then tail
    else
      Append(codes[0], Width(size + 1, Entries(Pow2(size), k)),
             Pack(size, if codes[0] == Pow2(size) then 0 else k + 1, codes[1..], tail))
  }

  function PackedBits(size: nat, k: nat, codes: seq<nat>): nat
    decreases |codes|
  {
    if codes == [] then 0
    else
      Width(size + 1, Entries(Pow2(size), k)) +
      PackedBits(size, if codes[0] == Pow2(size) then 0 else k + 1, codes[1..])
  }

  /** The decoder has read k codes since the last clear code. */
  ghost predicate AfterCodes(s: Lzw, k: nat) {
    |s.dict| == Entries(Pow2(s.size), k) && (s.last == -1 <==> k == 0)
  }

  /** Every code of a spelling fits its width. */
  lemma CodeFits(s: Lzw, encoder: seq<seq<Byte>>, input: seq<Byte>, codes: seq<nat>)
    requires s.Valid() && 2 <= s.size && Follows(s, encoder, input) && Spells(s.Clear(), encoder, input, codes)
    ensures codes[0] < Pow2(Width(s.size + 1, |s.dict|))
  {
    var w := Width(s.size + 1, |s.dict|);
    WidthHolds(s.size + 1, |s.dict|);
    FirstGrow(s.size);
    Pow2Mono(s.size + 1, w);
    Pow2Values();
    if !s.Control(codes[0]) { CodeInTable(s, encoder, input, codes[0]); }
  }

  lemma CodeInTable(s: Lzw, encoder: seq<seq<Byte>>, input: seq<Byte>, c: nat)
    requires s.Valid() && Follows(s, encoder, input) && c < |encoder| && encoder[c] != [] && encoder[c] <= input
    ensures c <= |s.dict| && c < MAX_NAMED
    ensures s.last == -1 ==> c < |s.dict|
  {
    SizeBound(s.size);
  }

  /** The program's width after a code is the encoder's. */
  lemma WidthFollows(s: Lzw, k: nat, c: nat)
    requires s.Valid() && 2 <= s.size <= 11 && AfterCodes(s, k) && s.Read(c).Emit?
    ensures var k' := if c == s.Clear() then 0 else k + 1;
      s.Read(c).next.size == s.size && AfterCodes(s.Read(c).next, k') &&
      NextWidth(s, Width(s.size + 1, Entries(s.Clear(), k)), c) == Width(s.size + 1, Entries(s.Clear(), k'))
  {
    hide Width, Pow2, Grow;
    FirstGrow(s.size);
    if c != s.Clear() && k > 0 { GrowIsWidth(s.size + 1, |s.dict|); }
  }

  /** Decoding the packed codes, then any further bits. */
  ghost function RunPack(s: Lzw, k: nat, codes: seq<nat>, tail: nat, extra: nat): Output
    requires s.Valid()
  {
    RunBits(s, Width(s.size + 1, Entries(s.Clear(), k)), Pack(s.size, k, codes, tail),
        PackedBits(s.size, k, codes) + extra)
  }

  lemma PackStep(size: nat, k: nat, codes: seq<nat>, tail: nat)
    requires codes != []
    ensures var w, k' := Width(size + 1, Entries(Pow2(size), k)), if codes[0] == Pow2(size) then 0 else k + 1;
      Pack(size, k, codes, tail) == Append(codes[0], w, Pack(size, k', codes[1..], tail)) &&
      PackedBits(size, k, codes) == w + PackedBits(size, k', codes[1..])
  {
  }

  /** Decoding the packed codes takes the first code. */
  lemma RunPackStep(s: Lzw, k: nat, codes: seq<nat>, tail: nat, extra: nat)
    requires s.Valid() && 2 <= s.size <= 11 && AfterCodes(s, k)
    requires codes != [] && codes[0] < Pow2(Width(s.size + 1, Entries(s.Clear(), k)))
    ensures var k' := if codes[0] == s.Clear() then 0 else k + 1;
      RunPack(s, k, codes, tail, extra) ==
      RunCode(s, Width(s.size + 1, Entries(s.Clear(), k)), codes[0], Pack(s.size, k', codes[1..], tail),
              PackedBits(s.size, k', codes[1..]) + extra)
  {
    hide Pack, PackedBits, RunBits, RunCode, Width, AfterCodes, Pow2;
    PackStep(s.size, k, codes, tail);
    var k' := if codes[0] == s.Clear() then 0 else k + 1;
    OneCode(s, Width(s.size + 1, Entries(s.Clear(), k)), codes[0], Pack(s.size, k', codes[1..], tail),
            PackedBits(s.size, k', codes[1..]) + extra);
  }

  /** Every code up to the end code fits its width. */
  ghost predicate Fits(s: Lzw, k: nat, codes: seq<nat>)
    requires s.Valid()
    decreases |codes|
  {
    codes != [] && codes[0] < Pow2(Width(s.size + 1, Entries(s.Clear(), k))) &&
    (s.Read(codes[0]).Emit? ==>
      s.Read(codes[0]).next.Valid() &&
      Fits(s.Read(codes[0]).next, if codes[0] == s.Clear() then 0 else k + 1, codes[1..]))
  }

  lemma {:induction false} SpellingFits(s: Lzw, k: nat, encoder: seq<seq<Byte>>, input: seq<Byte>, codes: seq<nat>)
    requires s.Valid() && 2 <= s.size && AfterCodes(s, k)
    requires Follows(s, encoder, input) && Spells(s.Clear(), encoder, input, codes)
    ensures Fits(s, k, codes)
    decreases |codes|
  {
    CodeFits(s, encoder, input, codes);
    if s.Read(codes[0]).Emit? {
      var encoder', input' := NextSpelling(s, encoder, input, codes);
      WidthFollows(s, k, codes[0]);
      SpellingFits(s.Read(codes[0]).next, if codes[0] == s.Clear() then 0 else k + 1, encoder', input', codes[1..]);
    }
  }

  /** What follows the first code is the packed rest, read at the right width. */
  lemma RestOfPack(s: Lzw, k: nat, codes: seq<nat>, tail: nat, extra: nat)
    requires s.Valid() && 2 <= s.size <= 11 && AfterCodes(s, k) && codes != [] && s.Read(codes[0]).Emit?
    ensures s.Read(codes[0]).next.Valid() && s.Read(codes[0]).next.size == s.size
    ensures var k' := if codes[0] == s.Clear() then 0 else k + 1;
      AfterCodes(s.Read(codes[0]).next, k') && NextWidth(s, Width(s.size + 1, Entries(s.Clear(), k)), codes[0]) > 0 &&
      RunBits(s.Read(codes[0]).next, NextWidth(s, Width(s.size + 1, Entries(s.Clear(), k)), codes[0]),
              Pack(s.size, k', codes[1..], tail), PackedBits(s.size, k', codes[1..]) + extra) ==
      RunPack(s.Read(codes[0]).next, k', codes[1..], tail, extra)
  {
    hide RunBits, Pack, PackedBits, Grow;
    ReadKeepsValid(s, codes[0]);
    WidthFollows(s, k, codes[0]);
  }

  /** Reading packed codes that fit, whatever bits follow, is reading the codes. */
  lemma {:induction false} RunPacked(s: Lzw, k: nat, codes: seq<nat>, tail: nat, extra: nat)
    requires s.Valid() && 2 <= s.size <= 11 && AfterCodes(s, k) && Fits(s, k, codes)
    ensures RunPack(s, k, codes, tail, extra) == Run(s, codes)
    decreases |codes|
  {
    hide *;
    FirstFits(s, k, codes);
    var w, k' := Width(s.size + 1, Entries(s.Clear(), k)), if codes[0] == s.Clear() then 0 else k + 1;
    var rest, n := Pack(s.size, k', codes[1..], tail), PackedBits(s.size, k', codes[1..]) + extra;
    if s.Read(codes[0]).Emit? {
      RestOfPack(s, k, codes, tail, extra);
      RunPacked(s.Read(codes[0]).next, k', codes[1..], tail, extra);
    }
    RunPackStep(s, k, codes, tail, extra);
    SameCode(s, w, codes, rest, n);
  }

  lemma FirstFits(s: Lzw, k: nat, codes: seq<nat>)
    requires s.Valid() && Fits(s, k, codes)
    ensures codes != [] && codes[0] < Pow2(Width(s.size + 1, Entries(s.Clear(), k)))
    ensures s.Read(codes[0]).Emit? ==>
              s.Read(codes[0]).next.Valid() &&
              Fits(s.Read(codes[0]).next, if codes[0] == s.Clear() then 0 else k + 1, codes[1..])
  {
  }

  /** A first clear code makes no difference between a run that saw one before and one that did not. */
  lemma FirstClear(s: Lzw, t: Lzw, codes: seq<nat>, tail: nat, extra: nat)
    requires s.Valid() && t.Valid() && s.size == t.size && 2 <= s.size <= 11 && AfterCodes(s, 0) && AfterCodes(t, 0)
    requires codes != [] && codes[0] == s.Clear() && codes[0] < Pow2(Width(s.size + 1, Entries(s.Clear(), 0)))
    ensures RunPack(s, 0, codes, tail, extra) == RunPack(t, 0, codes, tail, extra)
  {
    hide RunPack, RunCode, Pack, PackedBits, Width;
    RunPackStep(s, 0, codes, tail, extra);
    RunPackStep(t, 0, codes, tail, extra);
    SameStart(s, t, Width(s.size + 1, Entries(s.Clear(), 0)), codes[0], Pack(s.size, 0, codes[1..], tail),
        PackedBits(s.size, 0, codes[1..]) + extra);
  }

  lemma SameStart(s: Lzw, t: Lzw, w: nat, c: nat, v: nat, n: nat)
    requires s.Valid() && t.Valid() && w > 0 && s.size == t.size && c == s.Clear()
    ensures RunCode(s, w, c, v, n) == RunCode(t, w, c, v, n)
  {
    assert s.Read(c) == t.Read(c);
  }

  /** Decoding the bits of any encoding that starts with a clear code gives the input back, exactly when the
      encoding stays within the budget; otherwise it is reported as an error. */
  lemma DecodePacked(size: nat, input: seq<Byte>, codes: seq<nat>, tail: nat, extra: nat)
    requires 2 <= size <= 11 && codes != [] && codes[0] == Pow2(size)
    requires Spells(Pow2(size), InitialDict(Pow2(size)), input, codes)
    ensures var r := RunBits(Start(size, false), size + 1, Pack(size, 0, codes, tail),
        PackedBits(size, 0, codes) + extra);
      if WithinBudget(Pow2(size), codes, 0) then r == Output(input, true) else !r.ok
  {
    StartPack(size, codes, tail, extra);
    StartedPack(size, input, codes, tail, extra);
  }

  /** The program starts with codes one bit wider than a symbol. */
  lemma StartPack(size: nat, codes: seq<nat>, tail: nat, extra: nat)
    requires 2 <= size <= 11
    ensures RunBits(Start(size, false), size + 1, Pack(size, 0, codes, tail), PackedBits(size, 0, codes) + extra) ==
            RunPack(Start(size, false), 0, codes, tail, extra)
  {
    hide RunBits, Pack, PackedBits, Grow, Width;
    FirstWidth(size);
  }

  lemma FirstWidth(size: nat)
    requires 2 <= size <= 11
    ensures Width(size + 1, Entries(Pow2(size), 0)) == size + 1
  {
    FirstGrow(size);
  }

  lemma StartedPack(size: nat, input: seq<Byte>, codes: seq<nat>, tail: nat, extra: nat)
    requires 2 <= size <= 11 && codes != [] && codes[0] == Pow2(size)
    requires Spells(Pow2(size), InitialDict(Pow2(size)), input, codes)
    ensures var r := RunPack(Start(size, false), 0, codes, tail, extra);
      if WithinBudget(Pow2(size), codes, 0) then r == Output(input, true) else !r.ok
  {
    var s, t, dict := Start(size, false), Start(size, true), InitialDict(Pow2(size));
    FirstGrow(size);
    hide RunPack, Run, WithinBudget, Spells, Width, Grow, Fits;
    FirstClear(s, t, codes, tail, extra);
    SpellingFits(t, 0, dict, input, codes);
    RunPacked(t, 0, codes, tail, extra);
    RunSpelled(t, dict, input, codes);
    BudgetAfterClear(Pow2(size), codes, 0, Left(t));
  }

  lemma BudgetAfterClear(clear: nat, codes: seq<nat>, a: int, b: int)
    requires codes != [] && codes[0] == clear
    ensures WithinBudget(clear, codes, a) == WithinBudget(clear, codes, b)
  {
  }
}

/** The GIF raster decoder: the code table, the cursor and the loop over the sub-blocks of a frame. */
module Gif {
  import opened Bits
  import opened Bytes
  import opened HuffmanTable
  import opened ZBuf
  import opened GifLzw
  import F = GifFrame

  const TABLE_SIZE := 8192

  // ---------------------------------------------------------------- the data of a frame

  /** The byte at a position; past the end the program reads zeros and stays. */
  function At(data: seq<Byte>, pos: nat): Byte {
    if pos < |data| then data[pos] else 0
  }

  function Bump(data: seq<Byte>, pos: nat): nat {
    if pos < |data| then pos + 1 else pos
  }

  function Rest(data: seq<Byte>, pos: nat): nat {
    if pos < |data| then |data| - pos else 0
  }

  /** The bytes of a chain of sub-blocks, read from inside a block that has len bytes left. */
  function Payload(data: seq<Byte>, pos: nat, len: nat): seq<Byte>
    decreases Rest(data, pos), len
  {
    if len > 0 then [At(data, pos)] + Payload(data, Bump(data, pos), len - 1)
    else if At(data, pos) == 0 then []
    else Payload(data, Bump(data, pos), At(data, pos))
  }

  /** Where the chain ends: after the empty block, or at the end of the data. */
  function ChainEnd(data: seq<Byte>, pos: nat, len: nat): nat
    decreases Rest(data, pos), len
  {
    if len > 0 then ChainEnd(data, Bump(data, pos), len - 1)
    else if At(data, pos) == 0 then Bump(data, pos)
    else ChainEnd(data, Bump(data, pos), At(data, pos))
  }

  function Clip(data: seq<Byte>, pos: nat): nat {
    if pos < |data| then pos else |data|
  }

  lemma {:induction false} SkipIsReading(data: seq<Byte>, pos: nat, len: nat)
    ensures Clip(data, ChainEnd(data, pos, len)) == Clip(data, ChainEnd(data, pos + len, 0))
    decreases len
  {
    if len > 0 {
      SkipIsReading(data, Bump(data, pos), len - 1);
      if pos >= |data| {
        PastEnd(data, pos, len);
        PastEnd(data, pos + len, 0);
      }
    }
  }

  lemma {:induction false} PastEnd(data: seq<Byte>, pos: nat, len: nat)
    requires pos >= |data|
    ensures ChainEnd(data, pos, len) == pos
    decreases len
  {
    if len > 0 { PastEnd(data, pos, len - 1); }
  }

  // ---------------------------------------------------------------- sub-blocks

  predicate Chunks(chunks: seq<seq<Byte>>) {
    forall c :: c in chunks ==> 0 < |c| < 256
  }

  /** Sub-blocks as they stand in a file: each chunk after its size, and an empty block at the end. */
  function Blocks(chunks: seq<seq<Byte>>): seq<Byte>
    requires Chunks(chunks)
  {
    if chunks == [] then [0] else [|chunks[0]|] + chunks[0] + Blocks(chunks[1..])
  }

  function Joined(chunks: seq<seq<Byte>>): seq<Byte> {
    if chunks == [] then [] else chunks[0] + Joined(chunks[1..])
  }

  /** The chunks stand in the data as sub-blocks. */
  predicate LaidOut(data: seq<Byte>, pos: nat, chunks: seq<seq<Byte>>) {
    Chunks(chunks) && pos <= |data| && Blocks(chunks) <= data[pos..]
  }

  lemma {:induction false} ChunkRead(data: seq<Byte>, pos: nat, chunk: seq<Byte>)
    requires pos <= |data| && chunk <= data[pos..]
    ensures Payload(data, pos, |chunk|) == chunk + Payload(data, pos + |chunk|, 0)
    ensures ChainEnd(data, pos, |chunk|) == ChainEnd(data, pos + |chunk|, 0)
    decreases chunk
  {
    if chunk != [] {
      assert data[pos] == data[pos..][0] == chunk[0];
      assert data[pos + 1..] == data[pos..][1..];
      ChunkRead(data, pos + 1, chunk[1..]);
      assert chunk == [chunk[0]] + chunk[1..];
    }
  }

  /** Reading sub-blocks gives the chunks joined, however the bytes are cut, and ends after the empty block. */
  lemma {:induction false} BlocksRead(data: seq<Byte>, pos: nat, chunks: seq<seq<Byte>>)
    requires LaidOut(data, pos, chunks)
    ensures Payload(data, pos, 0) == Joined(chunks) && ChainEnd(data, pos, 0) == pos + |Blocks(chunks)|
    decreases chunks
  {
    hide LaidOut;
    FirstChunk(data, pos, chunks);
    if chunks != [] {
      ChunkRead(data, pos + 1, chunks[0]);
      BlocksRead(data, pos + 1 + |chunks[0]|, chunks[1..]);
    }
  }

  /** The first sub-block, and the others after it. */
  lemma FirstChunk(data: seq<Byte>, pos: nat, chunks: seq<seq<Byte>>)
    requires LaidOut(data, pos, chunks)
    ensures Chunks(chunks) && pos < |data| && data[pos] == if chunks == [] then 0 else |chunks[0]|
    ensures chunks != [] ==>
              0 < |chunks[0]| && pos + 1 + |chunks[0]| <= |data| && chunks[0] <= data[pos + 1..] &&
              LaidOut(data, pos + 1 + |chunks[0]|, chunks[1..]) &&
              |Blocks(chunks)| == 1 + |chunks[0]| + |Blocks(chunks[1..])|
  {
    assert data[pos] == data[pos..][0];
    if chunks != [] {
      var c, rest := chunks[0], Blocks(chunks[1..]);
      assert c in chunks;
      AfterPrefix([|c|], c + rest, data[pos..]);
      assert Blocks(chunks) == [|c|] + (c + rest) && data[pos..][1..] == data[pos + 1..];
      AfterPrefix(c, rest, data[pos + 1..]);
      assert data[pos + 1..][|c|..] == data[pos + 1 + |c|..];
    }
  }

  lemma AfterPrefix(a: seq<Byte>, b: seq<Byte>, data: seq<Byte>)
    requires a + b <= data
    ensures a <= data && b <= data[|a|..]
  {
  }

  class Context {
    const data: seq<Byte>
    var pos: nat

    constructor (input: seq<Byte>)
      ensures data == input && pos == 0
    {
      data, pos := input, 0;
    }

    method Get8() returns (b: Byte)
      modifies this
      ensures b == At(data, old(pos)) && pos == Bump(data, old(pos))
    {
      b := 0;
      if pos < |data| {
        b := data[pos];
        pos := pos + 1;
      }
    }

    method Skip(n: nat)
      modifies this
      ensures pos == old(pos) + n
    {
      pos := pos + n;
    }

    /** Passes over the rest of a chain. */
    method SkipBlocks(rest: nat)
      modifies this
      ensures Clip(data, pos) == Clip(data, ChainEnd(data, old(pos), rest))
    {
      SkipIsReading(data, pos, rest);
      Skip(rest);
      var len := Get8();
      while len > 0
        invariant Clip(data, ChainEnd(data, old(pos), rest)) ==
                  if len > 0 then Clip(data, ChainEnd(data, pos, len)) else Clip(data, pos)
        decreases Rest(data, pos), len
      {
        SkipIsReading(data, pos, len);
        Skip(len);
        len := Get8();
      }
    }
  }

  // ---------------------------------------------------------------- bits

  lemma {:induction false} TakeBits(bits: nat, n: nat, rest: nat, w: nat)
    requires w <= n
    ensures Low(Append(bits, n, rest), w) == Low(bits, w)
    ensures Shr(Append(bits, n, rest), w) == Append(Shr(bits, w), n - w, rest)
    decreases w
  {
    if w > 0 { TakeBits(bits / 2, n - 1, rest, w - 1); }
  }

  lemma AddByte(bits: nat, n: nat, b: Byte, rest: nat)
    requires bits < Pow2(n)
    ensures Or(bits, Shl(b, n)) < Pow2(n + 8)
    ensures Append(Or(bits, Shl(b, n)), n + 8, rest) == Append(bits, n, b + 256 * rest)
  {
    PushByte(bits, n, b, rest);
    AppendIsSum(bits, n, b + 256 * rest);
    AppendIsSum(Or(bits, Shl(b, n)), n + 8, rest);
  }

  lemma MaskedCode(bits: nat, n: nat, w: nat)
    requires bits < Pow2(n) && w <= n
    ensures And(bits, Pow2(w) - 1) == Low(bits, w) < Pow2(w) && Shr(bits, w) < Pow2(n - w)
  {
    AndMask(bits, w);
    LowIsMod(bits, w);
    DropBits(bits, n, w, 0);
  }

  // ---------------------------------------------------------------- the code table

  /** Entry c spells its string: prefix is a smaller code, first and suffix the ends of the string. */
  ghost predicate EntrySpells(prefix: int, first: Byte, suffix: Byte, s: Lzw, c: nat)
    requires c < |s.dict|
  {
    var t := s.dict[c];
    t != [] && first == t[0] && suffix == t[|t| - 1] &&
    if prefix == -1 then |t| == 1
    else 0 <= prefix < c && !s.Control(prefix) && t == s.dict[prefix] + [suffix]
  }

  ghost predicate TableSpells(prefix: seq<int>, first: seq<Byte>, suffix: seq<Byte>, s: Lzw) {
    |prefix| == |first| == |suffix| == TABLE_SIZE && |s.dict| <= TABLE_SIZE &&
    forall c: nat | c < |s.dict| && !s.Control(c) :: EntrySpells(prefix[c], first[c], suffix[c], s, c)
  }

  /** The first entries stay the symbols themselves. */
  ghost predicate KeepsSymbols(s: Lzw) {
    |s.dict| >= s.Clear() && forall c: nat | c < s.Clear() :: s.dict[c] == [c % 256]
  }

  lemma ReadKeepsSymbols(s: Lzw, code: nat)
    requires s.Valid() && KeepsSymbols(s) && s.Read(code).Emit?
    ensures KeepsSymbols(s.Read(code).next)
  {
  }

  /** A clear code only forgets entries. */
  lemma ClearSpells(prefix: seq<int>, first: seq<Byte>, suffix: seq<Byte>, s: Lzw)
    requires s.Valid() && KeepsSymbols(s) && TableSpells(prefix, first, suffix, s)
    ensures TableSpells(prefix, first, suffix, s.Read(s.Clear()).next)
  {
    var t := s.Read(s.Clear()).next;
    forall c: nat | c < |t.dict| && !t.Control(c)
      ensures EntrySpells(prefix[c], first[c], suffix[c], t, c)
    {
      assert EntrySpells(prefix[c], first[c], suffix[c], s, c);
    }
  }

  lemma LearnSpells(prefix: seq<int>, first: seq<Byte>, suffix: seq<Byte>, s: Lzw, code: nat, p: int, f: Byte, x: Byte)
    requires s.Valid() && TableSpells(prefix, first, suffix, s) && s.Read(code).Emit? && s.last >= 0 &&
        code != s.Clear()
    requires p == s.last && f == first[s.last] && |s.dict| < TABLE_SIZE
    requires x == if code == |s.dict| then f else first[code]
    ensures TableSpells(prefix[|s.dict| := p], first[|s.dict| := f], suffix[|s.dict| := x], s.Read(code).next)
  {
    var n, t := |s.dict|, s.Read(code).next;
    assert EntrySpells(prefix[s.last], first[s.last], suffix[s.last], s, s.last);
    if code < n { assert EntrySpells(prefix[code], first[code], suffix[code], s, code); }
    forall c: nat | c < |t.dict| && !t.Control(c)
      ensures EntrySpells(prefix[n := p][c], first[n := f][c], suffix[n := x][c], t, c)
    {
      if c < n { assert EntrySpells(prefix[c], first[c], suffix[c], s, c); }
    }
  }

  /** The bits the loop still has to decode: those buffered, then those of the chain. */
  function PendingBits(bits: nat, valid_bits: nat, payload: seq<Byte>): nat {
    Append(bits, valid_bits, Little(payload))
  }

  /** What the loop will still do. */
  ghost function Remaining(s: Lzw, width: nat, bits: nat, valid_bits: nat, payload: seq<Byte>): Output
    requires s.Valid() && width > 0
  {
    RunBits(s, width, PendingBits(bits, valid_bits, payload), valid_bits + 8 * |payload|)
  }

  /** What a frame's data decodes to: the size byte, then the bits of the chain of sub-blocks. */
  ghost function Raster(data: seq<Byte>, pos: nat): Output {
    var size, payload := At(data, pos), Payload(data, Bump(data, pos), 0);
    if size > 12 then Output([], false)
    else RunBits(Start(size, false), size + 1, Little(payload), 8 * |payload|)
  }

  /** Buffering a byte changes nothing. */
  lemma BufferByte(s: Lzw, width: nat, bits: nat, valid_bits: nat, b: Byte, payload: seq<Byte>)
    requires s.Valid() && width > 0 && bits < Pow2(valid_bits)
    ensures Or(bits, Shl(b, valid_bits)) < Pow2(valid_bits + 8)
    ensures Remaining(s, width, Or(bits, Shl(b, valid_bits)), valid_bits + 8, payload) ==
            Remaining(s, width, bits, valid_bits, [b] + payload)
  {
    AddByte(bits, valid_bits, b, Little(payload));
    assert ([b] + payload)[1..] == payload;
  }

  /** Taking a code from the buffer. */
  lemma TakeBuffered(s: Lzw, width: nat, bits: nat, valid_bits: nat, payload: seq<Byte>)
    requires s.Valid() && 0 < width <= valid_bits && bits < Pow2(valid_bits)
    ensures Shr(bits, width) < Pow2(valid_bits - width)
    ensures Remaining(s, width, bits, valid_bits, payload) ==
            RunCode(s, width, And(bits, Pow2(width) - 1), PendingBits(Shr(bits, width), valid_bits - width, payload),
                    valid_bits - width + 8 * |payload|)
  {
    MaskedCode(bits, valid_bits, width);
    TakeBits(bits, valid_bits, Little(payload), width);
  }

  /** An emitted string comes before what the rest emits. */
  lemma EmitBuffered(s: Lzw, width: nat, c: nat, bits: nat, valid_bits: nat, payload: seq<Byte>)
    requires s.Valid() && width > 0 && s.Read(c).Emit?
    ensures s.Read(c).next.Valid()
    ensures RunCode(s, width, c, PendingBits(bits, valid_bits, payload), valid_bits + 8 * |payload|) ==
            After(s.Read(c).symbols, Remaining(s.Read(c).next, NextWidth(s, width, c), bits, valid_bits, payload))
  {
    ReadKeepsValid(s, c);
  }

  /** Taking a code from the buffer: what the run gives, knowing what it gave before. */
  lemma NextCode(done: seq<Byte>, s: Lzw, width: nat, c: nat, bits: nat, valid_bits: nat, payload: seq<Byte>)
    requires s.Valid() && 0 < width <= valid_bits && bits < Pow2(valid_bits) && c == And(bits, Pow2(width) - 1)
    ensures Shr(bits, width) < Pow2(valid_bits - width)
    ensures s.Read(c).End? ==> After(done, Remaining(s, width, bits, valid_bits, payload)) == Output(done, true)
    ensures s.Read(c).Illegal? ==> After(done, Remaining(s, width, bits, valid_bits, payload)) == Output(done, false)
    ensures s.Read(c).Emit? ==> s.Read(c).next.Valid()
    ensures s.Read(c).Emit? ==>
              After(done, Remaining(s, width, bits, valid_bits, payload)) ==
              After(done + s.Read(c).symbols,
                    Remaining(s.Read(c).next, NextWidth(s, width, c), Shr(bits, width), valid_bits - width, payload))
  {
    hide And, Shr, Append, RunBits, PendingBits;
    TakeBuffered(s, width, bits, valid_bits, payload);
    assert done + [] == done;
    if s.Read(c).Emit? {
      EmitBuffered(s, width, c, Shr(bits, width), valid_bits - width, payload);
    }
  }

  /** The data holds a size byte, then the chunks as sub-blocks; joined they are the packed codes and further bits. */
  ghost predicate Carries(data: seq<Byte>, pos: nat, size: nat, chunks: seq<seq<Byte>>, codes: seq<nat>, tail: nat,
      extra: nat) {
    pos < |data| && data[pos] == size && LaidOut(data, pos + 1, chunks) &&
    Little(Joined(chunks)) == Pack(size, 0, codes, tail) &&
    8 * |Joined(chunks)| == PackedBits(size, 0, codes) + extra
  }

  /** The raster data of an encoded input decodes to the input, exactly when the encoding stays within the
      budget, however it is cut into sub-blocks. */
  lemma RasterDecoded(data: seq<Byte>, pos: nat, size: nat, chunks: seq<seq<Byte>>, input: seq<Byte>, codes: seq<nat>,
      tail: nat, extra: nat)
    requires 2 <= size <= 11 && codes != [] && codes[0] == Pow2(size)
    requires Carries(data, pos, size, chunks, codes, tail, extra)
    requires Spells(Pow2(size), InitialDict(Pow2(size)), input, codes)
    ensures if WithinBudget(Pow2(size), codes, 0) then Raster(data, pos) == Output(input, true)
        else !Raster(data, pos).ok
    ensures ChainEnd(data, Bump(data, pos), 0) == pos + 1 + |Blocks(chunks)|
  {
    hide Spells, Pack, PackedBits, RunBits, Payload, ChainEnd, LaidOut, Blocks, Joined, Little, WithinBudget, Pow2;
    assert Chunks(chunks) by { FirstChunk(data, pos + 1, chunks); }
    BlocksRead(data, pos + 1, chunks);
    DecodePacked(size, input, codes, tail, extra);
  }

  /** The decoder inverts the encoder on whole frames: every pixel of the frame shows the symbol of its number. */
  lemma FrameDecoded(f: F.Frame, table: seq<Byte>, before: F.Canvas, data: seq<Byte>, pos: nat, size: nat,
      chunks: seq<seq<Byte>>, input: seq<Byte>, codes: seq<nat>, tail: nat, extra: nat, row: nat, col: nat)
    requires 2 <= size <= 11 && codes != [] && codes[0] == Pow2(size)
    requires Carries(data, pos, size, chunks, codes, tail, extra)
    requires Spells(Pow2(size), InitialDict(Pow2(size)), input, codes) && WithinBudget(Pow2(size), codes, 0)
    requires |table| == 1024 && F.Room(f, before) && row < f.h && col < f.w && |input| == Times(f.h, f.w)
    ensures Raster(data, pos) == Output(input, true) && F.OnTrack(f, F.First(f))
    ensures F.PixelIndex(f, row, col) < |input| && F.Pixel(f, row, col) < |before.touched|
    ensures var after, i := F.Paint(f, table, before, F.First(f), Raster(data, pos).symbols), F.Pixel(f, row, col);
      after.touched[i] == 1 &&
      F.PixelBytes(after, i) == F.Shown(table, input[F.PixelIndex(f, row, col)], F.PixelBytes(before, i))
  {
    hide *;
    RasterDecoded(data, pos, size, chunks, input, codes, tail, extra);
    AllShown(f, table, before, input, row, col);
  }

  lemma AllShown(f: F.Frame, table: seq<Byte>, before: F.Canvas, input: seq<Byte>, row: nat, col: nat)
    requires |table| == 1024 && F.Room(f, before) && row < f.h && col < f.w && |input| == Times(f.h, f.w)
    ensures F.OnTrack(f, F.First(f)) && F.Pixel(f, row, col) < |before.touched| && F.PixelIndex(f, row, col) < |input|
    ensures var after, i := F.Paint(f, table, before, F.First(f), input), F.Pixel(f, row, col);
      after.touched[i] == 1 &&
      F.PixelBytes(after, i) == F.Shown(table, input[F.PixelIndex(f, row, col)], F.PixelBytes(before, i))
  {
    F.PixelIndexBound(f, row, col);
    F.FrameShown(f, table, before, input, row, col);
  }

  /** Sizes above 12 are refused; any other size with no data is an empty raster. */
  lemma RasterSizes(data: seq<Byte>, pos: nat)
    requires pos + 1 < |data|
    ensures data[pos] > 12 ==> Raster(data, pos) == Output([], false)
    ensures data[pos] <= 12 && data[pos + 1] == 0 ==> Raster(data, pos) == Output([], true)
  {
    if data[pos + 1] == 0 { assert Payload(data, pos + 1, 0) == []; }
  }

  /** Size 2 and one sub-block with the bytes 4C and 01: the codes 4, 1 and 5 in three bits each, that is clear, the
      symbol 1 and the end. */
  lemma SmallRaster()
    ensures Raster([2, 2, 0x4C, 0x01, 0], 0) == Output([1], true)
  {
    var data: seq<Byte> := [2, 2, 0x4C, 0x01, 0];
    var chunks: seq<seq<Byte>> := [[0x4C, 0x01]];
    var codes: seq<nat> := [4, 1, 5];
    var input: seq<Byte> := [1];
    assert Pow2(2) == 4 by { Pow2Values(); }
    assert chunks[1..] == [] && Joined(chunks) == [0x4C, 0x01] && Blocks(chunks) == [2, 0x4C, 0x01, 0];
    assert data[1..] == Blocks(chunks);
    assert Little([0x4C, 0x01]) == 0x14C by { assert [0x4C, 0x01][1..] == [0x01] && [0x01][1..] == []; }
    SmallPack();
    assert codes[1..] == [1, 5] && [1, 5][1..] == [5];
    assert Spells(4, InitialDict(4), [], [5]);
    assert InitialDict(4)[1] == [1] && input[1..] == [];
    assert Spells(4, InitialDict(4), input, [1, 5]);
    assert WithinBudget(4, [5], Budget(4) - 1) && WithinBudget(4, [1, 5], Budget(4));
    RasterDecoded(data, 0, 2, chunks, input, codes, 0, 7);
  }

  lemma SmallPack()
    ensures Pack(2, 0, [4, 1, 5], 0) == 0x14C && PackedBits(2, 0, [4, 1, 5]) == 9
  {
    hide Pack, PackedBits, Append, Width, Entries, Pow2;
    SmallWidths();
    assert [4, 1, 5][1..] == [1, 5] && [1, 5][1..] == [5] && [5][1..] == [];
    assert Pack(2, 1, [], 0) == 0 && PackedBits(2, 1, []) == 0 by { NothingPacked(2, 1, 0); }
    assert Pack(2, 2, [], 0) == 0 && PackedBits(2, 2, []) == 0 by { NothingPacked(2, 2, 0); }
    PackStep(2, 1, [5], 0);
    PackStep(2, 0, [1, 5], 0);
    PackStep(2, 0, [4, 1, 5], 0);
    AppendIsSum(5, 3, 0);
    AppendIsSum(1, 3, 5);
    AppendIsSum(4, 3, 41);
  }

  lemma NothingPacked(size: nat, k: nat, tail: nat)
    ensures Pack(size, k, [], tail) == tail && PackedBits(size, k, []) == 0
  {
  }

  lemma SmallWidths()
    ensures Pow2(2) == 4 && Pow2(3) == 8 && Width(3, Entries(4, 0)) == 3 && Width(3, Entries(4, 1)) == 3
  {
    Pow2Values();
  }

  // ---------------------------------------------------------------- the cursor

  /** The byte offsets of the program stand for a place of the frame. */
  ghost predicate Cursor(f: F.Frame, p: F.Place, line: nat, x: nat, y: nat, step: nat, parse: nat) {
    F.OnTrack(f, p) && line == 4 * f.width && f.Valid() && p.parse == parse &&
    x == 4 * (f.x + p.col) && y == Times(f.y + p.row, line) && step == Times(p.step, line)
  }

  lemma RowsDone(f: F.Frame, p: F.Place, line: nat)
    requires F.OnTrack(f, p) && line == 4 * f.width && f.Valid()
    ensures Times(f.y + p.row, line) >= Times(f.y + f.h, line) <==> p.row >= f.h
  {
    if p.row < f.h { TimesMono(f.y + p.row, f.y + f.h, line); } else { TimesMono(f.y + f.h, f.y + p.row, line); }
  }

  lemma PixelOffset(f: F.Frame, row: nat, col: nat, line: nat)
    requires f.Valid() && row < f.h && col < f.w && line == 4 * f.width
    ensures 4 * (f.x + col) + Times(f.y + row, line) == 4 * F.Pixel(f, row, col)
    ensures F.Pixel(f, row, col) < Times(f.height, f.width)
  {
    TimesFour(f.y + row, f.width);
    F.PixelInImage(f, row, col);
  }

  /** The row distance of a pass and its first row. */
  lemma PassStart(parse: nat, line: nat)
    requires 1 <= parse <= 3
    ensures var step := if parse == 3 then 8 else if parse == 2 then 4 else 2;
      Shl(1, parse) * line == Times(step, line) && Shr(Times(step, line), 1) == Times(step / 2, line)
  {
    Pow2Values();
    TimesIsProduct(8, line);
    TimesIsProduct(4, line);
    TimesIsProduct(2, line);
    TimesIsProduct(1, line);
    ShrIsDiv(Times(8, line), 1);
    ShrIsDiv(Times(4, line), 1);
    ShrIsDiv(Times(2, line), 1);
  }

  /** The width of the next code. */
  method Widen(avail: nat, codesize: nat) returns (r: nat)
    ensures r == Grow(codesize, avail)
  {
    AndMask(avail, codesize);
    LowIsMod(avail, codesize);
    r := codesize;
    if And(avail, Pow2(codesize) - 1) == 0 && avail <= 0x0FFF {
      r := codesize + 1;
    }
  }

  class Gif {
    const w: nat
    const h: nat
    const out: array<Byte>
    const history: array<Byte>
    const prefix: array<int>
    const first: array<Byte>
    const suffix: array<Byte>
    var color_table: array<Byte>
    var line_size: nat
    var start_x: nat
    var start_y: nat
    var max_x: nat
    var max_y: nat
    var cur_x: nat
    var cur_y: nat
    var step: nat
    var parse: nat

    ghost predicate Valid()
      reads this
    {
      history.Length == Times(h, w) && out.Length == 4 * history.Length && color_table.Length == 1024 &&
      prefix.Length == first.Length == suffix.Length == TABLE_SIZE &&
      out != history && out != color_table && history != color_table && first != suffix && first != out &&
          first != history &&
      first != color_table && suffix != out && suffix != history && suffix != color_table
    }

    /** The fields describe frame f. */
    ghost predicate Placed(f: F.Frame)
      reads this
    {
      Valid() && f.Valid() && f.width == w && f.height == h &&
      line_size == 4 * f.width && start_x == 4 * f.x && start_y == Times(f.y, line_size) &&
      max_x == 4 * (f.x + f.w) && max_y == Times(f.y + f.h, line_size)
    }

    ghost predicate Here(f: F.Frame, p: F.Place)
      reads this
    {
      Placed(f) && Cursor(f, p, line_size, cur_x, cur_y, step, parse)
    }

    constructor (width: nat, height: nat)
      ensures Valid() && w == width && h == height && fresh(out) && fresh(history)
      ensures fresh(prefix) && fresh(first) && fresh(suffix) && fresh(color_table)
      ensures forall i :: 0 <= i < out.Length ==> out[i] == 0
      ensures forall i :: 0 <= i < history.Length ==> history[i] == 0
    {
      TimesIsProduct(height, width);
      w, h := width, height;
      out := new Byte[4 * (width * height)](i => 0);
      history := new Byte[width * height](i => 0);
      color_table := new Byte[1024](i => 0);
      prefix := new int[TABLE_SIZE];
      first := new Byte[TABLE_SIZE];
      suffix := new Byte[TABLE_SIZE];
    }

    /** An image descriptor: the frame must lie in the image; the cursor goes to its first pixel. */
    method BeginFrame(x: nat, y: nat, fw: nat, fh: nat, interlaced: bool, colors: array<Byte>) returns (ok: bool)
      requires Valid() && colors.Length == 1024 && colors !in {out, history, first, suffix}
      modifies this
      ensures Valid() && (ok <==> x + fw <= w && y + fh <= h)
      ensures ok ==> color_table == colors
      ensures ok ==> var f := F.Frame(w, h, x, y, fw, fh, interlaced); Here(f, F.First(f))
    {
      if x + fw > w || y + fh > h {
        return false;
      }
      ghost var f := F.Frame(w, h, x, y, fw, fh, interlaced);
      TimesIsProduct(y, 4 * w);
      TimesIsProduct(y + fh, 4 * w);
      assert y * (4 * w) + fh * (4 * w) == (y + fh) * (4 * w);
      TimesIsProduct(8, 4 * w);
      TimesIsProduct(1, 4 * w);
      F.FirstOnTrack(f);
      color_table := colors;
      line_size := w * 4;
      start_x := x * 4;
      start_y := y * line_size;
      max_x := start_x + fw * 4;
      max_y := start_y + fh * line_size;
      cur_x := start_x;
      cur_y := start_y;
      if fw == 0 {
        cur_y := max_y;
      }
      if interlaced {
        step, parse := 8 * line_size, 3;
      } else {
        step, parse := line_size, 0;
      }
      return true;
    }

    ghost predicate Spells(s: Lzw)
      reads prefix, first, suffix
    {
      TableSpells(prefix[..], first[..], suffix[..], s)
    }

    ghost function Shown(): F.Canvas
      reads out, history
    {
      F.Canvas(out[..], history[..])
    }

    /** The end of a row: the next row of the pass, or the first row of the next pass that has one. */
    method NextRow(ghost f: F.Frame, ghost p: F.Place) returns (ghost q: F.Place)
      requires Placed(f) && F.OnTrack(f, p) && p.row < f.h && p.col + 1 == f.w
      requires cur_y == Times(f.y + p.row, line_size) && step == Times(p.step, line_size) && parse == p.parse
      modifies `cur_x, `cur_y, `step, `parse
      ensures q == F.Next(f, p) && Here(f, q)
    {
      hide F.OnTrack, F.NextPass, Times;
      F.FewPasses(f, p);
      cur_x := start_x;
      cur_y := cur_y + step;
      TimesAdd(f.y + p.row, p.step, line_size);
      q := p.(row := p.row + p.step, col := 0);
      assert f.y + q.row == f.y + p.row + p.step;
      F.NextOnTrack(f, p);
      ghost var r := q;
      while cur_y >= max_y && parse > 0
        invariant F.NextPass(f, q) == F.NextPass(f, r) && q.col == 0
        invariant cur_x == start_x && cur_y == Times(f.y + q.row, line_size) && step == Times(q.step, line_size)
        invariant parse == q.parse <= 3
        decreases parse
      {
        q := NextPassStart(f, q);
      }
      Above(f, q, line_size);
      F.LastPass(f, q);
    }

    /** The first row of the next pass. */
    method NextPassStart(ghost f: F.Frame, ghost p: F.Place) returns (ghost q: F.Place)
      requires Placed(f) && 0 < parse == p.parse <= 3 && cur_y == Times(f.y + p.row, line_size) && cur_y >= max_y &&
          f.w > 0
      modifies `cur_y, `step, `parse
      ensures F.NextPass(f, q) == F.NextPass(f, p) && q.col == p.col
      ensures cur_y == Times(f.y + q.row, line_size) && step == Times(q.step, line_size) &&
          parse == q.parse == p.parse - 1
    {
      Above(f, p, line_size);
      PassStart(parse, line_size);
      ghost var s := if parse == 3 then 8 else if parse == 2 then 4 else 2;
      step := Shl(1, parse) * line_size;
      cur_y := start_y + Shr(step, 1);
      parse := parse - 1;
      TimesAdd(f.y, s / 2, line_size);
      q := F.Place(s / 2, p.col, s, p.parse - 1);
    }

    static lemma Above(f: F.Frame, p: F.Place, line: nat)
      requires f.Valid() && line == 4 * f.width && f.w > 0
      ensures Times(f.y + p.row, line) >= Times(f.y + f.h, line) <==> p.row >= f.h
    {
      if p.row < f.h { TimesMono(f.y + p.row, f.y + f.h, line); } else { TimesMono(f.y + f.h, f.y + p.row, line); }
    }

    /** Draws one symbol at the cursor. */
    method DrawSymbol(ghost f: F.Frame, ghost p: F.Place, symbol: Byte)
      requires Placed(f) && Cursor(f, p, line_size, cur_x, cur_y, step, parse) && p.row < f.h
      modifies out, history
      ensures F.Room(f, old(Shown())) && Shown() == F.PaintOne(f, color_table[..], old(Shown()), p, symbol)
    {
      PixelOffset(f, p.row, p.col, line_size);
      var idx := cur_x + cur_y;
      history[idx / 4] := 1;
      var c := color_table[4 * symbol..4 * symbol + 4];
      assert c == F.Color(color_table[..], symbol);
      if c[3] > 128 {
        out[idx], out[idx + 1], out[idx + 2], out[idx + 3] := c[2], c[1], c[0], c[3];
      }
      assert out[..] == F.PaintOne(f, color_table[..], old(Shown()), p, symbol).bytes;
    }

    /** stbi__out_gif_code: draws the string of a code. */
    method OutGifCode(ghost f: F.Frame, ghost p: F.Place, ghost s: Lzw, code: nat) returns (ghost q: F.Place)
      requires Here(f, p) && Spells(s) && code < |s.dict| && !s.Control(code)
      modifies `cur_x, `cur_y, `step, `parse, out, history
      ensures Here(f, q) && Spells(s) && q == F.After(f, p, |s.dict[code]|)
      ensures F.Room(f, old(Shown())) && Shown() == F.Paint(f, color_table[..], old(Shown()), p, s.dict[code])
      decreases code
    {
      q := p;
      ghost var table, before := color_table[..], Shown();
      assert EntrySpells(prefix[code], first[code], suffix[code], s, code);
      ghost var done: seq<Byte> := [];
      if prefix[code] >= 0 {
        done := s.dict[prefix[code]];
        q := OutGifCode(f, p, s, prefix[code]);
      }
      assert s.dict[code] == done + [suffix[code]];
      F.PaintConcat(f, table, before, p, done, [suffix[code]]);
      q := DrawAndMove(f, q, suffix[code]);
    }

    method DrawAndMove(ghost f: F.Frame, ghost p: F.Place, symbol: Byte) returns (ghost q: F.Place)
      requires Here(f, p)
      modifies `cur_x, `cur_y, `step, `parse, out, history
      ensures Here(f, q) && q == F.After(f, p, 1)
      ensures F.Room(f, old(Shown())) && Shown() == F.Paint(f, color_table[..], old(Shown()), p, [symbol])
    {
      q := p;
      RowsDone(f, p, line_size);
      F.NextOnTrack(f, p);
      if cur_y >= max_y {
        return;
      }
      DrawSymbol(f, p, symbol);
      cur_x := cur_x + 4;
      if cur_x >= max_x {
        q := NextRow(f, p);
      } else {
        q := F.Next(f, p);
      }
    }
  
    /** The entries of the symbols. */
    method InitTable(size: nat)
      requires size <= 12 && Valid()
      modifies prefix, first, suffix
      ensures Spells(Start(size, false)) && KeepsSymbols(Start(size, false))
    {
      SizeBound(size);
      var clear := Pow2(size);
      var init_code := 0;
      while init_code < clear
        invariant 0 <= init_code <= clear
        invariant forall c :: 0 <= c < init_code ==> prefix[c] == -1 && first[c] == suffix[c] == c % 256
      {
        prefix[init_code] := -1;
        first[init_code] := init_code % 256;
        suffix[init_code] := init_code % 256;
        init_code := init_code + 1;
      }
    }

    /** The last symbol of the entry being learnt, which is the first of its code's string; the program also covers a
        code beyond the entry, which the loop never passes on. */
    method SuffixFor(code: nat, avail: nat) returns (b: Byte)
      requires 0 < avail <= first.Length && code < first.Length
      ensures code < avail ==> b == first[code]
    {
      if code == avail {
        b := first[avail - 1];
      } else {
        b := first[code];
      }
    }

    /** The entry learnt from a code and the code before it. */
    method Learn(ghost s: Lzw, code: nat, oldcode: int, avail: nat)
      requires Valid() && s.Valid() && Spells(s) && s.Read(code).Emit? && code != s.Clear()
      requires oldcode == s.last >= 0 && avail == |s.dict| + 1 <= TABLE_SIZE
      modifies prefix, first, suffix
      ensures Spells(s.Read(code).next)
    {
      ghost var p0, f0, x0 := prefix[..], first[..], suffix[..];
      prefix[avail - 1] := oldcode;
      first[avail - 1] := first[oldcode];
      suffix[avail - 1] := SuffixFor(code, avail);
      LearnSpells(p0, f0, x0, s, code, oldcode, f0[oldcode], if code == |s.dict| then f0[oldcode] else f0[code]);
      assert prefix[..] == p0[|s.dict| := oldcode];
      assert first[..] == f0[|s.dict| := f0[oldcode]];
      assert suffix[..] == x0[|s.dict| := if code == |s.dict| then f0[oldcode] else f0[code]];
    }
  
    /** A code that is neither the clear code nor the end code: learns an entry, draws the string. A result of
        false is the source's error return. */
    method DrawCode(ghost f: F.Frame, ghost p: F.Place, ghost s: Lzw, code: nat, oldcode: int, avail: nat,
        seen_clear: bool)
        returns (ok: bool, avail': nat, ghost q: F.Place)
      requires Here(f, p) && s.Valid() && Spells(s) && KeepsSymbols(s) && !s.Control(code)
      requires oldcode == s.last && avail == |s.dict| && seen_clear == s.started
      modifies `cur_x, `cur_y, `step, `parse, out, history, prefix, first, suffix
      ensures ok <==> s.Read(code).Emit?
      ensures Here(f, q) && F.Room(f, old(Shown()))
      ensures !ok ==> s.Read(code).Illegal? && Shown() == old(Shown()) && q == p
      ensures ok ==> Spells(s.Read(code).next) && KeepsSymbols(s.Read(code).next) && avail' == |s.Read(code).next.dict|
      ensures ok ==> q == F.After(f, p, |s.Read(code).symbols|)
      ensures ok ==> Shown() == F.Paint(f, color_table[..], old(Shown()), p, s.Read(code).symbols)
    {
      ok, avail', q := false, avail, p;
      if code > avail {
        return;
      }
      if !seen_clear {
        return;
      }
      if oldcode >= 0 {
        avail' := avail' + 1;
        if avail' > TABLE_SIZE {
          return;
        }
        Learn(s, code, oldcode, avail');
      } else if code == avail {
        return;
      }
      ghost var t := s.Read(code).next;
      ReadKeepsSymbols(s, code);
      ReadKeepsValid(s, code);
      q := OutGifCode(f, p, t, code);
      ok := true;
    }
  
    /** The symbols done were drawn from place p0 on over the canvas before, and the cursor is at place p. */
    ghost predicate Drawn(f: F.Frame, p0: F.Place, before: F.Canvas, done: seq<Byte>, p: F.Place)
      reads this, out, history, color_table
    {
      Here(f, p) && F.Room(f, before) && F.OnTrack(f, p0) && p == F.After(f, p0, |done|) &&
      Shown() == F.Paint(f, color_table[..], before, p0, done)
    }

    /** Draws a code's string after what was drawn. */
    method DrawNext(ghost f: F.Frame, ghost p0: F.Place, ghost before: F.Canvas, ghost done: seq<Byte>,
        ghost p: F.Place,
                    ghost s: Lzw, code: nat, oldcode: int, avail: nat, seen_clear: bool)
        returns (ok: bool, avail': nat, ghost q: F.Place)
      requires Drawn(f, p0, before, done, p) && s.Valid() && Spells(s) && KeepsSymbols(s) && !s.Control(code)
      requires oldcode == s.last && avail == |s.dict| && seen_clear == s.started
      modifies `cur_x, `cur_y, `step, `parse, out, history, prefix, first, suffix
      ensures (ok <==> s.Read(code).Emit?) && (!ok ==> s.Read(code).Illegal?)
      ensures !ok ==> Drawn(f, p0, before, done, p)
      ensures ok ==> Spells(s.Read(code).next) && avail' == |s.Read(code).next.dict|
      ensures ok ==> Drawn(f, p0, before, done + s.Read(code).symbols, q)
    {
      ok, avail', q := DrawCode(f, p, s, code, oldcode, avail, seen_clear);
      if ok {
        F.PaintConcat(f, color_table[..], before, p0, done, s.Read(code).symbols);
      }
    }

    /** The table and the loop's variables are the state s of the reference decoder. */
    ghost predicate Holds(s: Lzw, size: nat, avail: nat, oldcode: int, seen_clear: bool)
      reads prefix, first, suffix
    {
      s.Valid() && s.size == size && Spells(s) && KeepsSymbols(s) &&
      avail == |s.dict| && oldcode == s.last && seen_clear == s.started
    }

    /** Any code but the end code. A result of false is the source's error return. */
    method HandleCode(ghost f: F.Frame, ghost p0: F.Place, ghost before: F.Canvas, ghost done: seq<Byte>,
        ghost p: F.Place,
                      ghost s: Lzw, lzw_cs: nat, code: nat, avail: nat, oldcode: int, seen_clear: bool, codesize: nat)
        returns (ok: bool, avail': nat, oldcode': int, seen_clear': bool, codesize': nat, ghost q: F.Place)
      requires Drawn(f, p0, before, done, p) && Holds(s, lzw_cs, avail, oldcode, seen_clear)
      requires code != Pow2(lzw_cs) + 1 && codesize > 0
      modifies `cur_x, `cur_y, `step, `parse, out, history, prefix, first, suffix
      ensures (ok <==> s.Read(code).Emit?) && (!ok ==> s.Read(code).Illegal?)
      ensures !ok ==> Drawn(f, p0, before, done, p)
      ensures ok ==> Holds(s.Read(code).next, lzw_cs, avail', oldcode', seen_clear')
      ensures ok ==> codesize' == NextWidth(s, codesize, code) > 0
      ensures ok ==> Drawn(f, p0, before, done + s.Read(code).symbols, q)
    {
      ok, avail', oldcode', seen_clear', codesize', q := true, avail, oldcode, seen_clear, codesize, p;
      if code == Pow2(lzw_cs) {
        ClearSpells(prefix[..], first[..], suffix[..], s);
        ReadKeepsSymbols(s, code);
        ReadKeepsValid(s, code);
        assert done + [] == done;
        codesize', avail', oldcode', seen_clear' := lzw_cs + 1, Pow2(lzw_cs) + 2, -1, true;
      } else {
        ok, avail', q := DrawNext(f, p0, before, done, p, s, code, oldcode, avail, seen_clear);
        if ok {
          ReadKeepsSymbols(s, code);
          ReadKeepsValid(s, code);
          codesize' := Widen(avail', codesize);
          oldcode' := code;
        }
      }
    }

    /** Buffers the next byte of the chain, from the next block when this one is used up. */
    method BufferNext(context: Context, ghost s: Lzw, ghost width: nat, len: nat, bits: nat, valid_bits: nat)
        returns (more: bool, len': nat, bits': nat, valid_bits': nat)
      requires s.Valid() && valid_bits < width && bits < Pow2(valid_bits)
      modifies context
      ensures var data, pos := context.data, old(context.pos);
        if more then
          bits' < Pow2(valid_bits') && ChainEnd(data, context.pos, len') == ChainEnd(data, pos, len) &&
          |Payload(data, context.pos, len')| < |Payload(data, pos, len)| &&
          Remaining(s, width, bits', valid_bits', Payload(data, context.pos, len')) ==
          Remaining(s, width, bits, valid_bits, Payload(data, pos, len))
        else
          context.pos == ChainEnd(data, pos, len) &&
          Remaining(s, width, bits, valid_bits, Payload(data, pos, len)) == Output([], true)
    {
      more, len', bits', valid_bits' := false, len, bits, valid_bits;
      if len' == 0 {
        len' := context.Get8();
        if len' == 0 {
          return;
        }
      }
      len' := len' - 1;
      var b := context.Get8();
      BufferByte(s, width, bits, valid_bits, b, Payload(context.data, context.pos, len'));
      bits' := Or(bits, Shl(b, valid_bits));
      valid_bits' := valid_bits + 8;
      more := true;
    }

    /** stbi__process_gif_raster: decodes the data of a frame and draws it at the cursor. */
    method ProcessRaster(context: Context, ghost f: F.Frame, ghost p0: F.Place) returns (ok: bool)
      requires Here(f, p0)
      modifies context, `cur_x, `cur_y, `step, `parse, out, history, prefix, first, suffix
      ensures ok == Raster(context.data, old(context.pos)).ok
      ensures F.Room(f, old(Shown()))
      ensures Shown() == F.Paint(f, color_table[..], old(Shown()), p0, Raster(context.data, old(context.pos)).symbols)
      ensures ok ==> Clip(context.data, context.pos) ==
                     Clip(context.data, ChainEnd(context.data, Bump(context.data, old(context.pos)), 0))
    {
      var lzw_cs := context.Get8();
      if lzw_cs > 12 {
        return false;
      }
      SizeBound(lzw_cs);
      InitTable(lzw_cs);
      ok := DecodeCodes(context, f, p0, lzw_cs);
    }

    /** Handles the code taken from the buffer: the total the frame decodes to stays the same, or is reached. */
    method CodeStep(ghost f: F.Frame, ghost p0: F.Place, ghost before: F.Canvas, ghost done: seq<Byte>,
        ghost p: F.Place,
                    ghost s: Lzw, lzw_cs: nat, code: nat, avail: nat, oldcode: int, seen_clear: bool, codesize: nat,
                    ghost bits: nat, ghost valid_bits: nat, ghost payload: seq<Byte>)
        returns (ok: bool, avail': nat, oldcode': int, seen_clear': bool, codesize': nat, ghost q: F.Place,
                 ghost s': Lzw, ghost done': seq<Byte>)
      requires Drawn(f, p0, before, done, p) && Holds(s, lzw_cs, avail, oldcode, seen_clear) && code != Pow2(lzw_cs) + 1
      requires 0 < codesize <= valid_bits && bits < Pow2(valid_bits) && code == And(bits, Pow2(codesize) - 1)
      modifies `cur_x, `cur_y, `step, `parse, out, history, prefix, first, suffix
      ensures s'.Valid() && s.Valid() && Drawn(f, p0, before, done', q)
      ensures ok ==> Holds(s', lzw_cs, avail', oldcode', seen_clear') && codesize' > 0 &&
                     After(done, Remaining(s, codesize, bits, valid_bits, payload)) ==
                     After(done', Remaining(s', codesize', Shr(bits, codesize), valid_bits - codesize, payload))
      ensures !ok ==> After(done, Remaining(s, codesize, bits, valid_bits, payload)) == Output(done', false)
    {
      hide RunBits, RunCode, Spells, KeepsSymbols, Drawn, After, Remaining, Shr;
      NextCode(done, s, codesize, code, bits, valid_bits, payload);
      ok, avail', oldcode', seen_clear', codesize', q :=
        HandleCode(f, p0, before, done, p, s, lzw_cs, code, avail, oldcode, seen_clear, codesize);
      s', done' := s, done;
      if ok {
        s', done' := s.Read(code).next, done + s.Read(code).symbols;
      } else {
        q := p;
      }
    }

    /** The loop over the codes. */
    method DecodeCodes(context: Context, ghost f: F.Frame, ghost p0: F.Place, lzw_cs: nat) returns (ok: bool)
      requires Here(f, p0) && lzw_cs <= 12 && Holds(Start(lzw_cs, false), lzw_cs, Pow2(lzw_cs) + 2, -1, false)
      modifies context, `cur_x, `cur_y, `step, `parse, out, history, prefix, first, suffix
      ensures F.Room(f, old(Shown()))
      ensures var payload := Payload(context.data, old(context.pos), 0);
        var total := Remaining(Start(lzw_cs, false), lzw_cs + 1, 0, 0, payload);
        ok == total.ok && Shown() == F.Paint(f, color_table[..], old(Shown()), p0, total.symbols)
      ensures ok ==> Clip(context.data, context.pos) == Clip(context.data, ChainEnd(context.data, old(context.pos), 0))
    {
      ghost var before := Shown();
      ghost var total, p;
      StartDrawn(f, p0);
      ok, total, p := DecodeLoop(context, f, p0, before, lzw_cs);
    }

    lemma StartDrawn(f: F.Frame, p0: F.Place)
      requires Here(f, p0)
      ensures Drawn(f, p0, Shown(), [], p0)
    {
    }

    method DecodeLoop(context: Context, ghost f: F.Frame, ghost p0: F.Place, ghost before: F.Canvas, lzw_cs: nat)
        returns (ok: bool, ghost total: Output, ghost p: F.Place)
      requires Drawn(f, p0, before, [], p0) && Holds(Start(lzw_cs, false), lzw_cs, Pow2(lzw_cs) + 2, -1, false)
      modifies context, `cur_x, `cur_y, `step, `parse, out, history, prefix, first, suffix
      ensures total == Remaining(Start(lzw_cs, false), lzw_cs + 1, 0, 0, Payload(context.data, old(context.pos), 0))
      ensures ok == total.ok && Drawn(f, p0, before, total.symbols, p)
      ensures ok ==> Clip(context.data, context.pos) == Clip(context.data, ChainEnd(context.data, old(context.pos), 0))
    {
      hide *;
      ghost var data, start := context.data, context.pos;
      ghost var s, done: seq<Byte> := Start(lzw_cs, false), [];
      HoldsValid(s, lzw_cs, Pow2(lzw_cs) + 2, -1, false);
      total := Remaining(s, lzw_cs + 1, 0, 0, Payload(data, start, 0));
      NothingDone(total);
      var clear := Pow2(lzw_cs);
      var seen_clear := false;
      var codesize: nat, codemask: nat := lzw_cs + 1, Pow2(lzw_cs + 1) - 1;
      var bits: nat, valid_bits: nat := 0, 0;
      var avail: nat, oldcode: int := clear + 2, -1;
      var len: nat := 0;
      p := p0;
      while true
        invariant s.Valid() && Holds(s, lzw_cs, avail, oldcode, seen_clear)
        invariant codesize > 0 && codemask == Pow2(codesize) - 1 && bits < Pow2(valid_bits)
        invariant ChainEnd(data, context.pos, len) == ChainEnd(data, start, 0)
        invariant total == After(done, Remaining(s, codesize, bits, valid_bits, Payload(data, context.pos, len)))
        invariant Drawn(f, p0, before, done, p)
        decreases |Payload(data, context.pos, len)|, valid_bits
      {
        if valid_bits < codesize {
          var more;
          more, len, bits, valid_bits := BufferNext(context, s, codesize, len, bits, valid_bits);
          if !more {
            AllDone(done);
            return true, total, p;
          }
        } else {
          ghost var payload := Payload(data, context.pos, len);
          var code := And(bits, codemask);
          NextCode(done, s, codesize, code, bits, valid_bits, payload);
          if code == clear + 1 {
            HoldsValid(s, lzw_cs, avail, oldcode, seen_clear);
            EndCode(s, code);
            context.SkipBlocks(len);
            return true, total, p;
          }
          ghost var bits0, valid0 := bits, valid_bits;
          bits := Shr(bits, codesize);
          valid_bits := valid_bits - codesize;
          ok, avail, oldcode, seen_clear, codesize, p, s, done :=
            CodeStep(f, p0, before, done, p, s, lzw_cs, code, avail, oldcode, seen_clear, codesize, bits0, valid0,
                payload);
          if !ok {
            return false, total, p;
          }
          codemask := Pow2(codesize) - 1;
        }
      }
    }

    lemma HoldsValid(s: Lzw, size: nat, avail: nat, oldcode: int, seen_clear: bool)
      requires Holds(s, size, avail, oldcode, seen_clear)
      ensures s.Valid() && s.size == size
    {
    }

    lemma EndCode(s: Lzw, code: nat)
      requires s.Valid() && code == Pow2(s.size) + 1
      ensures s.Read(code).End?
    {
    }

    lemma NothingDone(total: Output)
      ensures total == After([], total) && Pow2(0) == 1
    {
      assert [] + total.symbols == total.symbols;
    }

    lemma AllDone(done: seq<Byte>)
      ensures After(done, Output([], true)) == Output(done, true)
    {
      assert done + [] == done;
    }
  }
}

/** Expanding one Huffman-coded block into a growing output buffer. */
module Inflate {
  import opened Bits
  import opened Bytes
  import opened Huffman
  import opened HuffmanTable
  import opened ZBuf
  import opened Deflate

  /** Why a block ends. Unspecified stands for the length symbols 286 and 287 and the distance
      symbols 30 and 31, which RFC 1951 says never occur. */
  datatype Status = Done | BadCode | BadDistance | NoRoom | Unspecified

  /** How far doubling can take a buffer before its size exceeds half of UINT_MAX. */
  function MaxCapacity(limit: nat): (m: nat)
    requires limit > 0
    ensures limit <= m
    ensures limit <= UINT_MAX ==> m <= UINT_MAX
    decreases UINT_MAX - limit
  {
    if limit > UINT_MAX / 2 then limit else MaxCapacity(2 * limit)
  }

  /** The capacity is the size doubled until it exceeds 2^31 - 1, and no further. */
  lemma {:induction false} CapacityDoubles(limit: nat) returns (k: nat)
    requires limit > 0
    ensures MaxCapacity(limit) == limit * Pow2(k) > 0x7FFF_FFFF
    ensures k > 0 ==> limit * Pow2(k - 1) <= 0x7FFF_FFFF
    decreases UINT_MAX - limit
  {
    if limit > UINT_MAX / 2 {
      k := 0;
    } else {
      var m := CapacityDoubles(2 * limit);
      k := m + 1;
      DoubleTimes(limit, Pow2(m));
      if m > 0 { DoubleTimes(limit, Pow2(m - 1)); }
    }
  }

  lemma DoubleTimes(a: nat, p: nat)
    ensures (2 * a) * p == a * (2 * p)
  {
  }

  /** Everything a stream needs for the decoder to accept it as the block ts followed by rest. */
  ghost predicate Encodes(stream: nat, lit: seq<nat>, dist: seq<nat>, ts: seq<Token>, rest: nat, size: nat) {
    AllValid(lit, dist, ts) && Coded(lit, END_OF_BLOCK) && InWindow(size, ts) &&
    stream == PutBlock(lit, dist, ts, rest)
  }

  /** The input holds the block and 15 more bits, and the output buffer can grow to hold the result. */
  ghost predicate Fits(available: nat, limit: nat, lit: seq<nat>, dist: seq<nat>, ts: seq<Token>, size: nat)
    requires AllValid(lit, dist, ts) && Coded(lit, END_OF_BLOCK) && InWindow(size, ts)
  {
    available >= TokensBits(lit, dist, ts) + lit[END_OF_BLOCK] + 15 && ExpandedSize(size, ts) <= limit
  }

  class Inflater {
    const reader: Reader
    const z_length: ZHuffman
    const z_distance: ZHuffman
    const z_expandable: bool
    var zout_start: array<Byte>
    var zout: nat

    ghost predicate Valid()
      reads this, reader
    {
      reader.Valid() && zout <= zout_start.Length && 0 < zout_start.Length <= UINT_MAX
    }

    /** The bytes written so far. */
    ghost function Output(): seq<Byte>
      requires Valid()
      reads this, reader, zout_start
    {
      zout_start[..zout]
    }

    /** How large the output can become. */
    ghost function Limit(): nat
      requires Valid()
      reads this, reader
    {
      if z_expandable then MaxCapacity(zout_start.Length) else zout_start.Length
    }

    ghost predicate Tables(lit: seq<nat>, dist: seq<nat>)
      reads z_length.Repr(), z_distance.Repr()
    {
      z_length.Decodes(lit) && z_distance.Decodes(dist)
    }

    ghost predicate Separate()
      reads this
    {
      (zout_start as object) !in z_length.Repr() && (zout_start as object) !in z_distance.Repr()
    }

    constructor (reader: Reader, z_length: ZHuffman, z_distance: ZHuffman, obuf: array<Byte>, expandable: bool)
      requires reader.Valid() && 0 < obuf.Length <= UINT_MAX
      ensures Valid() && Output() == []
      ensures this.reader == reader && this.z_length == z_length && this.z_distance == z_distance
      ensures zout_start == obuf && z_expandable == expandable
    {
      this.reader, this.z_length, this.z_distance := reader, z_length, z_distance;
      zout_start, zout, z_expandable := obuf, 0, expandable;
    }

    /** stbi__zexpand: makes room for n more bytes after the bytes written so far. */
    method Expand(n: nat) returns (ok: bool)
      requires Valid()
      modifies this`zout_start
      ensures Valid() && zout == old(zout) && Output() == old(Output()) && Limit() == old(Limit())
      ensures ok <==> z_expandable && zout + n <= Limit()
      ensures ok ==> zout + n <= zout_start.Length && fresh(zout_start)
      ensures !ok ==> zout_start == old(zout_start)
    {
      if !z_expandable {
        return false;
      }
      var cur, limit := zout, zout_start.Length;
      if UINT_MAX - cur < n {
        return false;
      }
      while cur + n > limit
        invariant 0 < limit <= UINT_MAX && limit >= zout_start.Length
        invariant MaxCapacity(limit) == MaxCapacity(zout_start.Length)
        decreases UINT_MAX - limit
      {
        if limit > UINT_MAX / 2 {
          return false;
        }
        limit := limit * 2;
      }
      var q := new Byte[limit](i requires 0 <= i < limit reads this, zout_start =>
        if i < zout_start.Length then zout_start[i] else 0);
      zout_start := q;
      return true;
    }

    /** Appends one byte, growing the buffer when it is full. */
    method PutByte(b: Byte) returns (ok: bool)
      requires Valid()
      modifies this, zout_start
      ensures Valid() && Limit() == old(Limit())
      ensures zout_start == old(zout_start) || fresh(zout_start)
      ensures ok <==> old(zout) + 1 <= Limit()
      ensures Output() == if ok then old(Output()) + [b] else old(Output())
    {
      if zout >= zout_start.Length {
        ok := Expand(1);
        if !ok { return; }
      }
      zout_start[zout] := b;
      zout := zout + 1;
      ok := true;
    }

    /** Appends a match; a distance of one repeats a single byte. */
    method PutMatch(len: nat, dist: nat) returns (ok: bool)
      requires Valid() && 1 <= dist <= zout
      modifies this, zout_start
      ensures Valid() && Limit() == old(Limit())
      ensures zout_start == old(zout_start) || fresh(zout_start)
      ensures ok <==> old(zout) + len <= Limit()
      ensures Output() == if ok then CopyBack(old(Output()), len, dist) else old(Output())
    {
      if zout + len > zout_start.Length {
        ok := Expand(len);
        if !ok { return; }
      }
      if dist == 1 {
        RepeatByte(len);
      } else {
        CopyBytes(len, dist);
      }
      ok := true;
    }

    /** The run of one byte that a distance of one stands for. */
    method RepeatByte(len: nat)
      requires Valid() && 1 <= zout && zout + len <= zout_start.Length
      modifies this`zout, zout_start
      ensures Valid() && Output() == CopyBack(old(Output()), len, 1)
    {
      ghost var before := Output();
      var v, n := zout_start[zout - 1], 0;
      while n < len
        invariant n <= len && zout == |before| + n
        invariant Output() == CopyBack(before, n, 1) && zout_start[zout - 1] == v
      {
        zout_start[zout] := v;
        zout, n := zout + 1, n + 1;
        assert Output() == zout_start[..zout - 1] + [v];
      }
    }

    /** Byte by byte, so that a match may overlap what it writes. */
    method CopyBytes(len: nat, dist: nat)
      requires Valid() && 1 <= dist <= zout && zout + len <= zout_start.Length
      modifies this`zout, zout_start
      ensures Valid() && Output() == CopyBack(old(Output()), len, dist)
    {
      ghost var before := Output();
      var p, n := zout - dist, 0;
      while n < len
        invariant n <= len && zout == |before| + n && p == zout - dist
        invariant Output() == CopyBack(before, n, dist)
      {
        zout_start[zout] := zout_start[p];
        zout, p, n := zout + 1, p + 1, n + 1;
        assert Output() == zout_start[..zout - 1] + [zout_start[zout - 1 - dist]];
      }
    }

    /** The n extra bits of a length or distance symbol. */
    method Extra(n: nat) returns (x: nat)
      requires reader.Valid() && n <= 16
      modifies reader
      ensures reader.Valid() && x < Pow2(n)
      ensures old(reader.Pending()) == Put(x, n, reader.Pending())
      ensures reader.Available() + n >= old(reader.Available())
      ensures reader.Available() + n > old(reader.Available()) ==> reader.Eof()
    {
      TakeBits(reader.Pending(), n);
      x := 0;
      if n != 0 {
        x := reader.Receive(n);
      }
    }

    lemma TablesDecode(lit: seq<nat>, dist: seq<nat>)
      requires Tables(lit, dist)
      ensures Feasible(lit) && Feasible(dist) && Lengths(lit) && Lengths(dist)
    {
    }

    /** Reads what follows a length symbol: extra length bits, distance symbol, extra distance bits. */
    method ReadMatch(lc: nat, ghost lit: seq<nat>, ghost dist: seq<nat>)
      returns (st: Status, len: nat, d: nat, ghost t: Token)
      requires Valid() && Tables(lit, dist) && lc < LENGTH_CODES && Coded(lit, 257 + lc)
      modifies reader
      ensures Valid() && Tables(lit, dist)
      ensures st == Done || st == BadCode || st == Unspecified
      ensures st == Done ==> t.Valid(lit, dist) && t.Match? && t.lc == lc && len == t.Length() && d == t.Distance()
      ensures st == Done ==> old(reader.Pending()) == AfterSymbol(lit, dist, t, reader.Pending())
      ensures st == Done ==> reader.Available() + TokenBits(lit, dist, t) >= old(reader.Available()) + lit[257 + lc]
      ensures st != Done ==> NoMatch(old(reader.Pending()), old(reader.Available()), lit, dist, lc)
    {
      hide Token.Valid, AfterSymbol, TokenBits, NoMatch, StreamPrefix, CodeString, Feasible, Put, PutSymbol, Shr,
          Pow2, Reader.Pending, Lengths,
          ZHuffman.LengthTables, ZHuffman.SymbolTables, ZHuffman.FastTable;
      TablesDecode(lit, dist);
      ghost var start, room := reader.Pending(), reader.Available();
      ExtraBitsSmall(lc);
      var lx := Extra(LENGTH_EXTRA[lc]);
      len := LENGTH_BASE[lc] + lx;
      ghost var middle := reader.Pending();
      var starved := reader.num_bits < 16 && reader.Eof();
      var z := reader.Decode(z_distance, dist);
      d, t := 0, Literal(0);
      if z < 0 {
        NoDistance(start, room, middle, lit, dist, lc, lx, starved);
        return BadCode, len, d, t;
      }
      StartsIsPut(dist, z, middle);
      if z >= DIST_CODES {
        WrongDistance(start, room, middle, lit, dist, lc, lx, z);
        return Unspecified, len, d, t;
      }
      var dx := Extra(DIST_EXTRA[z]);
      d := DIST_BASE[z] + dx;
      t := Match(lc, lx, z, dx);
      MatchRead(lit, dist, t, reader.Pending());
      st := Done;
    }

    /** A match whose length symbol z has been read. */
    method ExpandMatch(z: nat, ghost lit: seq<nat>, ghost dist: seq<nat>) returns (st: Status, ghost t: Token)
      requires Valid() && Tables(lit, dist) && Separate() && Coded(lit, z) && 257 <= z < 257 + LENGTH_CODES
      modifies this, reader, zout_start
      ensures Valid() && Tables(lit, dist) && Limit() == old(Limit())
      ensures zout_start == old(zout_start) || fresh(zout_start)
      ensures st == Done ==> t.Valid(lit, dist) && FirstSymbol(t) == z && TokenRead(lit, dist, t, z,
                old(reader.Pending()), old(reader.Available()), reader.Pending(), reader.Available())
      ensures st == Done ==> Reaches(|old(Output())|, t) && Output() == Apply(old(Output()), t)
      ensures st != Done ==>
                NoToken(old(reader.Pending()), old(reader.Available()), lit, dist, z, |old(Output())|, old(Limit()))
    {
      hide NoToken, NoMatch, Put, PutSymbol, Pow2, Reader.Pending, MaxCapacity, Lengths, ZHuffman.LengthTables,
          ZHuffman.SymbolTables, ZHuffman.FastTable;
      ghost var after, left := reader.Pending(), reader.Available();
      var len, d;
      st, len, d, t := ReadMatch(z - 257, lit, dist);
      if st != Done {
        NoMatchNoToken(after, left, lit, dist, z, zout, Limit());
      } else {
        ghost var size := zout;
        st := PlaceMatch(len, d, t);
        if st != Done {
          OnlyThisToken(after, left, lit, dist, z, t, reader.Pending(), size, Limit());
        }
      }
    }

    /** Carries out a match that has been read. */
    method PlaceMatch(len: nat, d: nat, ghost t: Token) returns (st: Status)
      requires Valid() && t.Match? && t.lc < LENGTH_CODES && t.dc < DIST_CODES
      requires len == t.Length() && d == t.Distance()
      modifies this, zout_start
      ensures Valid() && Limit() == old(Limit())
      ensures zout_start == old(zout_start) || fresh(zout_start)
      ensures st == Done <==> Reaches(old(zout), t) && Grown(old(zout), t) <= old(Limit())
      ensures st == Done ==> Output() == Apply(old(Output()), t)
    {
      if zout < d {
        return BadDistance;
      }
      var ok := PutMatch(len, d);
      return if ok then Done else NoRoom;
    }

    /** Does what a literal or length symbol z asks for. On failure no token that starts with z
        can be read with the bits left, reaches back no further than the first byte, and fits. */
    method ExpandSymbol(z: nat, ghost lit: seq<nat>, ghost dist: seq<nat>) returns (st: Status, ghost t: Token)
      requires Valid() && Tables(lit, dist) && Separate() && Coded(lit, z) && z != END_OF_BLOCK
      modifies this, reader, zout_start
      ensures Valid() && Tables(lit, dist) && Separate() && Limit() == old(Limit())
      ensures zout_start == old(zout_start) || fresh(zout_start)
      ensures st == Done ==> t.Valid(lit, dist) && FirstSymbol(t) == z && TokenRead(lit, dist, t, z,
                old(reader.Pending()), old(reader.Available()), reader.Pending(), reader.Available())
      ensures st == Done ==> Reaches(|old(Output())|, t) && Output() == Apply(old(Output()), t)
      ensures st != Done ==>
                NoToken(old(reader.Pending()), old(reader.Available()), lit, dist, z, |old(Output())|, old(Limit()))
    {
      if z < 256 {
        t := Literal(z);
        var ok := PutByte(z);
        st := if ok then Done else NoRoom;
      } else if z - 257 >= LENGTH_CODES {
        st, t := Unspecified, Literal(0);
      } else {
        st, t := ExpandMatch(z, lit, dist);
      }
    }

    /** stbi__parse_huffman_block. It succeeds on every encoded block that fits with 15 bits to spare, and success
        means that it has consumed an encoded block and appended the bytes its tokens stand for. */
    method ParseHuffmanBlock(ghost lit: seq<nat>, ghost dist: seq<nat>) returns (st: Status, ghost done: seq<Token>)
      requires Valid() && Tables(lit, dist) && Separate()
      modifies this, reader, zout_start
      ensures Valid() && Tables(lit, dist) && Limit() == old(Limit()) && |Output()| <= Limit()
      ensures st == Done ==>
                Encodes(old(reader.Pending()), lit, dist, done, reader.Pending(), |old(Output())|) &&
                Output() == Deflate.Expand(old(Output()), done)
      ensures st != Done ==>
                Refused(old(reader.Pending()), old(reader.Available()), old(Limit()), lit, dist, |old(Output())|)
    {
      hide Progress, Encodes, Stuck, Refused, NoToken, StreamPrefix, CodeString, Put, PutSymbol, PutToken, Shr, Pow2,
          Reader.Pending, Feasible, MaxCapacity, Lengths, ZHuffman.LengthTables, ZHuffman.SymbolTables,
          ZHuffman.FastTable;
      ghost var stream, room, limit, before := reader.Pending(), reader.Available(), Limit(), Output();
      done := [];
      ProgressStarts(stream, room, lit, dist, before);
      TablesDecode(lit, dist);
      while true
        invariant Valid() && Tables(lit, dist) && Separate() && Limit() == limit
        invariant zout_start == old(zout_start) || fresh(zout_start)
        invariant Progress(stream, room, lit, dist, done, reader.Pending(), reader.Available(), before, Output())
        decreases UINT_MAX - zout
      {
        ghost var at, left, out := reader.Pending(), reader.Available(), Output();
        ghost var starved := reader.num_bits < 16 && reader.Eof();
        var z := reader.Decode(z_length, lit);
        if z < 0 {
          NoSymbol(at, left, lit, dist, starved, |out|, limit);
          StuckBlock(stream, room, limit, lit, dist, done, at, left, before, out);
          return BadCode, done;
        }
        StartsIsPut(lit, z, at);
        if z == END_OF_BLOCK {
          ProgressEnds(stream, room, lit, dist, done, at, left, before, out, reader.Pending());
          return Done, done;
        }
        ghost var after, left' := reader.Pending(), reader.Available();
        ghost var t;
        st, t := ExpandSymbol(z, lit, dist);
        if st != Done {
          NoTokenStuck(at, left, lit, dist, z, after, left', |out|, limit);
          StuckBlock(stream, room, limit, lit, dist, done, at, left, before, out);
          return st, done;
        }
        TokenStartsWithSymbol(lit, dist, t, reader.Pending());
        AppliedIsLonger(out, t);
        ProgressStep(stream, room, lit, dist, done, at, left, before, out, t, reader.Pending(), reader.Available());
        done := done + [t];
      }
    }
  }

  /** With this many bits left, no match with length code lc can be read from the stream. */
  ghost predicate NoMatch(stream: nat, available: nat, lit: seq<nat>, dist: seq<nat>, lc: nat) {
    forall t: Token, rest: nat | t.Valid(lit, dist) && t.Match? && t.lc == lc &&
        stream == AfterSymbol(lit, dist, t, rest) ::
      available + lit[257 + lc] < TokenBits(lit, dist, t) + 15
  }

  /** The parts of a match that were read make up the match. */
  lemma MatchRead(lit: seq<nat>, dist: seq<nat>, t: Token, rest: nat)
    requires t.Match? && t.lc < LENGTH_CODES && t.dc < DIST_CODES && Coded(lit, 257 + t.lc) && Coded(dist, t.dc)
    requires t.lx < Pow2(LENGTH_EXTRA[t.lc]) && t.dx < Pow2(DIST_EXTRA[t.dc])
    ensures t.Valid(lit, dist)
    ensures AfterSymbol(lit, dist, t, rest) ==
            Put(t.lx, LENGTH_EXTRA[t.lc], PutSymbol(dist, t.dc, Put(t.dx, DIST_EXTRA[t.dc], rest)))
    ensures TokenBits(lit, dist, t) == lit[257 + t.lc] + LENGTH_EXTRA[t.lc] + dist[t.dc] + DIST_EXTRA[t.dc]
  {
  }

  lemma NoMatchNoToken(after: nat, left: nat, lit: seq<nat>, dist: seq<nat>, z: nat, size: nat, limit: nat)
    requires Coded(lit, z) && 257 <= z < 257 + LENGTH_CODES && NoMatch(after, left, lit, dist, z - 257)
    ensures NoToken(after, left, lit, dist, z, size, limit)
  {
  }

  /** Reading the rest of token t took the stream from `after` to `next`. */
  ghost predicate TokenRead(lit: seq<nat>, dist: seq<nat>, t: Token, z: nat, after: nat, left: nat, next: nat,
      left': nat)
    requires t.Valid(lit, dist) && Coded(lit, z)
  {
    after == AfterSymbol(lit, dist, t, next) && left' + TokenBits(lit, dist, t) >= left + lit[z]
  }

  lemma AppliedIsLonger(out: seq<Byte>, t: Token)
    requires Reaches(|out|, t)
    ensures |Apply(out, t)| == Grown(|out|, t) > |out|
  {
    if t.Match? { PositiveLength(t); }
  }

  lemma PositiveLength(t: Token)
    requires t.Match? && t.lc < LENGTH_CODES
    ensures t.Length() >= 3
  {
    TablesChained();
    LengthTable(0);
    if 0 < t.lc < 28 { LaterCodeIsLarger(LENGTH_BASE, LENGTH_EXTRA, 28, 0, t.lc); }
  }

  /** No token that starts with symbol z can be read from the stream after z and be carried out. */
  ghost predicate NoToken(after: nat, left: nat, lit: seq<nat>, dist: seq<nat>, z: nat, size: nat, limit: nat)
    requires Coded(lit, z)
  {
    forall t: Token, rest: nat | t.Valid(lit, dist) && FirstSymbol(t) == z &&
        after == AfterSymbol(lit, dist, t, rest) ::
      left + lit[z] < TokenBits(lit, dist, t) + 15 || !Reaches(size, t) || Grown(size, t) > limit
  }

  lemma OnlyThisToken(after: nat, left: nat, lit: seq<nat>, dist: seq<nat>, z: nat, t: Token, next: nat, size: nat,
      limit: nat)
    requires Feasible(dist) && Coded(lit, z) && t.Valid(lit, dist) && FirstSymbol(t) == z
    requires after == AfterSymbol(lit, dist, t, next)
    requires !Reaches(size, t) || Grown(size, t) > limit
    ensures NoToken(after, left, lit, dist, z, size, limit)
  {
    forall t': Token, rest: nat | t'.Valid(lit, dist) && FirstSymbol(t') == z &&
        after == AfterSymbol(lit, dist, t', rest)
      ensures t' == t
    {
      AfterSymbolUnique(lit, dist, t, t', next, rest);
    }
  }

  lemma ExtraBitsSmall(lc: nat)
    requires lc < LENGTH_CODES
    ensures LENGTH_EXTRA[lc] <= 5
    ensures forall dc: nat :: dc < DIST_CODES ==> DIST_EXTRA[dc] <= 13
  {
  }

  lemma TakeBits(stream: nat, n: nat)
    ensures stream == Put(stream % Pow2(n), n, Shr(stream, n))
    ensures n == 0 ==> stream % Pow2(n) == 0 && Shr(stream, n) == stream
  {
    hide Shr;
    ShrIsDiv(stream, n);
    DivMod(stream, Pow2(n));
  }

  /** The distance part of a match is what follows its extra length bits. */
  lemma DistancePart(lit: seq<nat>, dist: seq<nat>, t: Token, rest: nat, lx: nat, middle: nat)
    requires t.Valid(lit, dist) && t.Match? && Feasible(dist) && lx < Pow2(LENGTH_EXTRA[t.lc])
    requires AfterSymbol(lit, dist, t, rest) == Put(lx, LENGTH_EXTRA[t.lc], middle)
    ensures middle == PutSymbol(dist, t.dc, Put(t.dx, DIST_EXTRA[t.dc], rest))
    ensures StartsWith(middle, dist, t.dc)
    ensures TokenBits(lit, dist, t) >= lit[257 + t.lc] + LENGTH_EXTRA[t.lc] + 1
  {
    var tail := Put(t.dx, DIST_EXTRA[t.dc], rest);
    PutUnique(lx, t.lx, LENGTH_EXTRA[t.lc], middle, PutSymbol(dist, t.dc, tail));
    PutSymbolStarts(dist, t.dc, tail);
  }

  lemma NoDistance(start: nat, room: nat, middle: nat, lit: seq<nat>, dist: seq<nat>, lc: nat, lx: nat, starved: bool)
    requires Feasible(dist) && lc < LENGTH_CODES && lx < Pow2(LENGTH_EXTRA[lc]) && lc + 257 < |lit|
    requires start == Put(lx, LENGTH_EXTRA[lc], middle)
    requires if starved then room < LENGTH_EXTRA[lc] + 16 else forall i: nat :: !StartsWith(middle, dist, i)
    ensures NoMatch(start, room, lit, dist, lc)
  {
    hide StartsWith, Put, PutSymbol, Pow2, Feasible, AfterSymbol;
    forall t: Token, rest: nat | t.Valid(lit, dist) && t.Match? && t.lc == lc &&
        start == AfterSymbol(lit, dist, t, rest)
      ensures room + lit[257 + lc] < TokenBits(lit, dist, t) + 15
    {
      DistancePart(lit, dist, t, rest, lx, middle);
    }
  }

  lemma WrongDistance(start: nat, room: nat, middle: nat, lit: seq<nat>, dist: seq<nat>, lc: nat, lx: nat, z: nat)
    requires Feasible(dist) && lc < LENGTH_CODES && lx < Pow2(LENGTH_EXTRA[lc]) && lc + 257 < |lit|
    requires start == Put(lx, LENGTH_EXTRA[lc], middle)
    requires StartsWith(middle, dist, z) && z >= DIST_CODES
    ensures NoMatch(start, room, lit, dist, lc)
  {
    forall t: Token, rest: nat | t.Valid(lit, dist) && t.Match? && t.lc == lc
      ensures start != AfterSymbol(lit, dist, t, rest)
    {
      if start == AfterSymbol(lit, dist, t, rest) {
        DistancePart(lit, dist, t, rest, lx, middle);
        MatchesIsStartsWith(middle, dist, z);
        MatchesIsStartsWith(middle, dist, t.dc);
        MatchUnique(middle, dist, z, t.dc);
      }
    }
  }

  // ---------------------------------------------------------------- the whole block

  /** No block that fits can be read from the stream. */
  ghost predicate Refused(stream: nat, room: nat, limit: nat, lit: seq<nat>, dist: seq<nat>, size: nat) {
    forall ts: seq<Token>, rest: nat | Encodes(stream, lit, dist, ts, rest, size) ::
        !Fits(room, limit, lit, dist, ts, size)
  }

  /** The tokens in done have been read, and `at` and `left` remain. */
  ghost predicate Progress(stream: nat, room: nat, lit: seq<nat>, dist: seq<nat>, done: seq<Token>,
                           at: nat, left: nat, before: seq<Byte>, out: seq<Byte>) {
    AllValid(lit, dist, done) && stream == PutTokens(lit, dist, done, at) &&
    left + TokensBits(lit, dist, done) >= room &&
    InWindow(|before|, done) && out == Deflate.Expand(before, done)
  }

  lemma ProgressStarts(stream: nat, room: nat, lit: seq<nat>, dist: seq<nat>, before: seq<Byte>)
    ensures Progress(stream, room, lit, dist, [], stream, room, before, before)
  {
  }

  lemma ProgressEnds(stream: nat, room: nat, lit: seq<nat>, dist: seq<nat>, done: seq<Token>,
                     at: nat, left: nat, before: seq<Byte>, out: seq<Byte>, rest: nat)
    requires Progress(stream, room, lit, dist, done, at, left, before, out)
    requires Coded(lit, END_OF_BLOCK) && at == PutSymbol(lit, END_OF_BLOCK, rest)
    ensures Encodes(stream, lit, dist, done, rest, |before|) && out == Deflate.Expand(before, done)
  {
  }

  lemma ProgressStep(stream: nat, room: nat, lit: seq<nat>, dist: seq<nat>, done: seq<Token>, at: nat, left: nat,
                     before: seq<Byte>, out: seq<Byte>, t: Token, at': nat, left': nat)
    requires Progress(stream, room, lit, dist, done, at, left, before, out)
    requires t.Valid(lit, dist) && at == PutToken(lit, dist, t, at')
    requires left' + TokenBits(lit, dist, t) >= left && Reaches(|out|, t)
    ensures Progress(stream, room, lit, dist, done + [t], at', left', before, Apply(out, t))
  {
    PutTokensSnoc(lit, dist, done, t, at');
    ExpandSnoc(before, done, t);
    assert (done + [t])[..|done|] == done;
  }

  /** Neither a token that can be carried out nor the end of the block can be read with the bits left. */
  ghost predicate Stuck(at: nat, left: nat, lit: seq<nat>, dist: seq<nat>, size: nat, limit: nat) {
    (forall t: Token, rest: nat | t.Valid(lit, dist) && at == PutToken(lit, dist, t, rest) ::
       left < TokenBits(lit, dist, t) + 15 || !Reaches(size, t) || Grown(size, t) > limit) &&
    (Coded(lit, END_OF_BLOCK) ==>
       forall rest: nat | at == PutSymbol(lit, END_OF_BLOCK, rest) :: left < lit[END_OF_BLOCK] + 15)
  }

  lemma NoSymbol(at: nat, left: nat, lit: seq<nat>, dist: seq<nat>, starved: bool, size: nat, limit: nat)
    requires Feasible(lit)
    requires if starved then left < 16 else forall i: nat :: !StartsWith(at, lit, i)
    ensures Stuck(at, left, lit, dist, size, limit)
  {
    forall t: Token, rest: nat | t.Valid(lit, dist) && at == PutToken(lit, dist, t, rest)
      ensures left < TokenBits(lit, dist, t) + 15
    {
      TokenStartsWithSymbol(lit, dist, t, rest);
      PutSymbolStarts(lit, FirstSymbol(t), AfterSymbol(lit, dist, t, rest));
    }
    if Coded(lit, END_OF_BLOCK) {
      forall rest: nat | at == PutSymbol(lit, END_OF_BLOCK, rest)
        ensures left < lit[END_OF_BLOCK] + 15
      {
        PutSymbolStarts(lit, END_OF_BLOCK, rest);
      }
    }
  }

  lemma NoTokenStuck(at: nat, left: nat, lit: seq<nat>, dist: seq<nat>, z: nat, after: nat, left': nat, size: nat,
      limit: nat)
    requires Feasible(lit) && Coded(lit, z) && z != END_OF_BLOCK && at == PutSymbol(lit, z, after)
    requires left' + lit[z] >= left && NoToken(after, left', lit, dist, z, size, limit)
    ensures Stuck(at, left, lit, dist, size, limit)
  {
    forall t: Token, rest: nat | t.Valid(lit, dist) && at == PutToken(lit, dist, t, rest)
      ensures left < TokenBits(lit, dist, t) + 15 || !Reaches(size, t) || Grown(size, t) > limit
    {
      TokenStartsWithSymbol(lit, dist, t, rest);
      PutSymbolUnique(lit, FirstSymbol(t), z, AfterSymbol(lit, dist, t, rest), after);
    }
    if Coded(lit, END_OF_BLOCK) {
      forall rest: nat
        ensures at != PutSymbol(lit, END_OF_BLOCK, rest)
      {
        if at == PutSymbol(lit, END_OF_BLOCK, rest) {
          PutSymbolUnique(lit, z, END_OF_BLOCK, after, rest);
        }
      }
    }
  }

  /** The block whose first tokens are done: what it says about the next token. */
  lemma BlockGoesOn(stream: nat, room: nat, limit: nat, lit: seq<nat>, dist: seq<nat>, done: seq<Token>, at: nat,
      left: nat,
                    before: seq<Byte>, out: seq<Byte>, ts: seq<Token>, rest: nat)
    requires Feasible(lit) && Feasible(dist)
    requires Progress(stream, room, lit, dist, done, at, left, before, out)
    requires Encodes(stream, lit, dist, ts, rest, |before|) && Fits(room, limit, lit, dist, ts, |before|)
    ensures |done| <= |ts|
    ensures |done| == |ts| ==> at == PutSymbol(lit, END_OF_BLOCK, rest) && left >= lit[END_OF_BLOCK] + 15
    ensures |done| < |ts| ==> exists rest': nat ::
              at == PutToken(lit, dist, ts[|done|], rest') && left >= TokenBits(lit, dist, ts[|done|]) + 15
    ensures |done| < |ts| ==> Reaches(|out|, ts[|done|]) && Grown(|out|, ts[|done|]) <= limit
  {
    ReadIsPrefix(lit, dist, done, at, ts, rest);
    var k := |done|;
    TokensBitsPrefix(lit, dist, ts, k);
    ExpandedSizeSplit(|before|, ts, k);
    ExpandedSizeIs(before, done);
    if k < |ts| {
      var tail := ts[k..];
      assert at == PutToken(lit, dist, ts[k], PutTokens(lit, dist, tail[1..], PutSymbol(lit, END_OF_BLOCK, rest)));
      ExpandedSizeGrows(Grown(|out|, ts[k]), tail[1..]);
    } else {
      assert ts[..k] == ts;
    }
  }

  lemma StuckBlock(stream: nat, room: nat, limit: nat, lit: seq<nat>, dist: seq<nat>, done: seq<Token>, at: nat,
      left: nat,
                   before: seq<Byte>, out: seq<Byte>)
    requires Feasible(lit) && Feasible(dist)
    requires Progress(stream, room, lit, dist, done, at, left, before, out)
    requires Stuck(at, left, lit, dist, |out|, limit)
    ensures Refused(stream, room, limit, lit, dist, |before|)
  {
    forall ts: seq<Token>, rest: nat | Encodes(stream, lit, dist, ts, rest, |before|)
      ensures !Fits(room, limit, lit, dist, ts, |before|)
    {
      if Fits(room, limit, lit, dist, ts, |before|) {
        BlockGoesOn(stream, room, limit, lit, dist, done, at, left, before, out, ts, rest);
      }
    }
  }

  /** A stream encodes at most one block. */
  lemma EncodesUnique(stream: nat, lit: seq<nat>, dist: seq<nat>, ts: seq<Token>, rest: nat,
                      ts': seq<Token>, rest': nat, size: nat)
    requires Feasible(lit) && Feasible(dist)
    requires Encodes(stream, lit, dist, ts, rest, size) && Encodes(stream, lit, dist, ts', rest', size)
    ensures ts == ts' && rest == rest'
  {
    var e, e' := PutSymbol(lit, END_OF_BLOCK, rest), PutSymbol(lit, END_OF_BLOCK, rest');
    ReadIsPrefix(lit, dist, ts, e, ts', rest');
    ReadIsPrefix(lit, dist, ts', e', ts, rest);
    assert ts == ts';
    assert ts'[|ts|..] == [];
    PutSymbolUnique(lit, END_OF_BLOCK, END_OF_BLOCK, rest, rest');
  }

  /** What a refused stream is not: with 15 bits left after it and room for its bytes, it is no block whose matches stay
      in the output. */
  lemma RefusedMeans(stream: nat, room: nat, limit: nat, lit: seq<nat>, dist: seq<nat>, size: nat, ts: seq<Token>,
      rest: nat)
    requires Feasible(lit) && Feasible(dist) && Refused(stream, room, limit, lit, dist, size)
    requires Coded(lit, 256) && AllValid(lit, dist, ts) && stream == PutBlock(lit, dist, ts, rest)
    requires InCodes(ts) && forall k: nat :: k < |ts| ==> ReachesAt(size, ts, k)
    ensures room < |BlockString(lit, dist, ts)| + 15 || size + Produced(ts) > limit
  {
    InWindowIs(size, ts);
    BlockBits(lit, dist, ts);
    assert Encodes(stream, lit, dist, ts, rest, size);
  }
}

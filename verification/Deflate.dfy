/** The compressed data of a DEFLATE block (sections 3.2.3 and 3.2.5 of RFC 1951): tokens, their
    encoding as a bit stream, and the bytes they stand for. */
module Deflate {
  import opened Bits
  import opened Bytes
  import opened Huffman
  import opened HuffmanTable
  import opened ZBuf

  const LENGTH_BASE: seq<nat> := [
    3, 4, 5, 6, 7, 8, 9, 10, 11, 13, 15, 17, 19, 23, 27, 31, 35, 43, 51, 59,
    67, 83, 99, 115, 131, 163, 195, 227, 258, 0, 0]
  const LENGTH_EXTRA: seq<nat> := [
    0, 0, 0, 0, 0, 0, 0, 0, 1, 1, 1, 1, 2, 2, 2, 2, 3, 3, 3, 3,
    4, 4, 4, 4, 5, 5, 5, 5, 0, 0, 0]
  const DIST_BASE: seq<nat> := [
    1, 2, 3, 4, 5, 7, 9, 13, 17, 25, 33, 49, 65, 97, 129, 193,
    257, 385, 513, 769, 1025, 1537, 2049, 3073, 4097, 6145, 8193, 12289, 16385, 24577, 0, 0]
  const DIST_EXTRA: seq<nat> := [
    0, 0, 0, 0, 1, 1, 2, 2, 3, 3, 4, 4, 5, 5, 6, 6,
    7, 7, 8, 8, 9, 9, 10, 10, 11, 11, 12, 12, 13, 13, 0, 0]

  const END_OF_BLOCK := 256
  const LENGTH_CODES := 29
  const DIST_CODES := 30

  /** A literal byte, or a match given by its length code and distance code with their extra bits. */
  datatype Token =
    | Literal(b: Byte)
    | Match(lc: nat, lx: nat, dc: nat, dx: nat)
  {
    predicate Valid(lit: seq<nat>, dist: seq<nat>) {
      match this
      case Literal(b) => Coded(lit, b)
      case Match(lc, lx, dc, dx) =>
        lc < LENGTH_CODES && dc < DIST_CODES && Coded(lit, 257 + lc) && Coded(dist, dc) &&
        lx < Pow2(LENGTH_EXTRA[lc]) && dx < Pow2(DIST_EXTRA[dc])
    }

    function Length(): nat
      requires Match? && lc < LENGTH_CODES
    {
      LENGTH_BASE[lc] + lx
    }

    function Distance(): nat
      requires Match? && dc < DIST_CODES
    {
      DIST_BASE[dc] + dx
    }
  }

  // ---------------------------------------------------------------- encoding

  /** The stream that continues with `bits` bits of v and then with rest. */
  function Put(v: nat, bits: nat, rest: nat): nat {
    v + Pow2(bits) * rest
  }

  function PutSymbol(lengths: seq<nat>, i: nat, rest: nat): nat
    requires Coded(lengths, i)
  {
    Put(Rev(Code(lengths, i), lengths[i]), lengths[i], rest)
  }

  function PutToken(lit: seq<nat>, dist: seq<nat>, t: Token, rest: nat): nat
    requires t.Valid(lit, dist)
  {
    match t
    case Literal(b) => PutSymbol(lit, b, rest)
    case Match(lc, lx, dc, dx) =>
      PutSymbol(lit, 257 + lc, Put(lx, LENGTH_EXTRA[lc], PutSymbol(dist, dc, Put(dx, DIST_EXTRA[dc], rest))))
  }

  predicate AllValid(lit: seq<nat>, dist: seq<nat>, ts: seq<Token>) {
    forall k :: 0 <= k < |ts| ==> ts[k].Valid(lit, dist)
  }

  function PutTokens(lit: seq<nat>, dist: seq<nat>, ts: seq<Token>, rest: nat): nat
    requires AllValid(lit, dist, ts)
  {
    if ts == [] then rest else PutToken(lit, dist, ts[0], PutTokens(lit, dist, ts[1..], rest))
  }

  /** A whole block: its tokens and the end-of-block symbol. */
  function PutBlock(lit: seq<nat>, dist: seq<nat>, ts: seq<Token>, rest: nat): nat
    requires AllValid(lit, dist, ts) && Coded(lit, END_OF_BLOCK)
  {
    PutTokens(lit, dist, ts, PutSymbol(lit, END_OF_BLOCK, rest))
  }

  function TokenBits(lit: seq<nat>, dist: seq<nat>, t: Token): nat
    requires t.Valid(lit, dist)
  {
    match t
    case Literal(b) => lit[b]
    case Match(lc, lx, dc, dx) => lit[257 + lc] + LENGTH_EXTRA[lc] + dist[dc] + DIST_EXTRA[dc]
  }

  function TokensBits(lit: seq<nat>, dist: seq<nat>, ts: seq<Token>): nat
    requires AllValid(lit, dist, ts)
  {
    if ts == [] then 0
    else TokensBits(lit, dist, ts[..|ts| - 1]) + TokenBits(lit, dist, ts[|ts| - 1])
  }

  // ---------------------------------------------------------------- meaning

  /** Appends n bytes, each a copy of the byte d places before it. */
  function CopyBack(out: seq<Byte>, n: nat, d: nat): (r: seq<Byte>)
    requires 1 <= d <= |out|
    ensures |r| == |out| + n
  {
    if n == 0 then out
    else
      var before := CopyBack(out, n - 1, d);
      before + [before[|before| - d]]
  }

  /** The size of the output after one token. */
  function Grown(n: nat, t: Token): nat
    requires t.Match? ==> t.lc < LENGTH_CODES
  {
    match t
    case Literal(_) => n + 1
    case Match(_, _, _, _) => n + t.Length()
  }

  /** A match of the token reaches back no further than the first byte. */
  predicate Reaches(n: nat, t: Token) {
    t.Match? ==> t.lc < LENGTH_CODES && t.dc < DIST_CODES && 1 <= t.Distance() <= n
  }

  predicate InWindow(n: nat, ts: seq<Token>)
    decreases |ts|
  {
    ts == [] || (Reaches(n, ts[0]) && InWindow(Grown(n, ts[0]), ts[1..]))
  }

  function Apply(out: seq<Byte>, t: Token): seq<Byte>
    requires Reaches(|out|, t)
  {
    match t
    case Literal(b) => out + [b]
    case Match(_, _, _, _) => CopyBack(out, t.Length(), t.Distance())
  }

  /** The bytes that the tokens append to what is already there. */
  function Expand(out: seq<Byte>, ts: seq<Token>): seq<Byte>
    requires InWindow(|out|, ts)
    decreases |ts|
  {
    if ts == [] then out else Expand(Apply(out, ts[0]), ts[1..])
  }

  /** The size of the output after the tokens. */
  function ExpandedSize(n: nat, ts: seq<Token>): nat
    requires InWindow(n, ts)
    decreases |ts|
  {
    if ts == [] then n
    else ExpandedSize(Grown(n, ts[0]), ts[1..])
  }

  /** Byte k of an overlapping copy repeats the last d bytes. */
  lemma {:induction false} CopyBackRepeats(out: seq<Byte>, n: nat, d: nat, k: nat)
    requires 1 <= d <= |out| && k < n
    ensures CopyBack(out, n, d)[|out| + k] == out[|out| - d + k % d]
    decreases n
  {
    var before := CopyBack(out, n - 1, d);
    if k < n - 1 {
      CopyBackRepeats(out, n - 1, d, k);
    } else if k < d {
      DivModUnique(k, d, 0, k);
      CopyBackKeeps(out, n - 1, d, |out| - d + k);
    } else {
      CopyBackRepeats(out, n - 1, d, k - d);
      DivModUnique(k, d, (k - d) / d + 1, (k - d) % d);
    }
  }

  lemma {:induction false} CopyBackKeeps(out: seq<Byte>, n: nat, d: nat, j: nat)
    requires 1 <= d <= |out| && j < |out|
    ensures CopyBack(out, n, d)[j] == out[j]
  {
    if n > 0 { CopyBackKeeps(out, n - 1, d, j); }
  }

  // ---------------------------------------------------------------- the tables

  /** The values of each code follow those of the code before. */
  ghost predicate Chained(base: seq<nat>, extra: seq<nat>, n: nat) {
    0 < n <= |base| && n <= |extra| && forall c: nat :: c + 1 < n ==> Next(base, extra, c)
  }

  predicate Next(base: seq<nat>, extra: seq<nat>, c: nat)
    requires c + 1 < |base| && c + 1 < |extra|
  {
    base[c + 1] == base[c] + Pow2(extra[c])
  }

  /** Value v is that of code c with the extra bits x. */
  predicate Stands(base: seq<nat>, extra: seq<nat>, n: nat, v: nat, c: nat, x: nat)
    requires n <= |base| && n <= |extra|
  {
    c < n && x < Pow2(extra[c]) && v == base[c] + x
  }

  /** Every value of a chained table has a code. */
  lemma {:induction false} ValueHasCode(base: seq<nat>, extra: seq<nat>, n: nat, v: nat) returns (c: nat, x: nat)
    requires Chained(base, extra, n) && base[0] <= v < base[n - 1] + Pow2(extra[n - 1])
    ensures Stands(base, extra, n, v, c, x)
  {
    if v >= base[n - 1] {
      c, x := n - 1, v - base[n - 1];
    } else {
      assert Next(base, extra, n - 2);
      c, x := ValueHasCode(base, extra, n - 1, v);
    }
  }

  /** The values of a later code are larger. */
  lemma {:induction false} LaterCodeIsLarger(base: seq<nat>, extra: seq<nat>, n: nat, c: nat, d: nat)
    requires Chained(base, extra, n) && c < d < n
    ensures base[c] + Pow2(extra[c]) <= base[d]
  {
    assert Next(base, extra, d - 1);
    if c < d - 1 { LaterCodeIsLarger(base, extra, n, c, d - 1); }
  }

  lemma ValueHasOneCode(base: seq<nat>, extra: seq<nat>, n: nat, v: nat, c: nat, x: nat, d: nat, y: nat)
    requires Chained(base, extra, n) && Stands(base, extra, n, v, c, x) && Stands(base, extra, n, v, d, y)
    ensures c == d && x == y
  {
    if c < d {
      LaterCodeIsLarger(base, extra, n, c, d);
    } else if d < c {
      LaterCodeIsLarger(base, extra, n, d, c);
    }
  }

  lemma ValueRange(base: seq<nat>, extra: seq<nat>, n: nat, v: nat, c: nat, x: nat)
    requires Chained(base, extra, n) && Stands(base, extra, n, v, c, x)
    ensures base[0] <= v < base[n - 1] + Pow2(extra[n - 1])
  {
    if c > 0 { LaterCodeIsLarger(base, extra, n, 0, c); }
    if c < n - 1 { LaterCodeIsLarger(base, extra, n, c, n - 1); }
  }

  /** The lengths: from 3, with no extra bits for eight codes and then one bit more every four codes; the last code
      stands for 258 alone. */
  lemma LengthTable(c: nat)
    requires c < 28
    ensures LENGTH_BASE[0] == 3 && LENGTH_EXTRA[c] == if c < 8 then 0 else c / 4 - 1
    ensures c < 27 ==> LENGTH_BASE[c + 1] == LENGTH_BASE[c] + Pow2(LENGTH_EXTRA[c])
    ensures LENGTH_CODES == 29 && LENGTH_BASE[28] == 258 && LENGTH_EXTRA[28] == 0
  {
    Pow2Values();
  }

  /** The distances: from 1, with no extra bits for two codes and then one bit more every two codes. */
  lemma DistanceTable(c: nat)
    requires c < 30
    ensures DIST_BASE[0] == 1 && DIST_EXTRA[c] == if c < 2 then 0 else c / 2 - 1
    ensures c < 29 ==> DIST_BASE[c + 1] == DIST_BASE[c] + Pow2(DIST_EXTRA[c])
    ensures DIST_CODES == 30
  {
    Pow2Values();
  }

  lemma TablesChained()
    ensures Chained(LENGTH_BASE, LENGTH_EXTRA, 28) && Chained(DIST_BASE, DIST_EXTRA, 30)
    ensures LENGTH_BASE[0] == 3 && LENGTH_BASE[27] + Pow2(LENGTH_EXTRA[27]) == 259
    ensures DIST_BASE[0] == 1 && DIST_BASE[29] + Pow2(DIST_EXTRA[29]) == 32769
  {
    forall c: nat | c + 1 < 28
      ensures Next(LENGTH_BASE, LENGTH_EXTRA, c)
    {
      LengthTable(c);
    }
    forall c: nat | c + 1 < 30
      ensures Next(DIST_BASE, DIST_EXTRA, c)
    {
      DistanceTable(c);
    }
    Pow2Values();
  }

  /** A match whose extra bits fit, by any length code but the last. */
  predicate InTables(t: Token) {
    t.Match? && t.lc < 28 && t.dc < 30 && t.lx < Pow2(LENGTH_EXTRA[t.lc]) && t.dx < Pow2(DIST_EXTRA[t.dc])
  }

  /** Every length from 3 to 258 with every distance from 1 to 32768 has a match. */
  lemma MatchFor(len: nat, dist: nat) returns (t: Token)
    requires 3 <= len <= 258 && 1 <= dist <= 32768
    ensures InTables(t) && t.Length() == len && t.Distance() == dist
  {
    TablesChained();
    var lc, lx := ValueHasCode(LENGTH_BASE, LENGTH_EXTRA, 28, len);
    var dc, dx := ValueHasCode(DIST_BASE, DIST_EXTRA, 30, dist);
    t := Match(lc, lx, dc, dx);
  }

  /** Other lengths and distances have none, and none has two; the last length code is 258 again. */
  lemma MatchIsOne(t: Token, u: Token)
    requires InTables(t) && InTables(u)
    ensures 3 <= t.Length() <= 258 && 1 <= t.Distance() <= 32768
    ensures t.Length() == u.Length() && t.Distance() == u.Distance() ==> t == u
    ensures Match(28, 0, t.dc, t.dx).Length() == 258 && Pow2(LENGTH_EXTRA[28]) == 1
  {
    TablesChained();
    LengthTable(0);
    ValueRange(LENGTH_BASE, LENGTH_EXTRA, 28, t.Length(), t.lc, t.lx);
    ValueRange(DIST_BASE, DIST_EXTRA, 30, t.Distance(), t.dc, t.dx);
    if t.Length() == u.Length() && t.Distance() == u.Distance() {
      ValueHasOneCode(LENGTH_BASE, LENGTH_EXTRA, 28, t.Length(), t.lc, t.lx, u.lc, u.lx);
      ValueHasOneCode(DIST_BASE, DIST_EXTRA, 30, t.Distance(), t.dc, t.dx, u.dc, u.dx);
    }
  }

  // ---------------------------------------------------------------- the stream as bits

  /** The bits of a token in the order of the stream: Huffman codes from their most significant bit, extra bits from
      their least significant (section 3.1.1). */
  function TokenString(lit: seq<nat>, dist: seq<nat>, t: Token): seq<bool>
    requires t.Valid(lit, dist)
  {
    match t
    case Literal(b) => CodeString(lit, b)
    case Match(lc, lx, dc, dx) =>
      CodeString(lit, 257 + lc) + StreamPrefix(lx, LENGTH_EXTRA[lc]) + CodeString(dist, dc) +
      StreamPrefix(dx, DIST_EXTRA[dc])
  }

  function BlockString(lit: seq<nat>, dist: seq<nat>, ts: seq<Token>): seq<bool>
    requires AllValid(lit, dist, ts) && Coded(lit, 256)
  {
    if ts == [] then CodeString(lit, 256) else TokenString(lit, dist, ts[0]) + BlockString(lit, dist, ts[1..])
  }

  lemma PutString(v: nat, bits: nat, rest: nat, m: nat)
    requires v < Pow2(bits)
    ensures StreamPrefix(Put(v, bits, rest), bits + m) == StreamPrefix(v, bits) + StreamPrefix(rest, m)
  {
    forall k | 0 <= k < bits + m
      ensures Bit(Put(v, bits, rest), k) == if k < bits then Bit(v, k) else Bit(rest, k - bits)
    {
      BitConcat(v, bits, rest, k);
    }
  }

  lemma SymbolString(lengths: seq<nat>, i: nat, rest: nat, m: nat)
    requires Feasible(lengths) && Coded(lengths, i)
    ensures StreamPrefix(PutSymbol(lengths, i, rest), lengths[i] + m) == CodeString(lengths, i) + StreamPrefix(rest, m)
  {
    var s := lengths[i];
    PutString(Rev(Code(lengths, i), s), s, rest, m);
    forall k | 0 <= k < s
      ensures Bit(Rev(Code(lengths, i), s), k) == Bit(Code(lengths, i), s - 1 - k)
    {
      BitRev(Code(lengths, i), s, k);
    }
    assert StreamPrefix(Rev(Code(lengths, i), s), s) == CodeString(lengths, i);
  }

  /** The symbol i, e extra bits, the symbol j and f extra bits. */
  lemma MatchString(lit: seq<nat>, dist: seq<nat>, i: nat, x: nat, e: nat, j: nat, y: nat, f: nat, rest: nat, m: nat)
    requires Feasible(lit) && Feasible(dist) && Coded(lit, i) && Coded(dist, j) && x < Pow2(e) && y < Pow2(f)
    ensures StreamPrefix(PutSymbol(lit, i, Put(x, e, PutSymbol(dist, j, Put(y, f, rest)))),
                         lit[i] + e + dist[j] + f + m) ==
            CodeString(lit, i) + StreamPrefix(x, e) + CodeString(dist, j) + StreamPrefix(y, f) + StreamPrefix(rest, m)
  {
    hide StreamPrefix, CodeString, Put, PutSymbol, Pow2, Feasible;
    var last := Put(y, f, rest);
    var middle := PutSymbol(dist, j, last);
    PutString(y, f, rest, m);
    SymbolString(dist, j, last, f + m);
    PutString(x, e, middle, dist[j] + (f + m));
    SymbolString(lit, i, Put(x, e, middle), e + (dist[j] + (f + m)));
    Regroup(CodeString(lit, i), StreamPrefix(x, e), CodeString(dist, j), StreamPrefix(y, f), StreamPrefix(rest, m));
  }

  lemma TokenIsString(lit: seq<nat>, dist: seq<nat>, t: Token, rest: nat, m: nat)
    requires Feasible(lit) && Feasible(dist) && t.Valid(lit, dist)
    ensures |TokenString(lit, dist, t)| == TokenBits(lit, dist, t)
    ensures StreamPrefix(PutToken(lit, dist, t, rest), TokenBits(lit, dist, t) + m) ==
            TokenString(lit, dist, t) + StreamPrefix(rest, m)
  {
    hide StreamPrefix, CodeString, Put, PutSymbol, Pow2, Feasible;
    match t
    case Literal(b) => SymbolString(lit, b, rest, m);
    case Match(lc, lx, dc, dx) =>
      MatchString(lit, dist, 257 + lc, lx, LENGTH_EXTRA[lc], dc, dx, DIST_EXTRA[dc], rest, m);
  }

  lemma Regroup(a: seq<bool>, b: seq<bool>, c: seq<bool>, d: seq<bool>, e: seq<bool>)
    ensures a + (b + (c + (d + e))) == a + b + c + d + e
  {
  }

  /** An encoded block is a string of bits: its tokens in order, and the end code. */
  lemma {:induction false} BlockIsString(lit: seq<nat>, dist: seq<nat>, ts: seq<Token>, rest: nat, m: nat)
    requires Feasible(lit) && Feasible(dist) && AllValid(lit, dist, ts) && Coded(lit, 256)
    ensures var bits := BlockString(lit, dist, ts);
      StreamPrefix(PutBlock(lit, dist, ts, rest), |bits| + m) == bits + StreamPrefix(rest, m)
  {
    hide StreamPrefix, CodeString, PutSymbol, PutToken, TokenString, Feasible;
    if ts == [] {
      SymbolString(lit, 256, rest, m);
    } else {
      var tail := PutBlock(lit, dist, ts[1..], rest);
      var bits := BlockString(lit, dist, ts[1..]);
      BlockIsString(lit, dist, ts[1..], rest, m);
      TokenIsString(lit, dist, ts[0], tail, |bits| + m);
      assert TokenString(lit, dist, ts[0]) + (bits + StreamPrefix(rest, m)) ==
             TokenString(lit, dist, ts[0]) + bits + StreamPrefix(rest, m);
    }
  }

  // ---------------------------------------------------------------- the expanded bytes

  lemma {:induction false} CopyBackAt(out: seq<Byte>, n: nat, d: nat, j: nat)
    requires 1 <= d <= |out| && |out| <= j < |out| + n
    ensures CopyBack(out, n, d)[j] == CopyBack(out, n, d)[j - d]
  {
    if j < |out| + n - 1 { CopyBackAt(out, n - 1, d, j); }
  }

  lemma {:induction false} ApplyKeeps(out: seq<Byte>, t: Token)
    requires Reaches(|out|, t)
    ensures out <= Apply(out, t)
  {
    if t.Match? {
      forall j | 0 <= j < |out|
        ensures Apply(out, t)[j] == out[j]
      {
        CopyBackKeeps(out, t.Length(), t.Distance(), j);
      }
    }
  }

  lemma {:induction false} ExpandKeeps(out: seq<Byte>, ts: seq<Token>)
    requires InWindow(|out|, ts)
    ensures out <= Expand(out, ts)
    decreases |ts|
  {
    if ts != [] {
      ApplyKeeps(out, ts[0]);
      ExpandKeeps(Apply(out, ts[0]), ts[1..]);
    }
  }

  lemma {:induction false} ExpandSplit(out: seq<Byte>, ts: seq<Token>, k: nat)
    requires InWindow(|out|, ts) && k < |ts|
    ensures InWindow(|out|, ts[..k]) && InWindow(|out|, ts[..k + 1])
    ensures var before := Expand(out, ts[..k]);
      Reaches(|before|, ts[k]) && Expand(out, ts[..k + 1]) == Apply(before, ts[k]) &&
      Apply(before, ts[k]) <= Expand(out, ts)
    decreases |ts|
  {
    var after := Apply(out, ts[0]);
    if k == 0 {
      assert ts[..1][1..] == [];
      ExpandKeeps(after, ts[1..]);
    } else {
      assert ts[..k][1..] == ts[1..][..k - 1] && ts[..k + 1][1..] == ts[1..][..k];
      ExpandSplit(after, ts[1..], k - 1);
    }
  }

  /** The output token by token: what was there comes first; a literal is its byte; every byte of a match is the byte
      its distance before; a literal adds one byte and a match its length. */
  lemma ExpandAt(out: seq<Byte>, ts: seq<Token>, k: nat)
    requires InWindow(|out|, ts) && k < |ts|
    ensures InWindow(|out|, ts[..k]) && InWindow(|out|, ts[..k + 1]) && Expand(out, []) == out <= Expand(out, ts)
    ensures var from, to, all := |Expand(out, ts[..k])|, |Expand(out, ts[..k + 1])|, Expand(out, ts);
      to <= |all| && Reaches(from, ts[k]) &&
      match ts[k]
      case Literal(b) => to == from + 1 && all[from] == b
      case Match(_, _, _, _) =>
        to == from + ts[k].Length() &&
        forall j :: from <= j < to ==> all[j] == all[j - ts[k].Distance()]
  {
    ExpandKeeps(out, ts);
    ExpandSplit(out, ts, k);
    var before, all := Expand(out, ts[..k]), Expand(out, ts);
    var now := Apply(before, ts[k]);
    if ts[k].Match? {
      var d := ts[k].Distance();
      forall j | |before| <= j < |now|
        ensures all[j] == all[j - d]
      {
        CopyBackAt(before, ts[k].Length(), d, j);
      }
    }
  }

  // ---------------------------------------------------------------- which blocks fit

  /** How many bytes the tokens stand for. */
  function Produced(ts: seq<Token>): nat
    requires InCodes(ts)
  {
    if ts == [] then 0 else (if ts[0].Literal? then 1 else ts[0].Length()) + Produced(ts[1..])
  }

  predicate InCodes(ts: seq<Token>) {
    forall t :: t in ts && t.Match? ==> t.lc < LENGTH_CODES && t.dc < DIST_CODES
  }

  /** A match reaches a byte that is there when its token gets its turn. */
  predicate ReachesAt(n: nat, ts: seq<Token>, k: nat)
    requires InCodes(ts) && k < |ts|
  {
    ts[k].Match? ==> ts[k].Distance() <= n + Produced(ts[..k])
  }

  lemma PositiveDistance(dc: nat)
    requires dc < DIST_CODES
    ensures DIST_BASE[dc] >= 1
  {
    TablesChained();
    if dc > 0 { LaterCodeIsLarger(DIST_BASE, DIST_EXTRA, 30, 0, dc); }
  }

  /** A block keeps to its window when no match's distance is larger than the output before it, and its output is what
      its tokens stand for. */
  lemma {:induction false} InWindowIs(n: nat, ts: seq<Token>)
    requires InCodes(ts)
    ensures InWindow(n, ts) <==> forall k: nat :: k < |ts| ==> ReachesAt(n, ts, k)
    ensures InWindow(n, ts) ==> ExpandedSize(n, ts) == n + Produced(ts)
    decreases |ts|
  {
    hide ReachesAt;
    if ts != [] {
      if ts[0].Match? { PositiveDistance(ts[0].dc); }
      var m := Grown(n, ts[0]);
      assert forall t :: t in ts[1..] ==> t in ts;
      InWindowIs(m, ts[1..]);
      assert ReachesAt(n, ts, 0) <==> Reaches(n, ts[0]) by { FirstReaches(n, ts); }
      if forall k: nat :: k < |ts| ==> ReachesAt(n, ts, k) {
        forall k: nat | k < |ts[1..]|
          ensures ReachesAt(m, ts[1..], k)
        {
          LaterReaches(n, ts, k);
        }
      }
      if Reaches(n, ts[0]) && forall k: nat :: k < |ts[1..]| ==> ReachesAt(m, ts[1..], k) {
        forall k: nat | k < |ts|
          ensures ReachesAt(n, ts, k)
        {
          if k > 0 { LaterReaches(n, ts, k - 1); }
        }
      }
    }
  }

  lemma FirstReaches(n: nat, ts: seq<Token>)
    requires InCodes(ts) && ts != []
    ensures ReachesAt(n, ts, 0) <==> Reaches(n, ts[0])
  {
    assert ts[..0] == [];
    if ts[0].Match? { PositiveDistance(ts[0].dc); }
  }

  lemma LaterReaches(n: nat, ts: seq<Token>, k: nat)
    requires InCodes(ts) && k + 1 < |ts|
    ensures InCodes(ts[1..]) && (ReachesAt(Grown(n, ts[0]), ts[1..], k) <==> ReachesAt(n, ts, k + 1))
  {
    assert ts[..k + 1][1..] == ts[1..][..k] && ts[..k + 1][0] == ts[0];
  }

  /** The bits of a block are those of its tokens and of the end code. */
  lemma {:induction false} BlockBits(lit: seq<nat>, dist: seq<nat>, ts: seq<Token>)
    requires Feasible(lit) && Feasible(dist) && AllValid(lit, dist, ts) && Coded(lit, 256)
    ensures |BlockString(lit, dist, ts)| == TokensBits(lit, dist, ts) + lit[256]
  {
    hide Feasible, TokenString, TokenBits, Coded;
    if ts != [] {
      BlockBits(lit, dist, ts[1..]);
      TokenIsString(lit, dist, ts[0], 0, 0);
      TokensBitsCons(lit, dist, ts);
    }
  }

  lemma {:induction false} TokensBitsCons(lit: seq<nat>, dist: seq<nat>, ts: seq<Token>)
    requires AllValid(lit, dist, ts) && ts != []
    ensures TokensBits(lit, dist, ts) == TokenBits(lit, dist, ts[0]) + TokensBits(lit, dist, ts[1..])
    decreases |ts|
  {
    hide TokenBits, Token.Valid;
    var m := |ts| - 1;
    if m > 0 {
      TokensBitsCons(lit, dist, ts[..m]);
      assert ts[..m][1..] == ts[1..][..m - 1];
    }
  }

  // ---------------------------------------------------------------- appending tokens

  lemma {:induction false} PutTokensSnoc(lit: seq<nat>, dist: seq<nat>, ts: seq<Token>, t: Token, rest: nat)
    requires AllValid(lit, dist, ts) && t.Valid(lit, dist)
    ensures AllValid(lit, dist, ts + [t])
    ensures PutTokens(lit, dist, ts + [t], rest) == PutTokens(lit, dist, ts, PutToken(lit, dist, t, rest))
  {
    if ts == [] {
      assert [t][1..] == [];
    } else {
      assert (ts + [t])[1..] == ts[1..] + [t];
      PutTokensSnoc(lit, dist, ts[1..], t, rest);
    }
  }

  lemma {:induction false} ExpandSnoc(out: seq<Byte>, ts: seq<Token>, t: Token)
    requires InWindow(|out|, ts) && Reaches(|Expand(out, ts)|, t)
    ensures InWindow(|out|, ts + [t])
    ensures Expand(out, ts + [t]) == Apply(Expand(out, ts), t)
    decreases |ts|
  {
    if ts == [] {
      assert [t][1..] == [];
      assert ts + [t] == [t];
    } else {
      assert (ts + [t])[1..] == ts[1..] + [t];
      ExpandSnoc(Apply(out, ts[0]), ts[1..], t);
    }
  }

  lemma {:induction false} ExpandedSizeIs(out: seq<Byte>, ts: seq<Token>)
    requires InWindow(|out|, ts)
    ensures |Expand(out, ts)| == ExpandedSize(|out|, ts)
    decreases |ts|
  {
    if ts != [] {
      ExpandedSizeIs(Apply(out, ts[0]), ts[1..]);
    }
  }

  lemma {:induction false} ExpandedSizeGrows(n: nat, ts: seq<Token>)
    requires InWindow(n, ts)
    ensures n <= ExpandedSize(n, ts)
    decreases |ts|
  {
    if ts != [] { ExpandedSizeGrows(Grown(n, ts[0]), ts[1..]); }
  }

  /** Splitting a token list splits its window condition and its size. */
  lemma {:induction false} ExpandedSizeSplit(n: nat, ts: seq<Token>, k: nat)
    requires InWindow(n, ts) && k <= |ts|
    ensures InWindow(n, ts[..k]) && InWindow(ExpandedSize(n, ts[..k]), ts[k..])
    ensures ExpandedSize(ExpandedSize(n, ts[..k]), ts[k..]) == ExpandedSize(n, ts)
    decreases |ts|
  {
    if k == 0 {
      assert ts[k..] == ts;
    } else {
      assert ts[..k][1..] == ts[1..][..k - 1];
      assert ts[1..][k - 1..] == ts[k..];
      ExpandedSizeSplit(Grown(n, ts[0]), ts[1..], k - 1);
    }
  }

  lemma {:induction false} TokensBitsPrefix(lit: seq<nat>, dist: seq<nat>, ts: seq<Token>, k: nat)
    requires AllValid(lit, dist, ts) && k <= |ts|
    ensures TokensBits(lit, dist, ts[..k]) <= TokensBits(lit, dist, ts)
    ensures k < |ts| ==> TokensBits(lit, dist, ts[..k]) + TokenBits(lit, dist, ts[k]) <= TokensBits(lit, dist, ts)
    decreases |ts|
  {
    if k < |ts| {
      var m := |ts| - 1;
      TokensBitsPrefix(lit, dist, ts[..m], k);
      assert ts[..m][..k] == ts[..k];
    } else {
      assert ts[..k] == ts;
    }
  }

  // ---------------------------------------------------------------- unique decoding

  lemma PutUnique(v: nat, v': nat, bits: nat, rest: nat, rest': nat)
    requires v < Pow2(bits) && v' < Pow2(bits)
    requires Put(v, bits, rest) == Put(v', bits, rest')
    ensures v == v' && rest == rest'
  {
    DivModUnique(Put(v, bits, rest), Pow2(bits), rest, v);
    DivModUnique(Put(v', bits, rest'), Pow2(bits), rest', v');
  }

  /** A stream that starts with a code is that code followed by what remains after it. */
  lemma StartsIsPut(lengths: seq<nat>, i: nat, stream: nat)
    requires Feasible(lengths) && StartsWith(stream, lengths, i)
    ensures stream == PutSymbol(lengths, i, Shr(stream, lengths[i]))
  {
    MatchesIsStartsWith(stream, lengths, i);
    MatchesIsStride(stream, lengths, i);
    ShrIsDiv(stream, lengths[i]);
    DivMod(stream, Pow2(lengths[i]));
  }

  lemma PutSymbolStarts(lengths: seq<nat>, i: nat, rest: nat)
    requires Feasible(lengths) && Coded(lengths, i)
    ensures StartsWith(PutSymbol(lengths, i, rest), lengths, i)
    ensures Shr(PutSymbol(lengths, i, rest), lengths[i]) == rest
  {
    var stream := PutSymbol(lengths, i, rest);
    DivModUnique(stream, Pow2(lengths[i]), rest, Rev(Code(lengths, i), lengths[i]));
    ShrIsDiv(stream, lengths[i]);
    MatchesIsStride(stream, lengths, i);
    MatchesIsStartsWith(stream, lengths, i);
  }

  lemma PutSymbolUnique(lengths: seq<nat>, i: nat, j: nat, rest: nat, rest': nat)
    requires Feasible(lengths) && Coded(lengths, i) && Coded(lengths, j)
    requires PutSymbol(lengths, i, rest) == PutSymbol(lengths, j, rest')
    ensures i == j && rest == rest'
  {
    var stream := PutSymbol(lengths, i, rest);
    PutSymbolStarts(lengths, i, rest);
    PutSymbolStarts(lengths, j, rest');
    MatchesIsStartsWith(stream, lengths, i);
    MatchesIsStartsWith(stream, lengths, j);
    MatchUnique(stream, lengths, i, j);
  }

  function FirstSymbol(t: Token): nat {
    match t
    case Literal(b) => b
    case Match(lc, _, _, _) => 257 + lc
  }

  /** What follows the first symbol of a token. */
  function AfterSymbol(lit: seq<nat>, dist: seq<nat>, t: Token, rest: nat): nat
    requires t.Valid(lit, dist)
  {
    match t
    case Literal(_) => rest
    case Match(lc, lx, dc, dx) =>
      Put(lx, LENGTH_EXTRA[lc], PutSymbol(dist, dc, Put(dx, DIST_EXTRA[dc], rest)))
  }

  lemma TokenStartsWithSymbol(lit: seq<nat>, dist: seq<nat>, t: Token, rest: nat)
    requires t.Valid(lit, dist)
    ensures Coded(lit, FirstSymbol(t))
    ensures PutToken(lit, dist, t, rest) == PutSymbol(lit, FirstSymbol(t), AfterSymbol(lit, dist, t, rest))
  {
  }

  lemma AfterSymbolUnique(lit: seq<nat>, dist: seq<nat>, t: Token, t': Token, rest: nat, rest': nat)
    requires Feasible(dist) && t.Valid(lit, dist) && t'.Valid(lit, dist) && FirstSymbol(t) == FirstSymbol(t')
    requires AfterSymbol(lit, dist, t, rest) == AfterSymbol(lit, dist, t', rest')
    ensures t == t' && rest == rest'
  {
    if t.Match? {
      assert t'.lc == t.lc;
      var d, d' := Put(t.dx, DIST_EXTRA[t.dc], rest), Put(t'.dx, DIST_EXTRA[t'.dc], rest');
      PutUnique(t.lx, t'.lx, LENGTH_EXTRA[t.lc], PutSymbol(dist, t.dc, d), PutSymbol(dist, t'.dc, d'));
      PutSymbolUnique(dist, t.dc, t'.dc, d, d');
      PutUnique(t.dx, t'.dx, DIST_EXTRA[t.dc], rest, rest');
    }
  }

  lemma PutTokenUnique(lit: seq<nat>, dist: seq<nat>, t: Token, t': Token, rest: nat, rest': nat)
    requires Feasible(lit) && Feasible(dist) && t.Valid(lit, dist) && t'.Valid(lit, dist)
    requires PutToken(lit, dist, t, rest) == PutToken(lit, dist, t', rest')
    ensures t == t' && rest == rest'
  {
    TokenStartsWithSymbol(lit, dist, t, rest);
    TokenStartsWithSymbol(lit, dist, t', rest');
    PutSymbolUnique(lit, FirstSymbol(t), FirstSymbol(t'), AfterSymbol(lit, dist, t, rest),
        AfterSymbol(lit, dist, t', rest'));
    AfterSymbolUnique(lit, dist, t, t', rest, rest');
  }

  lemma TokenIsNotEnd(lit: seq<nat>, dist: seq<nat>, t: Token, rest: nat, rest': nat)
    requires Feasible(lit) && t.Valid(lit, dist) && Coded(lit, END_OF_BLOCK)
    ensures PutToken(lit, dist, t, rest) != PutSymbol(lit, END_OF_BLOCK, rest')
  {
    TokenStartsWithSymbol(lit, dist, t, rest);
    if PutToken(lit, dist, t, rest) == PutSymbol(lit, END_OF_BLOCK, rest') {
      PutSymbolUnique(lit, FirstSymbol(t), END_OF_BLOCK, AfterSymbol(lit, dist, t, rest), rest');
    }
  }

  /** Tokens read off the front of an encoded block are the block's first tokens. */
  lemma {:induction false} ReadIsPrefix(lit: seq<nat>, dist: seq<nat>, done: seq<Token>, at: nat, ts: seq<Token>,
      rest: nat)
    requires Feasible(lit) && Feasible(dist) && Coded(lit, END_OF_BLOCK)
    requires AllValid(lit, dist, done) && AllValid(lit, dist, ts)
    requires PutTokens(lit, dist, done, at) == PutBlock(lit, dist, ts, rest)
    ensures |done| <= |ts| && done == ts[..|done|]
    ensures at == PutBlock(lit, dist, ts[|done|..], rest)
  {
    if done == [] {
      assert ts[0..] == ts;
    } else {
      var tail := PutTokens(lit, dist, done[1..], at);
      if ts == [] {
        TokenIsNotEnd(lit, dist, done[0], tail, rest);
      } else {
        PutTokenUnique(lit, dist, done[0], ts[0], tail, PutBlock(lit, dist, ts[1..], rest));
        hide PutToken, PutSymbol, Feasible, Coded;
        ReadIsPrefix(lit, dist, done[1..], at, ts[1..], rest);
        assert ts[1..][|done| - 1..] == ts[|done|..];
        assert done == [done[0]] + done[1..];
        assert ts[..|done|] == [ts[0]] + ts[1..][..|done| - 1];
      }
    }
  }
}

/** The row order and the painting of a GIF frame (Appendix E of the GIF89a Specification). */
module GifFrame {
  import opened Bytes

  /** A frame of w columns and h rows at column x and row y of an image. */
  datatype Frame = Frame(width: nat, height: nat, x: nat, y: nat, w: nat, h: nat, interlaced: bool) {
    ghost predicate Valid() {
      x + w <= width && y + h <= height
    }
  }

  /** The place the next pixel goes to: row and column inside the frame, the distance of the rows of this
      pass and the number of passes still to come. */
  datatype Place = Place(row: nat, col: nat, step: nat, parse: nat)

  /** The bytes of an image, four a pixel, and the pixels a frame has touched. */
  datatype Canvas = Canvas(bytes: seq<Byte>, touched: seq<Byte>)

  function First(f: Frame): Place {
    Place(if f.w == 0 then f.h else 0, 0, if f.interlaced then 8 else 1, if f.interlaced then 3 else 0)
  }

  /** Leaves the passes that have no row left. */
  function NextPass(f: Frame, p: Place): (r: Place)
    ensures r.row >= f.h ==> r.parse == 0
    ensures p.row < f.h ==> r == p
    decreases p.parse
  {
    if p.row < f.h || p.parse == 0 then p
    else
      var step := if p.parse == 3 then 8 else if p.parse == 2 then 4 else 2;
      NextPass(f, Place(step / 2, p.col, step, p.parse - 1))
  }

  function Next(f: Frame, p: Place): Place {
    if p.row >= f.h then p
    else if p.col + 1 < f.w then p.(col := p.col + 1)
    else NextPass(f, p.(row := p.row + p.step, col := 0))
  }

  /** Places a run of the decoder can be at. */
  ghost predicate OnTrack(f: Frame, p: Place) {
    p.step > 0 && (p.row < f.h ==> p.col < f.w) &&
    if !f.interlaced then p.step == 1 && p.parse == 0 && p.row <= f.h
    else if p.row >= f.h then true
    else if p.parse == 3 then p.step == 8 && p.row % 8 == 0
    else if p.parse == 2 then p.step == 8 && p.row % 8 == 4
    else if p.parse == 1 then p.step == 4 && p.row % 4 == 2
    else p.parse == 0 && p.step == 2 && p.row % 2 == 1
  }

  // ---------------------------------------------------------------- every row once

  /** How many rows are drawn before row r: rows 0, 8, ..., then 4, 12, ..., then 2, 6, ..., then the odd rows. */
  function Rank(f: Frame, r: nat): nat {
    if !f.interlaced then r
    else if r % 8 == 0 then r / 8
    else if r % 8 == 4 then (f.h + 7) / 8 + r / 8
    else if r % 4 == 2 then (f.h + 3) / 4 + r / 4
    else (f.h + 1) / 2 + r / 2
  }

  /** The number of pixels drawn before the place. */
  function Index(f: Frame, p: Place): nat {
    if p.row >= f.h then Times(f.h, f.w) else Times(Rank(f, p.row), f.w) + p.col
  }

  /** The number of the pixel at a row and a column, in the order of drawing. */
  function PixelIndex(f: Frame, row: nat, col: nat): nat {
    Times(Rank(f, row), f.w) + col
  }

  /** Rows before the pass of residue m in a frame of 8 * j + n rows, and rows of the pass before row
      8 * k + m. */
  function RankOf(j: nat, n: nat, k: nat, m: nat): nat
    requires n < 8 && m < 8
  {
    if m == 0 then k
    else if m == 4 then j + (if n > 0 then 1 else 0) + k
    else if m == 2 then 2 * j + (if n > 4 then 2 else if n > 0 then 1 else 0) + 2 * k
    else if m == 6 then 2 * j + (if n > 4 then 2 else if n > 0 then 1 else 0) + 2 * k + 1
    else 4 * j + (n + 1) / 2 + 4 * k + m / 2
  }

  lemma Split8(v: nat) returns (q: nat, r: nat)
    ensures v == 8 * q + r && r < 8 && q == v / 8 && r == v % 8
  {
    q, r := v / 8, v % 8;
  }

  lemma Div8(a: nat, b: nat)
    requires b < 8
    ensures (8 * a + b) / 8 == a && (8 * a + b) % 8 == b
  {
  }

  lemma Div4(a: nat, b: nat)
    requires b < 4
    ensures (4 * a + b) / 4 == a && (4 * a + b) % 4 == b
  {
  }

  lemma Div2(a: nat, b: nat)
    requires b < 2
    ensures (2 * a + b) / 2 == a && (2 * a + b) % 2 == b
  {
  }

  lemma Halves(q: nat, r: nat)
    requires r < 8
    ensures (8 * q + r) % 8 == r && (8 * q + r) / 8 == q
    ensures (8 * q + r) % 4 == r % 4 && (8 * q + r) / 4 == 2 * q + r / 4
    ensures (8 * q + r) / 2 == 4 * q + r / 2 && (8 * q + r) % 2 == r % 2
  {
    Div8(q, r);
    Div4(2 * q + r / 4, r % 4);
    Div2(4 * q + r / 2, r % 2);
    assert 8 * q + r == 4 * (2 * q + r / 4) + r % 4;
    assert 8 * q + r == 2 * (4 * q + r / 2) + r % 2;
  }

  lemma Ceilings(j: nat, n: nat)
    requires n < 8
    ensures (8 * j + n + 7) / 8 == j + (if n > 0 then 1 else 0)
    ensures (8 * j + n + 3) / 4 == 2 * j + (if n > 4 then 2 else if n > 0 then 1 else 0)
    ensures (8 * j + n + 1) / 2 == 4 * j + (n + 1) / 2
  {
  }

  lemma RankSplit(f: Frame, r: nat, j: nat, n: nat, k: nat, m: nat)
    requires f.interlaced && n < 8 && m < 8 && f.h == 8 * j + n && r == 8 * k + m
    ensures Rank(f, r) == RankOf(j, n, k, m)
  {
    Halves(k, m);
    Ceilings(j, n);
  }

  /** The pass of a row. */
  function Pass(m: nat): nat {
    if m == 0 then 0 else if m == 4 then 1 else if m == 2 || m == 6 then 2 else 3
  }

  /** Rows of the passes before a pass. */
  function Before(j: nat, n: nat, pass: nat): nat {
    if pass == 0 then 0
    else if pass == 1 then j + (if n > 0 then 1 else 0)
    else if pass == 2 then 2 * j + (if n > 4 then 2 else if n > 0 then 1 else 0)
    else if pass == 3 then 4 * j + (n + 1) / 2
    else 8 * j + n
  }

  lemma PassRange(j: nat, n: nat, k: nat, m: nat)
    requires n < 8 && m < 8 && 8 * k + m < 8 * j + n
    ensures Before(j, n, Pass(m)) <= RankOf(j, n, k, m) < Before(j, n, Pass(m) + 1)
    ensures Before(j, n, Pass(m) + 1) <= 8 * j + n
  {
    if Pass(m) == 0 { } else if Pass(m) == 1 { } else if Pass(m) == 2 { } else { }
  }

  lemma BeforeMono(j: nat, n: nat, a: nat, b: nat)
    requires n < 8 && a <= b
    ensures Before(j, n, a) <= Before(j, n, b)
  {
  }

  lemma RankOfInjective(j: nat, n: nat, k: nat, m: nat, k': nat, m': nat)
    requires n < 8 && m < 8 && 8 * k + m < 8 * j + n && m' < 8 && 8 * k' + m' < 8 * j + n
    requires RankOf(j, n, k, m) == RankOf(j, n, k', m')
    ensures k == k' && m == m'
  {
    PassRange(j, n, k, m);
    PassRange(j, n, k', m');
    if Pass(m) < Pass(m') {
      BeforeMono(j, n, Pass(m) + 1, Pass(m'));
    } else if Pass(m') < Pass(m) {
      BeforeMono(j, n, Pass(m') + 1, Pass(m));
    } else if Pass(m) == 3 {
      OddRows(k, m, k', m');
    }
  }

  lemma OddRows(k: nat, m: nat, k': nat, m': nat)
    requires Pass(m) == 3 && Pass(m') == 3 && m < 8 && m' < 8 && 4 * k + m / 2 == 4 * k' + m' / 2
    ensures k == k' && m == m'
  {
  }

  lemma RankBound(f: Frame, r: nat)
    requires r < f.h
    ensures Rank(f, r) < f.h
  {
    if f.interlaced {
      var j, n := Split8(f.h);
      var k, m := Split8(r);
      RankSplit(f, r, j, n, k, m);
      PassRange(j, n, k, m);
    }
  }

  lemma RankInjective(f: Frame, r: nat, q: nat)
    requires r < f.h && q < f.h && Rank(f, r) == Rank(f, q)
    ensures r == q
  {
    if f.interlaced {
      var j, n := Split8(f.h);
      var k, m := Split8(r);
      var k', m' := Split8(q);
      RankSplit(f, r, j, n, k, m);
      RankSplit(f, q, j, n, k', m');
      RankOfInjective(j, n, k, m, k', m');
    }
  }

  /** The row after row 8 * k + m: the next of its pass, or the first of the next pass that has one. */
  function RowAfter(h: nat, k: nat, m: nat): nat {
    var r := 8 * k + m;
    if m % 2 == 1 then r + 2
    else if m == 2 || m == 6 then if r + 4 < h then r + 4 else 1
    else if r + 8 < h then r + 8
    else if m == 0 && 4 < h then 4
    else if 2 < h then 2
    else 1
  }

  lemma RowAfterIsNextRank(f: Frame, k: nat, m: nat)
    requires f.interlaced && m < 8 && 8 * k + m < f.h
    ensures var r := RowAfter(f.h, k, m);
      if r < f.h then Rank(f, r) == Rank(f, 8 * k + m) + 1 else Rank(f, 8 * k + m) + 1 == f.h
  {
    hide *;
    var j, n := Split8(f.h);
    var k', m' := NextSplit(f.h, k, m);
    RankSplit(f, 8 * k + m, j, n, k, m);
    RankSplit(f, RowAfter(f.h, k, m), j, n, k', m');
    NextRankOf(j, n, k, m, k', m');
  }

  lemma NextSplit(h: nat, k: nat, m: nat) returns (k': nat, m': nat)
    requires m < 8
    ensures m' < 8 && RowAfter(h, k, m) == 8 * k' + m'
  {
    k', m' := Split8(RowAfter(h, k, m));
  }

  lemma NextRankOf(j: nat, n: nat, k: nat, m: nat, k': nat, m': nat)
    requires n < 8 && m < 8 && m' < 8 && 8 * k + m < 8 * j + n && RowAfter(8 * j + n, k, m) == 8 * k' + m'
    ensures if 8 * k' + m' < 8 * j + n then RankOf(j, n, k', m') == RankOf(j, n, k, m) + 1
            else RankOf(j, n, k, m) + 1 == 8 * j + n
  {
    if m % 2 == 1 {
      assert if m == 7 then m' == 1 && k' == k + 1 else m' == m + 2 && k' == k;
    } else if m == 2 || m == 6 {
      if 8 * k + m + 4 < 8 * j + n {
        assert if m == 2 then m' == 6 && k' == k else m' == 2 && k' == k + 1;
      } else {
        assert m' == 1 && k' == 0;
      }
    } else if 8 * k + m + 8 < 8 * j + n {
      assert m' == m && k' == k + 1;
    } else {
      assert k' == 0 && (m' == 4 || m' == 2 || m' == 1);
    }
  }

  /** After the last row of a pass comes the first row of the next pass that has one, and it is next in rank. */
  lemma NextRow(f: Frame, p: Place)
    requires OnTrack(f, p) && p.row < f.h && f.w > 0
    ensures var r := NextPass(f, p.(row := p.row + p.step, col := 0));
      OnTrack(f, r) && r.col == 0 && (if r.row < f.h then Rank(f, r.row) == Rank(f, p.row) + 1
          else Rank(f, p.row) + 1 == f.h)
  {
    if f.interlaced {
      NextInterlaced(f, p);
    }
  }

  lemma NextInterlaced(f: Frame, p: Place)
    requires f.interlaced && OnTrack(f, p) && p.row < f.h && f.w > 0
    ensures var r := NextPass(f, p.(row := p.row + p.step, col := 0));
      OnTrack(f, r) && r.col == 0 && (if r.row < f.h then Rank(f, r.row) == Rank(f, p.row) + 1
          else Rank(f, p.row) + 1 == f.h)
  {
    hide *;
    var k, m := Split8(p.row);
    NextPlace(f, p, k, m);
    RowAfterIsNextRank(f, k, m);
  }

  lemma NextPlace(f: Frame, p: Place, k: nat, m: nat)
    requires f.interlaced && OnTrack(f, p) && p.row < f.h && f.w > 0 && m < 8 && p.row == 8 * k + m
    ensures var r := NextPass(f, p.(row := p.row + p.step, col := 0));
      OnTrack(f, r) && r.col == 0 && r.row == RowAfter(f.h, k, m)
  {
    hide OnTrack, NextPass;
    PassOfRow(f, p, k, m);
    NextPassCases(f, p.(row := p.row + p.step, col := 0));
    if m % 2 == 1 {
      OddTrack(f, p, k, m);
    } else if m == 2 || m == 6 {
      Track4(f, p, k, m);
    } else {
      Track8(f, p, k, m);
    }
    FirstRows(f);
  }

  /** The pass a row belongs to. */
  lemma PassOfRow(f: Frame, p: Place, k: nat, m: nat)
    requires f.interlaced && OnTrack(f, p) && p.row < f.h && m < 8 && p.row == 8 * k + m
    ensures if m == 0 then p.parse == 3 && p.step == 8 else if m == 4 then p.parse == 2 && p.step == 8
            else if m == 2 || m == 6 then p.parse == 1 && p.step == 4 else p.parse == 0 && p.step == 2
  {
    Halves(k, m);
  }

  lemma OddTrack(f: Frame, p: Place, k: nat, m: nat)
    requires f.interlaced && f.w > 0 && m < 8 && m % 2 == 1 && p.row == 8 * k + m && p.step == 2 && p.parse == 0
    ensures OnTrack(f, p.(row := p.row + 2, col := 0))
  {
    var t := m / 2;
    assert p.row + 2 == 2 * (4 * k + t + 1) + 1;
    Div2(4 * k + t + 1, 1);
  }

  lemma Track4(f: Frame, p: Place, k: nat, m: nat)
    requires f.interlaced && f.w > 0 && (m == 2 || m == 6) && p.row == 8 * k + m && p.step == 4 && p.parse == 1
    ensures OnTrack(f, p.(row := p.row + 4, col := 0))
  {
    var t := if m == 2 then 1 else 2;
    assert p.row + 4 == 4 * (2 * k + t) + 2;
    Div4(2 * k + t, 2);
  }

  lemma Track8(f: Frame, p: Place, k: nat, m: nat)
    requires f.interlaced && f.w > 0 && p.row == 8 * k + m && p.step == 8
    requires (m == 0 && p.parse == 3) || (m == 4 && p.parse == 2)
    ensures OnTrack(f, p.(row := p.row + 8, col := 0))
  {
    assert p.row + 8 == 8 * (k + 1) + m;
    Div8(k + 1, m);
  }

  /** The first rows of the later passes. */
  lemma FirstRows(f: Frame)
    requires f.interlaced && f.w > 0
    ensures OnTrack(f, Place(4, 0, 8, 2)) && OnTrack(f, Place(2, 0, 4, 1)) && OnTrack(f, Place(1, 0, 2, 0))
  {
  }

  /** The pass after, written out. */
  lemma NextPassCases(f: Frame, p: Place)
    requires p.parse <= 3
    ensures NextPass(f, p) ==
      if p.row < f.h || p.parse == 0 then p
      else if p.parse == 3 && 4 < f.h then Place(4, p.col, 8, 2)
      else if p.parse >= 2 && 2 < f.h then Place(2, p.col, 4, 1)
      else Place(1, p.col, 2, 0)
  {
    var one, two := Place(1, p.col, 2, 0), Place(2, p.col, 4, 1);
    assert NextPass(f, one) == one;
    assert NextPass(f, two) == if 2 < f.h then two else one;
  }

  lemma FewPasses(f: Frame, p: Place)
    requires OnTrack(f, p) && p.row < f.h
    ensures p.parse <= 3
  {
  }

  lemma LastPass(f: Frame, p: Place)
    requires p.row < f.h || p.parse == 0
    ensures NextPass(f, p) == p
  {
  }

  /** Drawing a pixel moves on by one pixel. */
  lemma NextIndex(f: Frame, p: Place)
    requires OnTrack(f, p) && p.row < f.h
    ensures OnTrack(f, Next(f, p)) && Index(f, Next(f, p)) == Index(f, p) + 1
  {
    hide Rank, NextPass;
    NextRow(f, p);
  }

  lemma FirstOnTrack(f: Frame)
    ensures OnTrack(f, First(f)) && Index(f, First(f)) == 0
  {
    if f.w == 0 || f.h == 0 { TimesZero(f.h); }
  }

  /** The place after k pixels. */
  function After(f: Frame, p: Place, k: nat): Place
    decreases k
  {
    if k == 0 then p else After(f, Next(f, p), k - 1)
  }

  lemma {:induction false} AfterIndex(f: Frame, p: Place, k: nat)
    requires OnTrack(f, p) && Index(f, p) + k <= Times(f.h, f.w)
    ensures OnTrack(f, After(f, p, k)) && Index(f, After(f, p, k)) == Index(f, p) + k
    decreases k
  {
    if k > 0 {
      TrackEnds(f, p);
      NextIndex(f, p);
      AfterIndex(f, Next(f, p), k - 1);
    }
  }

  lemma TrackEnds(f: Frame, p: Place)
    requires OnTrack(f, p)
    ensures p.row < f.h <==> Index(f, p) < Times(f.h, f.w)
  {
    if p.row < f.h {
      RankBound(f, p.row);
      TimesMono(Rank(f, p.row), f.h, f.w);
    }
  }

  lemma PixelIndexInjective(f: Frame, row: nat, col: nat, row': nat, col': nat)
    requires row < f.h && row' < f.h && col < f.w && col' < f.w
    requires PixelIndex(f, row, col) == PixelIndex(f, row', col')
    ensures row == row' && col == col'
  {
    var a, b := Rank(f, row), Rank(f, row');
    if a < b { TimesMono(a, b, f.w); } else if b < a { TimesMono(b, a, f.w); }
    RankInjective(f, row, row');
  }

  lemma PixelIndexBound(f: Frame, row: nat, col: nat)
    requires row < f.h && col < f.w
    ensures PixelIndex(f, row, col) < Times(f.h, f.w)
  {
    RankBound(f, row);
    TimesMono(Rank(f, row), f.h, f.w);
  }

  /** The decoder visits every pixel of the frame exactly once before it passes the last row, whether the
      frame is interlaced or not. */
  lemma EachPixelOnce(f: Frame, row: nat, col: nat, k: nat)
    requires row < f.h && col < f.w
    ensures var p := After(f, First(f), k);
      (p.row < f.h && p.row == row && p.col == col) <==> k == PixelIndex(f, row, col)
  {
    FirstOnTrack(f);
    PixelIndexBound(f, row, col);
    if k <= Times(f.h, f.w) {
      AfterIndex(f, First(f), k);
      var p := After(f, First(f), k);
      TrackEnds(f, p);
      if p.row < f.h {
        if PixelIndex(f, p.row, p.col) == PixelIndex(f, row, col) { PixelIndexInjective(f, row, col, p.row, p.col); }
      }
    } else {
      AfterIndex(f, First(f), Times(f.h, f.w));
      TrackEnds(f, After(f, First(f), Times(f.h, f.w)));
      StaysDone(f, First(f), Times(f.h, f.w), k);
    }
  }

  lemma {:induction false} StaysDone(f: Frame, p: Place, n: nat, k: nat)
    requires n <= k && After(f, p, n).row >= f.h
    ensures After(f, p, k) == After(f, p, n)
    decreases n, k
  {
    if n > 0 { StaysDone(f, Next(f, p), n - 1, k - 1); } else if k > 0 { StaysDone(f, Next(f, p), 0, k - 1); }
  }

  // ---------------------------------------------------------------- painting

  /** The color of a symbol: blue, green, red, alpha. */
  function Color(table: seq<Byte>, symbol: Byte): (c: seq<Byte>)
    requires |table| == 1024
    ensures |c| == 4
  {
    table[4 * symbol..4 * symbol + 4]
  }

  /** The image has room for the frame. */
  ghost predicate Room(f: Frame, c: Canvas) {
    f.Valid() && |c.touched| == Times(f.height, f.width) && |c.bytes| == 4 * |c.touched|
  }

  /** The number of the image pixel at a place of the frame. */
  function Pixel(f: Frame, row: nat, col: nat): nat {
    Times(f.y + row, f.width) + f.x + col
  }

  lemma PixelInImage(f: Frame, row: nat, col: nat)
    requires f.Valid() && row < f.h && col < f.w
    ensures Pixel(f, row, col) < Times(f.height, f.width)
  {
    TimesMono(f.y + row, f.height, f.width);
  }

  lemma PixelDistinct(f: Frame, row: nat, col: nat, row': nat, col': nat)
    requires f.Valid() && col < f.w && col' < f.w && Pixel(f, row, col) == Pixel(f, row', col')
    ensures row == row' && col == col'
  {
    if row < row' { TimesMono(f.y + row, f.y + row', f.width); }
    if row' < row { TimesMono(f.y + row', f.y + row, f.width); }
  }

  /** One symbol drawn at a place; a color with alpha up to 128 leaves the pixel as it was. */
  function PaintOne(f: Frame, table: seq<Byte>, c: Canvas, p: Place, symbol: Byte): (r: Canvas)
    requires |table| == 1024 && Room(f, c) && (p.row < f.h ==> p.col < f.w)
    ensures Room(f, r)
  {
    if p.row >= f.h then c
    else
      PixelInImage(f, p.row, p.col);
      var i, v := Pixel(f, p.row, p.col), Color(table, symbol);
      Canvas(if v[3] > 128 then c.bytes[4 * i := v[2]][4 * i + 1 := v[1]][4 * i + 2 := v[0]][4 * i + 3 := v[3]]
          else c.bytes,
             c.touched[i := 1])
  }

  /** Symbols drawn one after the other. */
  function Paint(f: Frame, table: seq<Byte>, c: Canvas, p: Place, symbols: seq<Byte>): (r: Canvas)
    requires |table| == 1024 && Room(f, c) && OnTrack(f, p)
    ensures Room(f, r)
    decreases |symbols|
  {
    if symbols == [] then c
    else
      NextOnTrack(f, p);
      Paint(f, table, PaintOne(f, table, c, p, symbols[0]), Next(f, p), symbols[1..])
  }

  lemma NextOnTrack(f: Frame, p: Place)
    requires OnTrack(f, p)
    ensures OnTrack(f, Next(f, p))
  {
    if p.row < f.h { NextIndex(f, p); }
  }

  lemma {:induction false} PaintConcat(f: Frame, table: seq<Byte>, c: Canvas, p: Place, a: seq<Byte>, b: seq<Byte>)
    requires |table| == 1024 && Room(f, c) && OnTrack(f, p)
    ensures OnTrack(f, After(f, p, |a|))
    ensures After(f, p, |a + b|) == After(f, After(f, p, |a|), |b|)
    ensures Paint(f, table, c, p, a + b) == Paint(f, table, Paint(f, table, c, p, a), After(f, p, |a|), b)
    decreases |a|
  {
    if a == [] {
      assert a + b == b;
    } else {
      NextOnTrack(f, p);
      PaintConcat(f, table, PaintOne(f, table, c, p, a[0]), Next(f, p), a[1..], b);
      assert (a + b)[1..] == a[1..] + b;
    }
  }

  /** Four bytes of an image pixel. */
  function PixelBytes(c: Canvas, i: nat): seq<Byte>
    requires |c.bytes| == 4 * |c.touched| && i < |c.touched|
  {
    c.bytes[4 * i..4 * i + 4]
  }

  /** What a pixel drawn with a symbol shows. */
  function Shown(table: seq<Byte>, symbol: Byte, before: seq<Byte>): seq<Byte>
    requires |table| == 1024
  {
    var v := Color(table, symbol);
    if v[3] > 128 then [v[2], v[1], v[0], v[3]] else before
  }

  /** Pixels are numbered row by row from the top of the image; a color above alpha 128 is shown as its red, green, blue
      and alpha, which the table keeps from blue to alpha. */
  lemma PixelAndColor(f: Frame, row: nat, col: nat, table: seq<Byte>, symbol: Byte, before: seq<Byte>)
    requires |table| == 1024
    ensures Pixel(f, row, col) == (f.y + row) * f.width + (f.x + col)
    ensures var blue, green, red, alpha := table[4 * symbol], table[4 * symbol + 1], table[4 * symbol + 2],
        table[4 * symbol + 3];
      Shown(table, symbol, before) == if alpha > 128 then [red, green, blue, alpha] else before
  {
    TimesIsProduct(f.y + row, f.width);
  }

  lemma PaintOnePixel(f: Frame, table: seq<Byte>, c: Canvas, p: Place, symbol: Byte, i: nat)
    requires |table| == 1024 && Room(f, c) && p.row < f.h && p.col < f.w && i < |c.touched|
    ensures var r := PaintOne(f, table, c, p, symbol);
      if i == Pixel(f, p.row, p.col) then r.touched[i] == 1 &&
          PixelBytes(r, i) == Shown(table, symbol, PixelBytes(c, i))
      else r.touched[i] == c.touched[i] && PixelBytes(r, i) == PixelBytes(c, i)
  {
    PixelInImage(f, p.row, p.col);
  }

  /** A pixel of the frame shows the symbol of its number when there is one, and is as before otherwise. */
  lemma {:induction false} PaintedPixel(f: Frame, table: seq<Byte>, c: Canvas, p: Place, symbols: seq<Byte>, row: nat,
      col: nat)
    requires |table| == 1024 && Room(f, c) && OnTrack(f, p) && row < f.h && col < f.w
    ensures Pixel(f, row, col) < |c.touched|
    ensures var r, i, n := Paint(f, table, c, p, symbols), Pixel(f, row, col), PixelIndex(f, row, col) - Index(f, p);
      if 0 <= n < |symbols| then r.touched[i] == 1 && PixelBytes(r, i) == Shown(table, symbols[n], PixelBytes(c, i))
      else r.touched[i] == c.touched[i] && PixelBytes(r, i) == PixelBytes(c, i)
    decreases |symbols|
  {
    PixelInImage(f, row, col);
    PixelIndexBound(f, row, col);
    if symbols != [] {
      var d, q, i := PaintOne(f, table, c, p, symbols[0]), Next(f, p), Pixel(f, row, col);
      TrackEnds(f, p);
      NextOnTrack(f, p);
      PaintedPixel(f, table, d, q, symbols[1..], row, col);
      if p.row < f.h {
        NextIndex(f, p);
        PaintOnePixel(f, table, c, p, symbols[0], i);
        if Pixel(f, p.row, p.col) == i {
          PixelDistinct(f, p.row, p.col, row, col);
        }
        if PixelIndex(f, row, col) == Index(f, p) {
          PixelIndexInjective(f, p.row, p.col, row, col);
        }
      }
    }
  }

  /** Pixels outside the frame are as before. */
  lemma {:induction false} PaintOutside(f: Frame, table: seq<Byte>, c: Canvas, p: Place, symbols: seq<Byte>, i: nat)
    requires |table| == 1024 && Room(f, c) && OnTrack(f, p) && i < |c.touched|
    requires forall row: nat, col: nat | row < f.h && col < f.w :: Pixel(f, row, col) != i
    ensures var r := Paint(f, table, c, p, symbols);
      r.touched[i] == c.touched[i] &&
      PixelBytes(r, i) == PixelBytes(c, i)
    decreases |symbols|
  {
    if symbols != [] {
      NextOnTrack(f, p);
      if p.row < f.h { PaintOnePixel(f, table, c, p, symbols[0], i); }
      PaintOutside(f, table, PaintOne(f, table, c, p, symbols[0]), Next(f, p), symbols[1..], i);
    }
  }

  /** A frame drawn from its first pixel: pixel by pixel, in the frame's order; symbols beyond the last pixel
      are dropped. */
  lemma FrameShown(f: Frame, table: seq<Byte>, c: Canvas, symbols: seq<Byte>, row: nat, col: nat)
    requires |table| == 1024 && Room(f, c) && row < f.h && col < f.w
    ensures OnTrack(f, First(f)) && Pixel(f, row, col) < |c.touched|
    ensures var r, i, n := Paint(f, table, c, First(f), symbols), Pixel(f, row, col), PixelIndex(f, row, col);
      if n < |symbols| then r.touched[i] == 1 && PixelBytes(r, i) == Shown(table, symbols[n], PixelBytes(c, i))
      else r.touched[i] == c.touched[i] && PixelBytes(r, i) == PixelBytes(c, i)
  {
    FirstOnTrack(f);
    hide Paint, PixelBytes, Shown, OnTrack, PixelIndex, Pixel, First, Room;
    PaintedPixel(f, table, c, First(f), symbols, row, col);
  }
}

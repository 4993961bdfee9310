/** Adam7 interlacing (section 8.2 of the PNG Specification, Second Edition): seven reduced images whose
    pixels are spread over the final image. */
module Adam7 {
  import opened Bits
  import opened Bytes
  import opened PngFilter

  const MAX_DIMENSIONS := 0x100_0000

  const XORIG: seq<nat> := [0, 4, 0, 2, 0, 1, 0]
  const YORIG: seq<nat> := [0, 0, 4, 0, 2, 0, 1]
  const XSPC: seq<nat> := [8, 8, 4, 4, 2, 2, 1]
  const YSPC: seq<nat> := [8, 8, 8, 4, 4, 2, 2]

  /** Unsigned 32-bit arithmetic. */
  function Uint32(v: int): nat {
    v % 0x1_0000_0000
  }

  /** Columns (or rows) of a pass. */
  function PassSize(size: nat, orig: nat, spc: nat): nat
    requires spc > 0
  {
    Uint32(size - orig + spc - 1) / spc
  }

  function PassWidth(p: nat, w: nat): nat
    requires p < 7
  {
    PassSize(w, XORIG[p], XSPC[p])
  }

  function PassHeight(p: nat, h: nat): nat
    requires p < 7
  {
    PassSize(h, YORIG[p], YSPC[p])
  }

  /** The size computation does not wrap: column i of a pass exists exactly when it lies in the image. */
  lemma PassSizeIsCount(size: nat, orig: nat, spc: nat, i: nat)
    requires size <= MAX_DIMENSIONS && spc in {1, 2, 4, 8} && orig < spc
    ensures Uint32(size - orig + spc - 1) == size - orig + spc - 1
    ensures i < PassSize(size, orig, spc) <==> i * spc + orig < size
  {
    if spc == 1 {} else if spc == 2 {} else if spc == 4 {} else {}
  }

  // ---------------------------------------------------------------- where the pixels go

  /** Column of the final image that column i of pass p becomes. */
  function OutX(p: nat, i: nat): nat
    requires p < 7
  {
    i * XSPC[p] + XORIG[p]
  }

  function OutY(p: nat, j: nat): nat
    requires p < 7
  {
    j * YSPC[p] + YORIG[p]
  }

  /** The pass that carries pixel (x, y). */
  function PassOf(x: nat, y: nat): (p: nat)
    ensures p < 7
  {
    if y % 2 == 1 then 6
    else if x % 2 == 1 then 5
    else if y % 4 == 2 then 4
    else if x % 4 == 2 then 3
    else if y % 8 == 4 then 2
    else if x % 8 == 4 then 1
    else 0
  }

  function InX(x: nat, y: nat): nat {
    x / XSPC[PassOf(x, y)]
  }

  function InY(x: nat, y: nat): nat {
    y / YSPC[PassOf(x, y)]
  }

  /** The pixels of pass p are those with the pass's residues. */
  predicate InPass(p: nat, x: nat, y: nat)
    requires p < 7
  {
    x % XSPC[p] == XORIG[p] && y % YSPC[p] == YORIG[p]
  }

  lemma Residues(x: nat)
    ensures x % 2 == (x % 8) % 2 && x % 4 == (x % 8) % 4
  {
  }

  lemma InPassIffPassOf(x: nat, y: nat, p: nat)
    requires p < 7
    ensures InPass(p, x, y) <==> p == PassOf(x, y)
  {
    Residues(x);
    Residues(y);
    InPassOfResidues(x % 8, y % 8, p);
  }

  lemma InPassOfResidues(a: nat, b: nat, p: nat)
    requires p < 7 && a < 8 && b < 8
    ensures InPass(p, a, b) <==> p == PassOf(a, b)
  {
    if p == 0 {} else if p == 1 {} else if p == 2 {} else if p == 3 {} else if p == 4 {} else if p == 5 {} else {}
  }

  lemma SpacedIff(i: nat, spc: nat, orig: nat, x: nat)
    requires orig < spc
    ensures i * spc + orig == x <==> x % spc == orig && i == x / spc
  {
    if i * spc + orig == x { DivModUnique(x, spc, i, orig); }
    DivMod(x, spc);
  }

  /** The seven passes partition the image: pixel (x, y) is copied by exactly one step of one pass. */
  lemma EachPixelOnce(w: nat, h: nat, x: nat, y: nat, p: nat, i: nat, j: nat)
    requires 1 <= w <= MAX_DIMENSIONS && 1 <= h <= MAX_DIMENSIONS && x < w && y < h && p < 7
    ensures i < PassWidth(p, w) && j < PassHeight(p, h) && OutX(p, i) == x && OutY(p, j) == y
            <==> p == PassOf(x, y) && i == InX(x, y) && j == InY(x, y)
  {
    PassSizeIsCount(w, XORIG[p], XSPC[p], i);
    PassSizeIsCount(h, YORIG[p], YSPC[p], j);
    SpacedIff(i, XSPC[p], XORIG[p], x);
    SpacedIff(j, YSPC[p], YORIG[p], y);
    InPassIffPassOf(x, y, p);
  }

  /** Every copy stays inside the image. */
  lemma CopyInBounds(w: nat, h: nat, p: nat, i: nat, j: nat)
    requires w <= MAX_DIMENSIONS && h <= MAX_DIMENSIONS && p < 7
    requires i < PassWidth(p, w) && j < PassHeight(p, h)
    ensures OutX(p, i) < w && OutY(p, j) < h
  {
    PassSizeIsCount(w, XORIG[p], XSPC[p], i);
    PassSizeIsCount(h, YORIG[p], YSPC[p], j);
  }

  const PATTERN: seq<seq<nat>> := [
    [1, 6, 4, 6, 2, 6, 4, 6],
    [7, 7, 7, 7, 7, 7, 7, 7],
    [5, 6, 5, 6, 5, 6, 5, 6],
    [7, 7, 7, 7, 7, 7, 7, 7],
    [3, 6, 4, 6, 3, 6, 4, 6],
    [7, 7, 7, 7, 7, 7, 7, 7],
    [5, 6, 5, 6, 5, 6, 5, 6],
    [7, 7, 7, 7, 7, 7, 7, 7]]

  /** The pass of a pixel is the one in the standard's pattern, repeated over the image. */
  lemma PatternIsPassOf(x: nat, y: nat)
    ensures PATTERN[y % 8][x % 8] == PassOf(x, y) + 1
  {
    Residues(x);
    Residues(y);
    assert PassOf(x, y) == PassOf(x % 8, y % 8);
    PatternRow(x % 8, y % 8);
  }

  lemma PatternRow(x: nat, y: nat)
    requires x < 8 && y < 8
    ensures PATTERN[y][x] == PassOf(x, y) + 1
  {
    assert x == 0 || x == 1 || x == 2 || x == 3 || x == 4 || x == 5 || x == 6 || x == 7;
  }

  // ---------------------------------------------------------------- pixels in a buffer

  /** Byte offset of pixel (x, y) in an image of w columns. */
  function Offset(w: nat, n: nat, x: nat, y: nat): nat {
    Times(y, Times(w, n)) + Times(x, n)
  }

  lemma OffsetInBounds(w: nat, h: nat, n: nat, x: nat, y: nat)
    requires x < w && y < h
    ensures Offset(w, n, x, y) + n <= Times(h, Times(w, n))
  {
    TimesMono(x, w, n);
    TimesMono(y, h, Times(w, n));
  }

  /** Different pixels do not overlap. */
  lemma OffsetsDisjoint(w: nat, n: nat, x: nat, y: nat, x': nat, y': nat)
    requires x < w && x' < w && (x != x' || y != y')
    ensures Offset(w, n, x, y) + n <= Offset(w, n, x', y') || Offset(w, n, x', y') + n <= Offset(w, n, x, y)
  {
    TimesMono(x, w, n);
    TimesMono(x', w, n);
    if y < y' {
      TimesMono(y, y', Times(w, n));
    } else if y' < y {
      TimesMono(y', y, Times(w, n));
    } else if x < x' {
      TimesMono(x, x', n);
    } else {
      TimesMono(x', x, n);
    }
  }

  /** Pixel i of a row as it appears in the output, with its alpha byte if one is added. */
  function PixelBytes(row: seq<Byte>, i: nat, img_n: nat, out_n: nat): seq<Byte>
    requires Times(i, img_n) + img_n <= |row|
  {
    row[Times(i, img_n)..Times(i, img_n) + img_n] + (if out_n == img_n then [] else [255])
  }

  ghost predicate Channels(img_n: nat, out_n: nat) {
    1 <= img_n <= 4 && (out_n == img_n || out_n == img_n + 1)
  }

  /** The n bytes from i on. */
  function Slice(a: seq<Byte>, i: nat, n: nat): (r: seq<Byte>)
    requires i + n <= |a|
    ensures |r| == n
  {
    a[i..i + n]
  }

  lemma SliceOfSlice(a: seq<Byte>, i: nat, s: nat, o: nat, n: nat)
    requires i + s <= |a| && o + n <= s
    ensures Slice(Slice(a, i, s), o, n) == Slice(a, i + o, n)
  {
    var b := a[i..i + s];
    var c, d := b[o..o + n], a[i + o..i + o + n];
    forall k | 0 <= k < n
      ensures c[k] == d[k]
    {
      assert b[o + k] == a[i + o + k];
    }
  }

  lemma PlacedPixel(row: seq<Byte>, w: nat, i: nat, img_n: nat, out_n: nat)
    requires Channels(img_n, out_n) && |row| == Times(w, img_n) && i < w
    ensures Times(i, img_n) + img_n <= |row| && |Placed(row, img_n, out_n)| == Times(w, out_n)
    ensures Times(i, out_n) + out_n <= Times(w, out_n)
    ensures Slice(Placed(row, img_n, out_n), Times(i, out_n), out_n) == PixelBytes(row, i, img_n, out_n)
  {
    TimesMono(i, w, img_n);
    TimesMono(i, w, out_n);
    if out_n == img_n {
      assert Slice(row, Times(i, img_n), img_n) + [] == Slice(row, Times(i, img_n), img_n);
    } else {
      AlphaPixel(row, w, i, img_n);
    }
  }

  lemma AlphaPixel(row: seq<Byte>, w: nat, i: nat, n: nat)
    requires n > 0 && |row| == Times(w, n) && i < w
    ensures Times(i, n) + n <= |row| && |AddAlpha(row, n)| == Times(w, n + 1) &&
        Times(i, n + 1) + (n + 1) <= Times(w, n + 1)
    ensures Slice(AddAlpha(row, n), Times(i, n + 1), n + 1) == Slice(row, Times(i, n), n) + [255]
  {
    AddAlphaSize(row, n, w);
    AddAlphaPixel(row, n, w, i);
    LastByte(AddAlpha(row, n), Times(i, n + 1), n);
  }

  lemma LastByte(a: seq<Byte>, i: nat, n: nat)
    requires i + n + 1 <= |a|
    ensures a[i..i + n + 1] == a[i..i + n] + [a[i + n]]
  {
  }

  lemma {:induction false} RenderSize(rows: seq<seq<Byte>>, w: nat, img_n: nat, out_n: nat)
    requires Channels(img_n, out_n) && PngFilter.Image(rows, Times(w, img_n))
    ensures |Render(rows, img_n, out_n)| == Times(|rows|, Times(w, out_n))
  {
    if rows != [] {
      var m := |rows| - 1;
      RenderSize(rows[..m], w, img_n, out_n);
      if out_n != img_n { AddAlphaSize(rows[m], img_n, w); }
    }
  }

  /** Row j of a rendered image, whose rows take s bytes. */
  lemma {:induction false} RenderRow(rows: seq<seq<Byte>>, j: nat, img_n: nat, out_n: nat, s: nat)
    requires img_n > 0 && j < |rows| && RowsTake(rows, img_n, out_n, s)
    ensures |Render(rows, img_n, out_n)| == Times(|rows|, s) && Times(j, s) + s <= |Render(rows, img_n, out_n)|
    ensures Slice(Render(rows, img_n, out_n), Times(j, s), s) == Placed(rows[j], img_n, out_n)
  {
    var m := |rows| - 1;
    var before, last := Render(rows[..m], img_n, out_n), Placed(rows[m], img_n, out_n);
    RenderTakes(rows[..m], img_n, out_n, s);
    assert Render(rows, img_n, out_n) == before + last && |last| == s;
    TimesMono(j, m, s);
    if j < m {
      RenderRow(rows[..m], j, img_n, out_n, s);
      SliceOfFirst(before, last, Times(j, s), s);
    } else {
      assert (before + last)[|before|..|before| + s] == last;
    }
  }

  ghost predicate RowsTake(rows: seq<seq<Byte>>, img_n: nat, out_n: nat, s: nat)
    requires img_n > 0
  {
    forall k :: 0 <= k < |rows| ==> |Placed(rows[k], img_n, out_n)| == s
  }

  lemma {:induction false} RenderTakes(rows: seq<seq<Byte>>, img_n: nat, out_n: nat, s: nat)
    requires img_n > 0 && RowsTake(rows, img_n, out_n, s)
    ensures |Render(rows, img_n, out_n)| == Times(|rows|, s)
  {
    if rows != [] { RenderTakes(rows[..|rows| - 1], img_n, out_n, s); }
  }

  lemma EqualRowsTake(rows: seq<seq<Byte>>, w: nat, img_n: nat, out_n: nat)
    requires Channels(img_n, out_n) && PngFilter.Image(rows, Times(w, img_n))
    ensures RowsTake(rows, img_n, out_n, Times(w, out_n))
  {
    forall k | 0 <= k < |rows|
      ensures |Placed(rows[k], img_n, out_n)| == Times(w, out_n)
    {
      if out_n != img_n { AddAlphaSize(rows[k], img_n, w); }
    }
  }

  lemma RenderPixel(rows: seq<seq<Byte>>, w: nat, x: nat, y: nat, img_n: nat, out_n: nat)
    requires Channels(img_n, out_n) && PngFilter.Image(rows, Times(w, img_n)) && y < |rows| && x < w
    ensures Times(x, img_n) + img_n <= |rows[y]| && Offset(w, out_n, x, y) + out_n <= |Render(rows, img_n, out_n)|
    ensures Slice(Render(rows, img_n, out_n), Offset(w, out_n, x, y), out_n) == PixelBytes(rows[y], x, img_n, out_n)
  {
    hide Render, Placed, PixelBytes, RowsTake;
    var s, i, image := Times(w, out_n), Times(x, out_n), Render(rows, img_n, out_n);
    EqualRowsTake(rows, w, img_n, out_n);
    RenderRow(rows, y, img_n, out_n, s);
    PlacedPixel(rows[y], w, x, img_n, out_n);
    SliceOfSlice(image, Times(y, s), s, i, out_n);
  }

  /** a and b have the same i-th piece of n bytes. */
  ghost predicate SamePiece(a: seq<Byte>, b: seq<Byte>, n: nat, i: nat) {
    Times(i, n) + n <= |a| && Times(i, n) + n <= |b| && Slice(a, Times(i, n), n) == Slice(b, Times(i, n), n)
  }

  /** Byte strings that agree on all n-byte pieces are equal. */
  lemma {:induction false} SamePieces(a: seq<Byte>, b: seq<Byte>, n: nat, count: nat)
    requires |a| >= Times(count, n) && |b| >= Times(count, n)
    requires forall i: nat :: i < count ==> SamePiece(a, b, n, i)
    ensures a[..Times(count, n)] == b[..Times(count, n)]
    decreases count
  {
    if count > 0 {
      var m := Times(count - 1, n);
      SamePieces(a, b, n, count - 1);
      assert SamePiece(a, b, n, count - 1);
      assert a[..m + n] == a[..m] + Slice(a, m, n) && b[..m + n] == b[..m] + Slice(b, m, n);
    }
  }

  /** The buffer has the right bytes for pixel (x, y). */
  ghost predicate PixelRight(buffer: seq<Byte>, row: seq<Byte>, w: nat, x: nat, y: nat, img_n: nat, out_n: nat) {
    Offset(w, out_n, x, y) + out_n <= |buffer| && Times(x, img_n) + img_n <= |row| &&
    Slice(buffer, Offset(w, out_n, x, y), out_n) == PixelBytes(row, x, img_n, out_n)
  }

  lemma PixelIsPiece(buffer: seq<Byte>, image: seq<Byte>, w: nat, x: nat, y: nat, n: nat)
    requires x < w && Times(y, Times(w, n)) + Times(w, n) <= |buffer| && Times(y, Times(w, n)) + Times(w, n) <= |image|
    requires Offset(w, n, x, y) + n <= |buffer| && Offset(w, n, x, y) + n <= |image|
    requires Slice(buffer, Offset(w, n, x, y), n) == Slice(image, Offset(w, n, x, y), n)
    ensures SamePiece(Slice(buffer, Times(y, Times(w, n)), Times(w, n)),
        Slice(image, Times(y, Times(w, n)), Times(w, n)), n, x)
  {
    var s := Times(w, n);
    TimesMono(x, w, n);
    SliceOfSlice(buffer, Times(y, s), s, Times(x, n), n);
    SliceOfSlice(image, Times(y, s), s, Times(x, n), n);
  }

  lemma RowIsImage(buffer: seq<Byte>, rows: seq<seq<Byte>>, w: nat, y: nat, img_n: nat, out_n: nat)
    requires Channels(img_n, out_n) && PngFilter.Image(rows, Times(w, img_n)) &&
        |buffer| == Times(|rows|, Times(w, out_n))
    requires y < |rows| && forall x: nat :: x < w ==> PixelRight(buffer, rows[y], w, x, y, img_n, out_n)
    ensures SamePiece(buffer, Render(rows, img_n, out_n), Times(w, out_n), y)
  {
    var image, s := Render(rows, img_n, out_n), Times(w, out_n);
    RenderSize(rows, w, img_n, out_n);
    TimesMono(y, |rows|, s);
    var a, b := Slice(buffer, Times(y, s), s), Slice(image, Times(y, s), s);
    forall x: nat | x < w
      ensures SamePiece(a, b, out_n, x)
    {
      assert PixelRight(buffer, rows[y], w, x, y, img_n, out_n);
      RenderPixel(rows, w, x, y, img_n, out_n);
      PixelIsPiece(buffer, image, w, x, y, out_n);
    }
    SamePieces(a, b, out_n, w);
    assert a[..s] == a && b[..s] == b;
  }

  /** A buffer with the right bytes for every pixel is the rendered image. */
  lemma PixelsAreImage(buffer: seq<Byte>, rows: seq<seq<Byte>>, w: nat, img_n: nat, out_n: nat)
    requires Channels(img_n, out_n) && PngFilter.Image(rows, Times(w, img_n)) &&
        |buffer| == Times(|rows|, Times(w, out_n))
    requires forall x: nat, y: nat :: x < w && y < |rows| ==> PixelRight(buffer, rows[y], w, x, y, img_n, out_n)
    ensures buffer == Render(rows, img_n, out_n)
  {
    var image, s := Render(rows, img_n, out_n), Times(w, out_n);
    RenderSize(rows, w, img_n, out_n);
    forall y: nat | y < |rows|
      ensures SamePiece(buffer, image, s, y)
    {
      RowIsImage(buffer, rows, w, y, img_n, out_n);
    }
    SamePieces(buffer, image, s, |rows|);
    assert buffer[..Times(|rows|, s)] == buffer && image[..Times(|rows|, s)] == image;
  }

  // ---------------------------------------------------------------- reduced images

  function SubRow(row: seq<Byte>, p: nat, n: nat, count: nat): (r: seq<Byte>)
    requires p < 7 && (count > 0 ==> Times(OutX(p, count - 1), n) + n <= |row|)
    ensures |r| == Times(count, n)
  {
    if count == 0 then []
    else
      SubRowNext(row, p, n, count);
      SubRow(row, p, n, count - 1) + row[Times(OutX(p, count - 1), n)..Times(OutX(p, count - 1), n) + n]
  }

  lemma SubRowNext(row: seq<Byte>, p: nat, n: nat, count: nat)
    requires p < 7 && count > 0 && Times(OutX(p, count - 1), n) + n <= |row|
    ensures count > 1 ==> Times(OutX(p, count - 2), n) + n <= |row|
  {
    if count > 1 { TimesMono(OutX(p, count - 2), OutX(p, count - 1), n); }
  }

  lemma {:induction false} SubRowPixel(row: seq<Byte>, p: nat, count: nat, i: nat, img_n: nat, out_n: nat)
    requires p < 7 && i < count && Times(OutX(p, count - 1), img_n) + img_n <= |row|
    ensures Times(OutX(p, i), img_n) + img_n <= |row| && Times(i, img_n) + img_n <= |SubRow(row, p, img_n, count)|
    ensures PixelBytes(SubRow(row, p, img_n, count), i, img_n, out_n) == PixelBytes(row, OutX(p, i), img_n, out_n)
    decreases count
  {
    hide OutX, Times;
    TimesMono(i, count, img_n);
    var last := Times(OutX(p, count - 1), img_n);
    SubRowNext(row, p, img_n, count);
    var before, pixel := SubRow(row, p, img_n, count - 1), row[last..last + img_n];
    assert SubRow(row, p, img_n, count) == before + pixel;
    if i < count - 1 {
      SubRowPixel(row, p, count - 1, i, img_n, out_n);
      TimesMono(i, count - 1, img_n);
      SliceOfFirst(before, pixel, Times(i, img_n), img_n);
    } else {
      assert (before + pixel)[|before|..|before| + img_n] == pixel;
    }
  }

  ghost predicate WholeImage(rows: seq<seq<Byte>>, w: nat, h: nat, n: nat) {
    1 <= w <= MAX_DIMENSIONS && 1 <= h <= MAX_DIMENSIONS && |rows| == h && PngFilter.Image(rows, Times(w, n))
  }

  lemma SubRowFits(w: nat, p: nat, n: nat)
    requires 1 <= w <= MAX_DIMENSIONS && p < 7 && PassWidth(p, w) > 0
    ensures Times(OutX(p, PassWidth(p, w) - 1), n) + n <= Times(w, n)
  {
    PassSizeIsCount(w, XORIG[p], XSPC[p], PassWidth(p, w) - 1);
    TimesMono(OutX(p, PassWidth(p, w) - 1), w, n);
  }

  /** The reduced image that pass p carries. */
  function SubImage(rows: seq<seq<Byte>>, w: nat, h: nat, n: nat, p: nat, count: nat): (r: seq<seq<Byte>>)
    requires WholeImage(rows, w, h, n) && p < 7 && count <= PassHeight(p, h)
    ensures |r| == count && PngFilter.Image(r, Times(PassWidth(p, w), n))
  {
    if count == 0 then []
    else
      PassSizeIsCount(h, YORIG[p], YSPC[p], count - 1);
      if PassWidth(p, w) > 0 then
        SubRowFits(w, p, n);
        SubImage(rows, w, h, n, p, count - 1) + [SubRow(rows[OutY(p, count - 1)], p, n, PassWidth(p, w))]
      else SubImage(rows, w, h, n, p, count - 1) + [[]]
  }

  lemma {:induction false} SubImagePixel(rows: seq<seq<Byte>>, w: nat, h: nat, p: nat, count: nat, i: nat, j: nat,
      img_n: nat, out_n: nat)
    requires WholeImage(rows, w, h, img_n) && p < 7 && j < count <= PassHeight(p, h) && i < PassWidth(p, w)
    ensures OutX(p, i) < w && OutY(p, j) < h && Times(OutX(p, i), img_n) + img_n <= Times(w, img_n)
    ensures Times(i, img_n) + img_n <= |SubImage(rows, w, h, img_n, p, count)[j]|
    ensures PixelBytes(SubImage(rows, w, h, img_n, p, count)[j], i, img_n, out_n) ==
            PixelBytes(rows[OutY(p, j)], OutX(p, i), img_n, out_n)
    decreases count
  {
    CopyInBounds(w, h, p, i, j);
    TimesMono(OutX(p, i), w, img_n);
    if j < count - 1 {
      SubImagePixel(rows, w, h, p, count - 1, i, j, img_n, out_n);
    } else {
      SubRowFits(w, p, img_n);
      SubRowPixel(rows[OutY(p, j)], p, PassWidth(p, w), i, img_n, out_n);
    }
  }

  // ---------------------------------------------------------------- the encoder's side

  /** The data of pass p; a pass without pixels has none. */
  ghost function PassData(rows: seq<seq<Byte>>, w: nat, h: nat, n: nat, fss: seq<seq<nat>>, p: nat): seq<Byte>
    requires WholeImage(rows, w, h, n) && FilterChoice(fss, h) && p < 7
  {
    if PassWidth(p, w) == 0 || PassHeight(p, h) == 0 then []
    else EncodeRows(fss[p], SubImage(rows, w, h, n, p, PassHeight(p, h)), Times(PassWidth(p, w), n), n)
  }

  /** The encoded passes from p on. */
  ghost function EncodePasses(rows: seq<seq<Byte>>, w: nat, h: nat, n: nat, fss: seq<seq<nat>>, p: nat): seq<Byte>
    requires WholeImage(rows, w, h, n) && FilterChoice(fss, h) && p <= 7
    decreases 7 - p
  {
    if p == 7 then [] else PassData(rows, w, h, n, fss, p) + EncodePasses(rows, w, h, n, fss, p + 1)
  }

  /** One filter type for each row of each pass. */
  ghost predicate FilterChoice(fss: seq<seq<nat>>, h: nat) {
    |fss| == 7 && forall p: nat :: p < 7 ==> |fss[p]| == PassHeight(p, h) && Filters(fss[p])
  }

  ghost predicate EncodedFrom(data: seq<Byte>, rows: seq<seq<Byte>>, w: nat, h: nat, n: nat, fss: seq<seq<nat>>,
      p: nat) {
    WholeImage(rows, w, h, n) && FilterChoice(fss, h) && p <= 7 && EncodePasses(rows, w, h, n, fss, p) <= data
  }
}

/** Decoding an interlaced image: each pass is decoded as an image of its own, then spread out. */
module Deinterlace {
  import opened Bytes
  import opened PngFilter
  import opened Adam7

  type Rows = seq<seq<Byte>>

  /** Pixel (x, y) is carried by one of the first p passes, or by pass p before its pixel (i, j). */
  predicate Copied(x: nat, y: nat, p: nat, i: nat, j: nat) {
    PassOf(x, y) < p || (PassOf(x, y) == p && (InY(x, y) < j || (InY(x, y) == j && InX(x, y) < i)))
  }

  /** The source pixel of (x, y). */
  ghost predicate FromPass(buffer: seq<Byte>, passes: seq<Rows>, w: nat, x: nat, y: nat, img_n: nat, out_n: nat) {
    PassOf(x, y) < |passes| && InY(x, y) < |passes[PassOf(x, y)]| &&
    Times(InX(x, y), img_n) + img_n <= |passes[PassOf(x, y)][InY(x, y)]| &&
    Offset(w, out_n, x, y) + out_n <= |buffer| &&
    Slice(buffer, Offset(w, out_n, x, y), out_n) == PixelBytes(passes[PassOf(x, y)][InY(x, y)], InX(x, y), img_n, out_n)
  }

  ghost predicate Spread(buffer: seq<Byte>, passes: seq<Rows>, w: nat, h: nat, img_n: nat, out_n: nat, p: nat, i: nat,
      j: nat) {
    |buffer| == Times(h, Times(w, out_n)) &&
    forall x: nat, y: nat :: x < w && y < h && Copied(x, y, p, i, j) ==> FromPass(buffer, passes, w, x, y, img_n, out_n)
  }

  /** Moves one pixel. */
  method CopyPixel(dst: array<Byte>, d: nat, src: array<Byte>, s: nat, n: nat)
    requires d + n <= dst.Length && s + n <= src.Length && dst != src
    modifies dst
    ensures dst[d..d + n] == src[s..s + n]
    ensures dst[..d] == old(dst[..d]) && dst[d + n..] == old(dst[d + n..])
  {
    var k := 0;
    while k < n
      invariant k <= n && dst[d..d + k] == src[s..s + k]
      invariant dst[..d] == old(dst[..d]) && dst[d + n..] == old(dst[d + n..])
    {
      dst[d + k] := src[s + k];
      k := k + 1;
    }
  }

  // ---------------------------------------------------------------- one copied pixel

  /** Only the n bytes from d on may differ. */
  ghost predicate Patched(before: seq<Byte>, after: seq<Byte>, d: nat, n: nat) {
    |before| == |after| && d + n <= |after| && after[..d] == before[..d] && after[d + n..] == before[d + n..]
  }

  lemma SliceElsewhere(before: seq<Byte>, after: seq<Byte>, d: nat, o: nat, n: nat)
    requires Patched(before, after, d, n) && o + n <= |after|
    requires o + n <= d || d + n <= o
    ensures Slice(after, o, n) == Slice(before, o, n)
  {
    var a, b := Slice(after, o, n), Slice(before, o, n);
    forall k | 0 <= k < n
      ensures a[k] == b[k]
    {
      if o + n <= d {
        assert after[..d][o + k] == before[..d][o + k];
      } else {
        assert after[d + n..][o + k - (d + n)] == before[d + n..][o + k - (d + n)];
      }
    }
  }

  lemma PixelCopied(before: seq<Byte>, after: seq<Byte>, passes: seq<Rows>, w: nat, h: nat, img_n: nat, out_n: nat,
                    p: nat, i: nat, j: nat, x: nat, y: nat)
    requires 1 <= w <= MAX_DIMENSIONS && 1 <= h <= MAX_DIMENSIONS && |passes| == p + 1 <= 7
    requires i < PassWidth(p, w) && j < PassHeight(p, h) && OutX(p, i) < w && OutY(p, j) < h
    requires Spread(before, passes, w, h, img_n, out_n, p, i, j)
    requires Patched(before, after, Offset(w, out_n, OutX(p, i), OutY(p, j)), out_n)
    requires j < |passes[p]| && Times(i, img_n) + img_n <= |passes[p][j]|
    requires Slice(after, Offset(w, out_n, OutX(p, i), OutY(p, j)), out_n) == PixelBytes(passes[p][j], i, img_n, out_n)
    requires x < w && y < h && Copied(x, y, p, i + 1, j)
    ensures FromPass(after, passes, w, x, y, img_n, out_n)
  {
    var ox, oy := OutX(p, i), OutY(p, j);
    EachPixelOnce(w, h, x, y, p, i, j);
    if x != ox || y != oy {
      assert Copied(x, y, p, i, j);
      assert FromPass(before, passes, w, x, y, img_n, out_n);
      OffsetsDisjoint(w, out_n, x, y, ox, oy);
      SliceElsewhere(before, after, Offset(w, out_n, ox, oy), Offset(w, out_n, x, y), out_n);
    }
  }

  lemma RowSpread(buffer: seq<Byte>, passes: seq<Rows>, w: nat, h: nat, img_n: nat, out_n: nat, p: nat, j: nat)
    requires 1 <= w <= MAX_DIMENSIONS && 1 <= h <= MAX_DIMENSIONS && p < 7
    requires Spread(buffer, passes, w, h, img_n, out_n, p, PassWidth(p, w), j)
    ensures Spread(buffer, passes, w, h, img_n, out_n, p, 0, j + 1)
  {
    forall x: nat, y: nat | x < w && y < h && Copied(x, y, p, 0, j + 1)
      ensures FromPass(buffer, passes, w, x, y, img_n, out_n)
    {
      EachPixelOnce(w, h, x, y, PassOf(x, y), InX(x, y), InY(x, y));
      assert Copied(x, y, p, PassWidth(p, w), j);
    }
  }

  /** Pass p is over when all its rows are done, or at once when it has no pixels. */
  lemma PassSpread(buffer: seq<Byte>, passes: seq<Rows>, w: nat, h: nat, img_n: nat, out_n: nat, p: nat, j: nat)
    requires 1 <= w <= MAX_DIMENSIONS && 1 <= h <= MAX_DIMENSIONS && p < 7
    requires Spread(buffer, passes, w, h, img_n, out_n, p, 0, j)
    requires j == PassHeight(p, h) || PassWidth(p, w) == 0 || PassHeight(p, h) == 0
    ensures Spread(buffer, passes, w, h, img_n, out_n, p + 1, 0, 0)
  {
    forall x: nat, y: nat | x < w && y < h && Copied(x, y, p + 1, 0, 0)
      ensures FromPass(buffer, passes, w, x, y, img_n, out_n)
    {
      EachPixelOnce(w, h, x, y, PassOf(x, y), InX(x, y), InY(x, y));
      assert Copied(x, y, p, 0, j);
    }
  }

  /** A further pass does not disturb what is known about the earlier ones. */
  lemma MorePasses(buffer: seq<Byte>, passes: seq<Rows>, rows: Rows, w: nat, h: nat, img_n: nat, out_n: nat, p: nat)
    requires Spread(buffer, passes, w, h, img_n, out_n, p, 0, 0) && |passes| == p
    ensures Spread(buffer, passes + [rows], w, h, img_n, out_n, p, 0, 0)
  {
    forall x: nat, y: nat | x < w && y < h && Copied(x, y, p, 0, 0)
      ensures FromPass(buffer, passes + [rows], w, x, y, img_n, out_n)
    {
      assert FromPass(buffer, passes, w, x, y, img_n, out_n);
    }
  }

  /** Spreads the pixels of pass p over the final image. */
  method SpreadPass(final: array<Byte>, image: array<Byte>, p: nat, x: nat, y: nat, w: nat, h: nat, img_n: nat,
      out_n: nat,
                    ghost passes: seq<Rows>)
    requires Channels(img_n, out_n) && 1 <= w <= MAX_DIMENSIONS && 1 <= h <= MAX_DIMENSIONS && p < 7 && final != image
    requires |passes| == p + 1 && x == PassWidth(p, w) > 0 && y == PassHeight(p, h)
    requires |passes[p]| == y && Image(passes[p], Times(x, img_n)) && image[..] == Render(passes[p], img_n, out_n)
    requires Spread(final[..], passes, w, h, img_n, out_n, p, 0, 0)
    modifies final
    ensures Spread(final[..], passes, w, h, img_n, out_n, p + 1, 0, 0)
  {
    var j := 0;
    while j < y
      invariant j <= y && Spread(final[..], passes, w, h, img_n, out_n, p, 0, j)
      invariant image[..] == Render(passes[p], img_n, out_n)
    {
      var i := 0;
      while i < x
        invariant i <= x && Spread(final[..], passes, w, h, img_n, out_n, p, i, j)
        invariant image[..] == Render(passes[p], img_n, out_n)
      {
        RenderPixel(passes[p], x, i, j, img_n, out_n);
        SpreadPixel(final, image, p, i, j, x, w, h, img_n, out_n, passes);
        i := i + 1;
      }
      RowSpread(final[..], passes, w, h, img_n, out_n, p, j);
      j := j + 1;
    }
    PassSpread(final[..], passes, w, h, img_n, out_n, p, j);
  }

  method SpreadPixel(final: array<Byte>, image: array<Byte>, p: nat, i: nat, j: nat, x: nat, w: nat, h: nat,
      img_n: nat, out_n: nat,
                     ghost passes: seq<Rows>)
    requires Channels(img_n, out_n) && 1 <= w <= MAX_DIMENSIONS && 1 <= h <= MAX_DIMENSIONS && p < 7 && final != image
    requires |passes| == p + 1 && x == PassWidth(p, w) && i < x && j < PassHeight(p, h) == |passes[p]|
    requires PixelRight(image[..], passes[p][j], x, i, j, img_n, out_n)
    requires Spread(final[..], passes, w, h, img_n, out_n, p, i, j)
    modifies final
    ensures Spread(final[..], passes, w, h, img_n, out_n, p, i + 1, j)
  {
    ghost var before := final[..];
    CopyInBounds(w, h, p, i, j);
    var out_y, out_x := j * YSPC[p] + YORIG[p], i * XSPC[p] + XORIG[p];
    OffsetInBounds(w, h, out_n, out_x, out_y);
    var d := ByteOffset(out_x, out_y, w, out_n);
    var s := ByteOffset(i, j, x, out_n);
    CopyPixel(final, d, image, s, out_n);
    assert Slice(final[..], d, out_n) == Slice(image[..], s, out_n);
    PixelsCopied(before, final[..], passes, w, h, img_n, out_n, p, i, j);
  }

  lemma PixelsCopied(before: seq<Byte>, after: seq<Byte>, passes: seq<Rows>, w: nat, h: nat, img_n: nat, out_n: nat,
                     p: nat, i: nat, j: nat)
    requires 1 <= w <= MAX_DIMENSIONS && 1 <= h <= MAX_DIMENSIONS && |passes| == p + 1 <= 7
    requires i < PassWidth(p, w) && j < PassHeight(p, h) && OutX(p, i) < w && OutY(p, j) < h
    requires Spread(before, passes, w, h, img_n, out_n, p, i, j)
    requires Patched(before, after, Offset(w, out_n, OutX(p, i), OutY(p, j)), out_n)
    requires j < |passes[p]| && Times(i, img_n) + img_n <= |passes[p][j]|
    requires Slice(after, Offset(w, out_n, OutX(p, i), OutY(p, j)), out_n) == PixelBytes(passes[p][j], i, img_n, out_n)
    ensures Spread(after, passes, w, h, img_n, out_n, p, i + 1, j)
  {
    forall x: nat, y: nat | x < w && y < h && Copied(x, y, p, i + 1, j)
      ensures FromPass(after, passes, w, x, y, img_n, out_n)
    {
      PixelCopied(before, after, passes, w, h, img_n, out_n, p, i, j, x, y);
    }
  }

  /** The offset as the program computes it. */
  function ByteOffset(x: nat, y: nat, w: nat, n: nat): (o: nat)
    ensures o == Offset(w, n, x, y)
  {
    TimesIsProduct(w, n);
    TimesIsProduct(y, w * n);
    TimesIsProduct(x, n);
    y * (w * n) + x * n
  }

  // ---------------------------------------------------------------- all passes

  /** The passes decoded so far are the reduced images of the encoded image. */
  ghost predicate AreReduced(passes: seq<Rows>, rows: Rows, w: nat, h: nat, n: nat)
    requires WholeImage(rows, w, h, n) && |passes| <= 7
  {
    forall p: nat :: p < |passes| && PassWidth(p, w) > 0 && PassHeight(p, h) > 0 ==>
      passes[p] == SubImage(rows, w, h, n, p, PassHeight(p, h))
  }

  /** What decoding has established about every image the data may encode. */
  ghost predicate OnTrack(data: seq<Byte>, rest: seq<Byte>, passes: seq<Rows>, w: nat, h: nat, n: nat) {
    forall rows: Rows, fss: seq<seq<nat>> | EncodedFrom(data, rows, w, h, n, fss, 0) ::
      OnTrackFor(rest, passes, w, h, n, rows, fss)
  }

  ghost predicate OnTrackFor(rest: seq<Byte>, passes: seq<Rows>, w: nat, h: nat, n: nat, rows: Rows,
      fss: seq<seq<nat>>) {
    |passes| <= 7 && EncodedFrom(rest, rows, w, h, n, fss, |passes|) && AreReduced(passes, rows, w, h, n)
  }

  lemma EmptyPassFor(rest: seq<Byte>, passes: seq<Rows>, w: nat, h: nat, n: nat, rows: Rows, fss: seq<seq<nat>>)
    requires |passes| < 7 && OnTrackFor(rest, passes, w, h, n, rows, fss)
    requires PassWidth(|passes|, w) == 0 || PassHeight(|passes|, h) == 0
    ensures OnTrackFor(rest, passes + [[]], w, h, n, rows, fss)
  {
    DropPassData(rest, rows, w, h, n, fss, |passes|);
    assert rest[0..] == rest;
  }

  lemma NextPassFor(rest: seq<Byte>, passes: seq<Rows>, decoded: Rows, w: nat, h: nat, n: nat, len: nat, rows: Rows,
      fss: seq<seq<nat>>)
    requires |passes| < 7 && OnTrackFor(rest, passes, w, h, n, rows, fss)
    requires PassWidth(|passes|, w) > 0 && PassHeight(|passes|, h) > 0 && len <= |rest|
    requires len == LineStart(PassHeight(|passes|, h), Times(PassWidth(|passes|, w), n))
    requires decoded == SubImage(rows, w, h, n, |passes|, PassHeight(|passes|, h))
    ensures OnTrackFor(rest[len..], passes + [decoded], w, h, n, rows, fss)
  {
    ReducedMore(passes, decoded, rows, w, h, n);
    FirstOfPasses(rest, rows, w, h, n, fss, |passes|);
    var after := passes + [decoded];
    assert |after| == |passes| + 1;
    assert EncodedFrom(rest[len..], rows, w, h, n, fss, |after|);
  }

  lemma ReducedMore(passes: seq<Rows>, decoded: Rows, rows: Rows, w: nat, h: nat, n: nat)
    requires WholeImage(rows, w, h, n) && |passes| < 7 && AreReduced(passes, rows, w, h, n)
    requires decoded == SubImage(rows, w, h, n, |passes|, PassHeight(|passes|, h))
    ensures AreReduced(passes + [decoded], rows, w, h, n)
  {
  }

  lemma AfterFirst(a: seq<Byte>, b: seq<Byte>, rest: seq<Byte>)
    requires a + b <= rest
    ensures a <= rest && b <= rest[|a|..]
  {
    assert a <= a + b;
    assert rest[|a|..][..|b|] == (a + b)[|a|..];
  }

  lemma DropPassData(rest: seq<Byte>, rows: Rows, w: nat, h: nat, n: nat, fss: seq<seq<nat>>, p: nat)
    requires p < 7 && EncodedFrom(rest, rows, w, h, n, fss, p)
    ensures PassData(rows, w, h, n, fss, p) <= rest
    ensures EncodedFrom(rest[|PassData(rows, w, h, n, fss, p)|..], rows, w, h, n, fss, p + 1)
  {
    AfterFirst(PassData(rows, w, h, n, fss, p), EncodePasses(rows, w, h, n, fss, p + 1), rest);
  }

  /** A pass without pixels takes no data. */
  lemma EmptyPass(data: seq<Byte>, rest: seq<Byte>, passes: seq<Rows>, w: nat, h: nat, n: nat)
    requires |passes| < 7 && OnTrack(data, rest, passes, w, h, n)
    requires PassWidth(|passes|, w) == 0 || PassHeight(|passes|, h) == 0
    ensures OnTrack(data, rest, passes + [[]], w, h, n)
  {
    forall rows: Rows, fss: seq<seq<nat>> | EncodedFrom(data, rows, w, h, n, fss, 0)
      ensures OnTrackFor(rest, passes + [[]], w, h, n, rows, fss)
    {
      EmptyPassFor(rest, passes, w, h, n, rows, fss);
    }
  }

  lemma NextPass(data: seq<Byte>, rest: seq<Byte>, passes: seq<Rows>, decoded: Rows, w: nat, h: nat, n: nat, len: nat)
    requires |passes| < 7 && OnTrack(data, rest, passes, w, h, n)
    requires PassWidth(|passes|, w) > 0 && PassHeight(|passes|, h) > 0 && len <= |rest|
    requires len == LineStart(PassHeight(|passes|, h), Times(PassWidth(|passes|, w), n))
    requires forall fs: seq<nat>, rows: Rows |
      Encoded(rest, fs, rows, PassHeight(|passes|, h), Times(PassWidth(|passes|, w), n), n) :: rows == decoded
    ensures OnTrack(data, rest[len..], passes + [decoded], w, h, n)
  {
    var p := |passes|;
    forall rows: Rows, fss: seq<seq<nat>> | EncodedFrom(data, rows, w, h, n, fss, 0)
      ensures OnTrackFor(rest[len..], passes + [decoded], w, h, n, rows, fss)
    {
      assert OnTrackFor(rest, passes, w, h, n, rows, fss);
      FirstOfPasses(rest, rows, w, h, n, fss, p);
      assert Encoded(rest, fss[p], SubImage(rows, w, h, n, p, PassHeight(p, h)), PassHeight(p, h),
          Times(PassWidth(p, w), n), n);
      NextPassFor(rest, passes, decoded, w, h, n, len, rows, fss);
    }
  }

  /** The data of a pass come first, and the other passes follow. */
  lemma FirstOfPasses(rest: seq<Byte>, rows: Rows, w: nat, h: nat, n: nat, fss: seq<seq<nat>>, p: nat)
    requires p < 7 && EncodedFrom(rest, rows, w, h, n, fss, p) && PassWidth(p, w) > 0 && PassHeight(p, h) > 0
    ensures Encoded(rest, fss[p], SubImage(rows, w, h, n, p, PassHeight(p, h)), PassHeight(p, h),
        Times(PassWidth(p, w), n), n)
    ensures LineStart(PassHeight(p, h), Times(PassWidth(p, w), n)) <= |rest|
    ensures EncodedFrom(rest[LineStart(PassHeight(p, h), Times(PassWidth(p, w), n))..], rows, w, h, n, fss, p + 1)
  {
    DropPassData(rest, rows, w, h, n, fss, p);
    EncodeRowsSize(fss[p], SubImage(rows, w, h, n, p, PassHeight(p, h)), Times(PassWidth(p, w), n), n);
  }

  /** Pixels taken from the reduced images of an image are the pixels of that image. */
  lemma ReducedIsWhole(buffer: seq<Byte>, passes: seq<Rows>, rows: Rows, w: nat, h: nat, img_n: nat, out_n: nat)
    requires Channels(img_n, out_n) && WholeImage(rows, w, h, img_n) && |passes| == 7
    requires AreReduced(passes, rows, w, h, img_n) && Spread(buffer, passes, w, h, img_n, out_n, 7, 0, 0)
    ensures buffer == Render(rows, img_n, out_n)
  {
    forall x: nat, y: nat | x < w && y < h
      ensures PixelRight(buffer, rows[y], w, x, y, img_n, out_n)
    {
      var p, i, j := PassOf(x, y), InX(x, y), InY(x, y);
      EachPixelOnce(w, h, x, y, p, i, j);
      assert Copied(x, y, 7, 0, 0);
      assert FromPass(buffer, passes, w, x, y, img_n, out_n);
      SubImagePixel(rows, w, h, p, PassHeight(p, h), i, j, img_n, out_n);
    }
    PixelsAreImage(buffer, rows, w, img_n, out_n);
  }

  datatype Verdict = Accepted | Rejected(error: PngError)

  /** What is wrong with the data of pass p and those after it: the first pass that is short or has a filter type
      above 4, passes without pixels left out. */
  ghost function FirstError(data: seq<Byte>, w: nat, h: nat, n: nat, p: nat): Verdict
    requires p <= 7
    decreases 7 - p
  {
    if p == 7 then Accepted
    else if PassWidth(p, w) == 0 || PassHeight(p, h) == 0 then FirstError(data, w, h, n, p + 1)
    else if |data| < PassBytes(p, w, h, n) then Rejected(NotEnoughPixels)
    else if !Filters(FilterTypes(data, PassHeight(p, h), Times(PassWidth(p, w), n))) then Rejected(InvalidFilter)
    else FirstError(data[PassBytes(p, w, h, n)..], w, h, n, p + 1)
  }

  function PassBytes(p: nat, w: nat, h: nat, n: nat): nat
    requires p < 7
  {
    LineStart(PassHeight(p, h), Times(PassWidth(p, w), n))
  }

  /** Where the data of pass p start. */
  function PassStart(p: nat, w: nat, h: nat, n: nat): nat
    requires p <= 7
  {
    if p == 0 then 0
    else PassStart(p - 1, w, h, n) +
         if PassWidth(p - 1, w) == 0 || PassHeight(p - 1, h) == 0 then 0 else PassBytes(p - 1, w, h, n)
  }

  /** The data at a pass's place encode its rows. */
  ghost predicate DecodedAt(data: seq<Byte>, fss: seq<seq<nat>>, passes: seq<Rows>, w: nat, h: nat, n: nat, p: nat)
    requires p < 7
  {
    PassWidth(p, w) > 0 && PassHeight(p, h) > 0 ==>
      p < |fss| && p < |passes| && PassStart(p, w, h, n) + PassBytes(p, w, h, n) <= |data| &&
      Encoded(data[PassStart(p, w, h, n)..], fss[p], passes[p], PassHeight(p, h), Times(PassWidth(p, w), n), n)
  }

  ghost predicate DecodedTo(data: seq<Byte>, fss: seq<seq<nat>>, passes: seq<Rows>, w: nat, h: nat, n: nat) {
    |fss| == |passes| <= 7 && forall p: nat :: p < |passes| ==> DecodedAt(data, fss, passes, w, h, n, p)
  }

  lemma DecodedEmpty(data: seq<Byte>, fss: seq<seq<nat>>, passes: seq<Rows>, w: nat, h: nat, n: nat)
    requires DecodedTo(data, fss, passes, w, h, n) && |passes| < 7
    requires PassWidth(|passes|, w) == 0 || PassHeight(|passes|, h) == 0
    ensures DecodedTo(data, fss + [[]], passes + [[]], w, h, n)
    ensures PassStart(|passes| + 1, w, h, n) == PassStart(|passes|, w, h, n)
  {
    hide Encoded;
    DecodedKept(data, fss, passes, w, h, n, [], []);
  }

  lemma DecodedKept(data: seq<Byte>, fss: seq<seq<nat>>, passes: seq<Rows>, w: nat, h: nat, n: nat, fs: seq<nat>,
      rows: Rows)
    requires DecodedTo(data, fss, passes, w, h, n) && |passes| < 7
    ensures forall p: nat :: p < |passes| ==> DecodedAt(data, fss + [fs], passes + [rows], w, h, n, p)
  {
    hide Encoded;
    forall p: nat | p < |passes|
      ensures DecodedAt(data, fss + [fs], passes + [rows], w, h, n, p)
    {
      assert DecodedAt(data, fss, passes, w, h, n, p);
      assert (fss + [fs])[p] == fss[p] && (passes + [rows])[p] == passes[p];
    }
  }

  lemma DoneIsEncoded(bytes: seq<Byte>, raw: seq<Byte>, fs: seq<nat>, rows: Rows, width: nat, n: nat, out_n: nat)
    requires n > 0 && RowsDone(bytes, raw, fs, rows, width, n, out_n)
    ensures Encoded(raw, fs, rows, |rows|, width, n) && LineStart(|rows|, width) <= |raw|
  {
    assert EncodeRows(fs, rows, width, n) == raw[..LineStart(|rows|, width)];
  }

  lemma DecodedMore(data: seq<Byte>, fss: seq<seq<nat>>, passes: seq<Rows>, w: nat, h: nat, n: nat, fs: seq<nat>,
      rows: Rows, bytes: seq<Byte>, out_n: nat)
    requires DecodedTo(data, fss, passes, w, h, n) && |passes| < 7 && n > 0
    requires PassWidth(|passes|, w) > 0 && PassHeight(|passes|, h) > 0
    requires PassStart(|passes|, w, h, n) <= |data| && |rows| == PassHeight(|passes|, h)
    requires RowsDone(bytes, data[PassStart(|passes|, w, h, n)..], fs, rows, Times(PassWidth(|passes|, w), n), n, out_n)
    ensures DecodedTo(data, fss + [fs], passes + [rows], w, h, n)
    ensures PassStart(|passes| + 1, w, h, n) <= |data|
    ensures data[PassStart(|passes|, w, h, n)..][PassBytes(|passes|, w, h, n)..] ==
            data[PassStart(|passes| + 1, w, h, n)..]
  {
    hide Encoded, RowsDone, DecodedAt, PassWidth, PassHeight, Times, LineStart, PassStart;
    DecodedKept(data, fss, passes, w, h, n, fs, rows);
    DoneIsEncoded(bytes, data[PassStart(|passes|, w, h, n)..], fs, rows, Times(PassWidth(|passes|, w), n), n, out_n);
    DecodedLast(data, fss + [fs], passes + [rows], w, h, n, |passes|);
  }

  lemma DecodedLast(data: seq<Byte>, fss: seq<seq<nat>>, passes: seq<Rows>, w: nat, h: nat, n: nat, p: nat)
    requires p < |fss| && p < |passes| && p < 7 && PassStart(p, w, h, n) <= |data|
    requires PassWidth(p, w) > 0 && PassHeight(p, h) > 0 && PassBytes(p, w, h, n) <= |data[PassStart(p, w, h, n)..]|
    requires Encoded(data[PassStart(p, w, h, n)..], fss[p], passes[p], PassHeight(p, h), Times(PassWidth(p, w), n), n)
    ensures DecodedAt(data, fss, passes, w, h, n, p) && PassStart(p + 1, w, h, n) <= |data|
    ensures data[PassStart(p, w, h, n)..][PassBytes(p, w, h, n)..] == data[PassStart(p + 1, w, h, n)..]
  {
    hide Encoded, PassBytes, PassWidth, PassHeight;
  }

  lemma Undecoded(data: seq<Byte>, w: nat, h: nat, n: nat)
    ensures DecodedTo(data, [], [], w, h, n) && PassStart(0, w, h, n) == 0 && data == data[0..]
  {
  }

  lemma Started(data: seq<Byte>, buffer: seq<Byte>, w: nat, h: nat, img_n: nat, out_n: nat)
    requires |buffer| == Times(h, Times(w, out_n))
    ensures OnTrack(data, data, [], w, h, img_n) && Spread(buffer, [], w, h, img_n, out_n, 0, 0, 0)
  {
  }

  lemma Finished(data: seq<Byte>, rest: seq<Byte>, passes: seq<Rows>, buffer: seq<Byte>, w: nat, h: nat, img_n: nat,
      out_n: nat)
    requires Channels(img_n, out_n) && |passes| == 7
    requires OnTrack(data, rest, passes, w, h, img_n) && Spread(buffer, passes, w, h, img_n, out_n, 7, 0, 0)
    ensures forall rows: Rows, fss: seq<seq<nat>> | EncodedFrom(data, rows, w, h, img_n, fss, 0) ::
              buffer == Render(rows, img_n, out_n)
  {
    forall rows: Rows, fss: seq<seq<nat>> | EncodedFrom(data, rows, w, h, img_n, fss, 0)
      ensures buffer == Render(rows, img_n, out_n)
    {
      assert OnTrackFor(rest, passes, w, h, img_n, rows, fss);
      ReducedIsWhole(buffer, passes, rows, w, h, img_n, out_n);
    }
  }

  lemma PassVerdict(data: seq<Byte>, w: nat, h: nat, n: nat, p: nat, r: Decoded)
    requires p < 7 && PassWidth(p, w) > 0 && PassHeight(p, h) > 0
    requires r == Failed(NotEnoughPixels) <==> |data| < PassBytes(p, w, h, n)
    requires r == Failed(InvalidFilter) <==>
               |data| >= PassBytes(p, w, h, n) &&
                   !Filters(FilterTypes(data, PassHeight(p, h), Times(PassWidth(p, w), n)))
    ensures r.Failed? ==> FirstError(data, w, h, n, p) == Rejected(r.error)
    ensures r.Pixels? ==> PassBytes(p, w, h, n) <= |data| &&
                          FirstError(data, w, h, n, p) == FirstError(data[PassBytes(p, w, h, n)..], w, h, n, p + 1)
  {
    hide PassWidth, PassHeight, Times, LineStart, FilterTypes, Filters;
    assert r.Failed? ==> r.error == NotEnoughPixels || r.error == InvalidFilter;
  }

  lemma EmptyVerdict(data: seq<Byte>, w: nat, h: nat, n: nat, p: nat)
    requires p < 7 && (PassWidth(p, w) == 0 || PassHeight(p, h) == 0)
    ensures FirstError(data, w, h, n, p) == FirstError(data, w, h, n, p + 1)
  {
  }

  lemma LastVerdict(data: seq<Byte>, w: nat, h: nat, n: nat)
    ensures FirstError(data, w, h, n, 7) == Accepted
  {
  }

  /** stbi__create_png_image for an interlaced image of 8-bit channels: data that start with the seven
      encoded passes of an image give the pixels of that image, accepted data encode the passes whose pixels the
      result shows, and data fail exactly with their first error. */
  method CreatePngImage(image_data: seq<Byte>, img_n: nat, out_n: nat, w: nat, h: nat)
    returns (r: Decoded, ghost passes: seq<Rows>, ghost fss: seq<seq<nat>>)
    requires Channels(img_n, out_n) && 1 <= w <= MAX_DIMENSIONS && 1 <= h <= MAX_DIMENSIONS
    ensures FirstError(image_data, w, h, img_n, 0) == if r.Failed? then Rejected(r.error) else Accepted
    ensures r.Pixels? ==> |passes| == 7 && DecodedTo(image_data, fss, passes, w, h, img_n)
    ensures r.Pixels? ==> |passes| == 7 && Spread(r.bytes[..], passes, w, h, img_n, out_n, 7, 0, 0)
    ensures forall rows: Rows, all: seq<seq<nat>> | EncodedFrom(image_data, rows, w, h, img_n, all, 0) ::
              r.Pixels? && r.bytes[..] == Render(rows, img_n, out_n)
  {
    hide FirstError, FilterTypes, Spread, OnTrack, EncodedFrom, Encoded, Render, RowsDone, LineStart, DecodedTo,
        PassStart;
    passes, fss := [], [];
    var final := NewImage(w, h, out_n);
    var data := image_data;
    var p := 0;
    Started(image_data, final[..], w, h, img_n, out_n);
    Undecoded(image_data, w, h, img_n);
    while p < 7
      invariant p <= 7 && |passes| == p && fresh(final)
      invariant Spread(final[..], passes, w, h, img_n, out_n, p, 0, 0)
      invariant OnTrack(image_data, data, passes, w, h, img_n)
      invariant DecodedTo(image_data, fss, passes, w, h, img_n) && PassStart(p, w, h, img_n) <= |image_data|
      invariant data == image_data[PassStart(p, w, h, img_n)..]
      invariant FirstError(image_data, w, h, img_n, 0) == FirstError(data, w, h, img_n, p)
    {
      var x, y := PassWidth(p, w), PassHeight(p, h);
      if x != 0 && y != 0 {
        var width, stride, img_len, out_len := Sizes(img_n, out_n, x, y);
        var raw;
        ghost var fs, rows;
        raw, fs, rows := CreateImageRaw(data, img_n, out_n, x, y);
        PassVerdict(data, w, h, img_n, p, raw);
        if raw.Failed? {
          FailedPass(image_data, data, passes, w, h, img_n);
          return raw, passes, fss;
        }
        NextPass(image_data, data, passes, rows, w, h, img_n, img_len);
        MorePasses(final[..], passes, rows, w, h, img_n, out_n, p);
        DecodedMore(image_data, fss, passes, w, h, img_n, fs, rows, raw.bytes[..], out_n);
        passes, fss := passes + [rows], fss + [fs];
        SpreadPass(final, raw.bytes, p, x, y, w, h, img_n, out_n, passes);
        data := data[img_len..];
      } else {
        EmptyVerdict(data, w, h, img_n, p);
        EmptyPass(image_data, data, passes, w, h, img_n);
        MorePasses(final[..], passes, [], w, h, img_n, out_n, p);
        DecodedEmpty(image_data, fss, passes, w, h, img_n);
        passes, fss := passes + [[]], fss + [[]];
        PassSpread(final[..], passes, w, h, img_n, out_n, p, 0);
      }
      p := p + 1;
    }
    Finished(image_data, data, passes, final[..], w, h, img_n, out_n);
    LastVerdict(data, w, h, img_n);
    r := Pixels(final);
  }

  lemma FailedPass(data: seq<Byte>, rest: seq<Byte>, passes: seq<Rows>, w: nat, h: nat, n: nat)
    requires |passes| < 7 && OnTrack(data, rest, passes, w, h, n)
    requires PassWidth(|passes|, w) > 0 && PassHeight(|passes|, h) > 0
    requires forall fs: seq<nat>, rows: Rows ::
      !Encoded(rest, fs, rows, PassHeight(|passes|, h), Times(PassWidth(|passes|, w), n), n)
    ensures forall rows: Rows, fss: seq<seq<nat>> :: !EncodedFrom(data, rows, w, h, n, fss, 0)
  {
    forall rows: Rows, fss: seq<seq<nat>>
      ensures !EncodedFrom(data, rows, w, h, n, fss, 0)
    {
      if EncodedFrom(data, rows, w, h, n, fss, 0) {
        assert OnTrackFor(rest, passes, w, h, n, rows, fss);
        FirstOfPasses(rest, rows, w, h, n, fss, |passes|);
      }
    }
  }

  method NewImage(w: nat, h: nat, n: nat) returns (a: array<Byte>)
    ensures fresh(a) && a.Length == Times(h, Times(w, n))
  {
    TimesIsProduct(w, n);
    TimesIsProduct(h, w * n);
    a := new Byte[h * (w * n)](_ => 0);
  }
}

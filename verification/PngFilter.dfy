/** The five filters of PNG (sections 9.2 to 9.4 of the PNG Specification, Second Edition) for images
    with 8-bit channels. n is the number of bytes per pixel. */
module PngFilter {
  import opened Bytes

  function Abs(v: int): nat {
    if v < 0 then -v else v
  }

  /** stbi__paeth. */
  function Paeth(a: int, b: int, c: int): int {
    var p := a + b - c;
    var pa, pb, pc := Abs(p - a), Abs(p - b), Abs(p - c);
    if pa <= pb && pa <= pc then a else if pb <= pc then b else c
  }

  /** The predictor is the neighbour nearest to a + b - c; on ties the order is a, b, c. */
  lemma PaethIsNearest(a: int, b: int, c: int)
    ensures var p, r := a + b - c, Paeth(a, b, c);
      (r == a || r == b || r == c) &&
      Abs(p - r) <= Abs(p - a) && Abs(p - r) <= Abs(p - b) && Abs(p - r) <= Abs(p - c) &&
      (Abs(p - a) == Abs(p - r) ==> r == a) && (Abs(p - b) == Abs(p - r) ==> r == a || r == b)
  {
  }

  /** What filter f predicts from the byte to the left, the byte above and the byte above to the left. */
  function Predict(f: nat, left: Byte, up: Byte, upleft: Byte): Byte
    requires f <= 4
  {
    if f == 0 then 0
    else if f == 1 then left
    else if f == 2 then up
    else if f == 3 then (left + up) / 2
    else Paeth(left, up, upleft)
  }

  function At(row: seq<Byte>, k: int): Byte {
    if 0 <= k < |row| then row[k] else 0
  }

  function FilteredByte(f: nat, row: seq<Byte>, prior: seq<Byte>, n: nat, k: nat): Byte
    requires f <= 4 && k < |row|
  {
    (row[k] - Predict(f, At(row, k - n), At(prior, k), At(prior, k - n))) % 256
  }

  /** The encoder: the filtered bytes of a row. */
  function FilterRow(f: nat, row: seq<Byte>, prior: seq<Byte>, n: nat): (r: seq<Byte>)
    requires f <= 4
    ensures |r| == |row|
  {
    seq(|row|, k requires 0 <= k < |row| => FilteredByte(f, row, prior, n, k))
  }

  function Zeros(n: nat): (r: seq<Byte>)
    ensures |r| == n
  {
    seq(n, k => 0)
  }

  ghost predicate Filters(fs: seq<nat>) {
    forall j :: 0 <= j < |fs| ==> fs[j] <= 4
  }

  ghost predicate Image(rows: seq<seq<Byte>>, width: nat) {
    forall j :: 0 <= j < |rows| ==> |rows[j]| == width
  }

  function RowBefore(rows: seq<seq<Byte>>, width: nat): seq<Byte> {
    if rows == [] then Zeros(width) else rows[|rows| - 1]
  }

  /** The encoded image: each row is its filter type followed by its filtered bytes. */
  function EncodeRows(fs: seq<nat>, rows: seq<seq<Byte>>, width: nat, n: nat): seq<Byte>
    requires |fs| == |rows| && forall j :: 0 <= j < |fs| ==> fs[j] <= 4
  {
    if rows == [] then []
    else
      var m := |rows| - 1;
      EncodeRows(fs[..m], rows[..m], width, n) + [fs[m]] + FilterRow(fs[m], rows[m], RowBefore(rows[..m], width), n)
  }

  // ---------------------------------------------------------------- filters are invertible

  lemma RestoreByte(v: Byte, p: Byte)
    ensures ((v - p) % 256 + p) % 256 == v
    ensures ((v + p) % 256 - p) % 256 == v
  {
    if v >= p { assert (v - p) % 256 == v - p; } else { assert (v - p) % 256 == v - p + 256; }
    if v + p < 256 { assert (v + p) % 256 == v + p; } else { assert (v + p) % 256 == v + p - 256; }
  }

  /** Two rows with the same filtered bytes agree on every prefix. */
  lemma {:induction false} FilterRowInjective(f: nat, row: seq<Byte>, row': seq<Byte>, prior: seq<Byte>, n: nat, k: nat)
    requires f <= 4 && n > 0 && |row| == |row'| && k <= |row|
    requires FilterRow(f, row, prior, n) == FilterRow(f, row', prior, n)
    ensures row[..k] == row'[..k]
  {
    if k > 0 {
      var j := k - 1;
      FilterRowInjective(f, row, row', prior, n, j);
      assert FilterRow(f, row, prior, n)[j] == FilterRow(f, row', prior, n)[j];
      if j >= n {
        assert row[..j][j - n] == row'[..j][j - n];
      }
      var p := Predict(f, At(row, j - n), At(prior, j), At(prior, j - n));
      assert p == Predict(f, At(row', j - n), At(prior, j), At(prior, j - n));
      RestoreByte(row[j], p);
      RestoreByte(row'[j], p);
      assert row[..k] == row[..j] + [row[j]];
      assert row'[..k] == row'[..j] + [row'[j]];
    }
  }

  lemma {:induction false} EncodeRowsSize(fs: seq<nat>, rows: seq<seq<Byte>>, width: nat, n: nat)
    requires |fs| == |rows| && Filters(fs) && Image(rows, width)
    ensures |EncodeRows(fs, rows, width, n)| == LineStart(|rows|, width)
  {
    if rows != [] {
      var m := |rows| - 1;
      EncodeRowsSize(fs[..m], rows[..m], width, n);
    }
  }

  /** The encoding of a last row. */
  function EncodeLast(fs: seq<nat>, rows: seq<seq<Byte>>, width: nat, n: nat): seq<Byte>
    requires |fs| == |rows| > 0 && Filters(fs)
  {
    FilterRow(fs[|rows| - 1], rows[|rows| - 1], RowBefore(rows[..|rows| - 1], width), n)
  }

  lemma LastRowInjective(fs: seq<nat>, rows: seq<seq<Byte>>, fs': seq<nat>, rows': seq<seq<Byte>>, width: nat, n: nat)
    requires n > 0 && |fs| == |rows| == |fs'| == |rows'| > 0 && Filters(fs) && Filters(fs')
    requires Image(rows, width) && Image(rows', width)
    requires EncodeRows(fs, rows, width, n) == EncodeRows(fs', rows', width, n)
    ensures var m := |rows| - 1;
      EncodeRows(fs[..m], rows[..m], width, n) == EncodeRows(fs'[..m], rows'[..m], width, n) &&
      fs[m] == fs'[m] && EncodeLast(fs, rows, width, n) == EncodeLast(fs', rows', width, n)
  {
    var m := |rows| - 1;
    EncodeRowsSize(fs[..m], rows[..m], width, n);
    EncodeRowsSize(fs'[..m], rows'[..m], width, n);
    SplitEqual(EncodeRows(fs[..m], rows[..m], width, n), [fs[m]], EncodeLast(fs, rows, width, n),
               EncodeRows(fs'[..m], rows'[..m], width, n), [fs'[m]], EncodeLast(fs', rows', width, n));
    assert [fs[m]][0] == [fs'[m]][0];
  }

  /** The encoded bytes determine filter types and image. */
  lemma {:induction false} EncodeRowsInjective(fs: seq<nat>, rows: seq<seq<Byte>>, fs': seq<nat>,
      rows': seq<seq<Byte>>, width: nat, n: nat)
    requires n > 0 && |fs| == |rows| == |fs'| == |rows'| && Filters(fs) && Filters(fs')
    requires Image(rows, width) && Image(rows', width)
    requires EncodeRows(fs, rows, width, n) == EncodeRows(fs', rows', width, n)
    ensures fs == fs' && rows == rows'
  {
    hide EncodeRows, FilterRow, RowBefore;
    if rows != [] {
      var m := |rows| - 1;
      LastRowInjective(fs, rows, fs', rows', width, n);
      EncodeRowsInjective(fs[..m], rows[..m], fs'[..m], rows'[..m], width, n);
      FilterRowInjective(fs[m], rows[m], rows'[m], RowBefore(rows[..m], width), n, width);
      assert rows[m] == rows[m][..width] == rows'[m][..width] == rows'[m];
      SameByLast(fs, fs');
      SameByLast(rows, rows');
    }
  }

  lemma SameByLast<T>(a: seq<T>, b: seq<T>)
    requires |a| == |b| > 0 && a[..|a| - 1] == b[..|b| - 1] && a[|a| - 1] == b[|b| - 1]
    ensures a == b
  {
    assert a == a[..|a| - 1] + [a[|a| - 1]] && b == b[..|b| - 1] + [b[|b| - 1]];
  }

  lemma SplitEqual<T>(a: seq<T>, b: seq<T>, c: seq<T>, a': seq<T>, b': seq<T>, c': seq<T>)
    requires a + b + c == a' + b' + c' && |a| == |a'| && |b| == |b'|
    ensures a == a' && b == b' && c == c'
  {
    assert a == (a + b + c)[..|a|];
    assert b == (a + b + c)[|a|..|a| + |b|];
    assert c == (a + b + c)[|a| + |b|..];
  }

  // ---------------------------------------------------------------- what the filters are

  /** The row above row j: the row before it, or zeros. */
  function RowAbove(rows: seq<seq<Byte>>, width: nat, j: nat): seq<Byte>
    requires j < |rows|
  {
    if j == 0 then seq(width, _ => 0) else rows[j - 1]
  }

  /** Each row of the encoding is its filter type and then its filtered bytes. */
  lemma {:induction false} EncodedByte(fs: seq<nat>, rows: seq<seq<Byte>>, width: nat, n: nat, j: nat, k: nat)
    requires |fs| == |rows| && Filters(fs) && Image(rows, width) && j < |rows| && k < width
    ensures j * (width + 1) + 1 + k < |EncodeRows(fs, rows, width, n)|
    ensures EncodeRows(fs, rows, width, n)[j * (width + 1)] == fs[j]
    ensures EncodeRows(fs, rows, width, n)[j * (width + 1) + 1 + k] ==
            FilteredByte(fs[j], rows[j], RowAbove(rows, width, j), n, k)
    decreases |rows|
  {
    hide FilteredByte;
    var m := |rows| - 1;
    EncodeRowsSize(fs[..m], rows[..m], width, n);
    TimesIsProduct(m, width + 1);
    if j < m {
      EncodedByte(fs[..m], rows[..m], width, n, j, k);
    } else {
      assert RowBefore(rows[..m], width) == RowAbove(rows, width, m);
    }
  }

  /** Section 9.2: a byte is its filtered byte plus, by filter type, nothing, the byte of the pixel to the left, the
      byte above, half their sum rounded down, or the Paeth predictor, modulo 256. */
  lemma FilterMeaning(f: nat, row: seq<Byte>, prior: seq<Byte>, n: nat, k: nat)
    requires f <= 4 && 0 < n && k < |row| == |prior|
    ensures var v := FilteredByte(f, row, prior, n, k);
      var left, up, upleft := if k < n then 0 else row[k - n], prior[k], if k < n then 0 else prior[k - n];
      (f == 0 ==> row[k] == v) &&
      (f == 1 ==> row[k] == (v + left) % 256) &&
      (f == 2 ==> row[k] == (v + up) % 256) &&
      (f == 3 ==> exists h: nat :: left + up - 1 <= 2 * h <= left + up && row[k] == (v + h) % 256) &&
      (f == 4 ==> row[k] == (v + Paeth(left, up, upleft)) % 256)
  {
    var left, up, upleft := At(row, k - n), At(prior, k), At(prior, k - n);
    RestoreByte(row[k], Predict(f, left, up, upleft));
    if f == 3 {
      var h: nat := (left + up) / 2;
      assert left + up - 1 <= 2 * h <= left + up;
    }
  }

  // ---------------------------------------------------------------- added alpha channel

  /** The pixels of n bytes with an opaque alpha byte after each. */
  function AddAlpha(row: seq<Byte>, n: nat): seq<Byte>
    requires n > 0
    decreases |row|
  {
    if |row| < n then []
    else AddAlpha(row[..|row| - n], n) + row[|row| - n..] + [255]
  }

  lemma {:induction false} AddAlphaSize(row: seq<Byte>, n: nat, pixels: nat)
    requires n > 0 && |row| == Times(pixels, n)
    ensures |AddAlpha(row, n)| == Times(pixels, n + 1)
    decreases pixels
  {
    if pixels > 0 {
      AddAlphaSize(row[..|row| - n], n, pixels - 1);
    }
  }

  /** What a row of the image looks like in the output buffer. */
  function Placed(row: seq<Byte>, img_n: nat, out_n: nat): seq<Byte>
    requires img_n > 0
  {
    if out_n == img_n then row else AddAlpha(row, img_n)
  }

  function Render(rows: seq<seq<Byte>>, img_n: nat, out_n: nat): seq<Byte>
    requires img_n > 0
  {
    if rows == [] then []
    else Render(rows[..|rows| - 1], img_n, out_n) + Placed(rows[|rows| - 1], img_n, out_n)
  }

  // ---------------------------------------------------------------- the decoder's own filters

  /** The filters of the program: two of them serve the first row, which has no row above. */
  datatype Kind = None | Sub | Up | Avg | PaethKind | AvgFirst | PaethFirst

  function OrdinaryKind(f: nat): Kind
    requires f <= 4
  {
    [None, Sub, Up, Avg, PaethKind][f]
  }

  /** first_row_filter. */
  function FirstRowKind(f: nat): Kind
    requires f <= 4
  {
    [None, Sub, None, AvgFirst, PaethFirst][f]
  }

  predicate ReadsPrior(kind: Kind) {
    kind == Up || kind == Avg || kind == PaethKind
  }

  /** A byte of the first pixel, which has no pixel to the left. */
  function FirstPixelByte(kind: Kind, raw: Byte, up: Byte): Byte {
    match kind
    case None => raw
    case Sub => raw
    case Up => (raw + up) % 256
    case Avg => (raw + up / 2) % 256
    case PaethKind => (raw + Paeth(0, up, 0)) % 256
    case AvgFirst => raw
    case PaethFirst => raw
  }

  function NextPixelByte(kind: Kind, raw: Byte, left: Byte, up: Byte, upleft: Byte): Byte {
    match kind
    case None => raw
    case Sub => (raw + left) % 256
    case Up => (raw + up) % 256
    case Avg => (raw + (up + left) / 2) % 256
    case PaethKind => (raw + Paeth(left, up, upleft)) % 256
    case AvgFirst => (raw + left / 2) % 256
    case PaethFirst => (raw + Paeth(left, 0, 0)) % 256
  }

  /** The filter used for type f on the first row or on a later one. */
  function KindOf(f: nat, first: bool): Kind
    requires f <= 4
  {
    if first then FirstRowKind(f) else OrdinaryKind(f)
  }

  /** Each of the program's filters adds what the standard's filter of the same type subtracts;
      on the first row the row above counts as zero. */
  lemma KindsUndo(f: nat, first: bool, raw: Byte, left: Byte, up: Byte, upleft: Byte)
    requires f <= 4 && (first ==> up == 0 && upleft == 0)
    ensures FirstPixelByte(KindOf(f, first), raw, up) == (raw + Predict(f, 0, up, 0)) % 256
    ensures NextPixelByte(KindOf(f, first), raw, left, up, upleft) == (raw + Predict(f, left, up, upleft)) % 256
  {
    if f == 0 {} else if f == 1 {} else if f == 2 {} else if f == 3 {} else {}
  }

  /** Filtering the restored bytes gives back the encoded ones. */
  ghost predicate Undoes(f: nat, row: seq<Byte>, prior: seq<Byte>, n: nat, line: seq<Byte>)
    requires f <= 4
  {
    |row| <= |line| && forall i :: 0 <= i < |row| ==> line[i] == FilteredByte(f, row, prior, n, i)
  }

  lemma UndoesSnoc(f: nat, row: seq<Byte>, prior: seq<Byte>, n: nat, line: seq<Byte>, v: Byte)
    requires f <= 4 && n > 0 && |row| < |line| && Undoes(f, row, prior, n, line)
    requires v == (line[|row|] + Predict(f, At(row, |row| - n), At(prior, |row|), At(prior, |row| - n))) % 256
    ensures Undoes(f, row + [v], prior, n, line)
  {
    var longer := row + [v];
    RestoreByte(line[|row|], Predict(f, At(row, |row| - n), At(prior, |row|), At(prior, |row| - n)));
    forall i | 0 <= i < |longer|
      ensures line[i] == FilteredByte(f, longer, prior, n, i)
    {
      assert At(longer, i - n) == At(row, i - n);
    }
  }

  /** A filter that does not read the row above gives the same byte for every row above. */
  lemma PriorUnread(kind: Kind, raw: Byte, left: Byte, up: Byte, upleft: Byte)
    requires !ReadsPrior(kind)
    ensures FirstPixelByte(kind, raw, up) == FirstPixelByte(kind, raw, 0)
    ensures NextPixelByte(kind, raw, left, up, upleft) == NextPixelByte(kind, raw, left, 0, 0)
  {
  }

  /** What the decoder may pass for a byte of the row above: the byte itself unless it is not read. */
  ghost predicate Above(f: nat, first: bool, up: Byte, prior: seq<Byte>, k: int)
    requires f <= 4
  {
    (first ==> At(prior, k) == 0) && (ReadsPrior(KindOf(f, first)) ==> up == At(prior, k))
  }

  lemma FirstPixelUndoes(f: nat, first: bool, row: seq<Byte>, prior: seq<Byte>, n: nat, line: seq<Byte>, up: Byte)
    requires f <= 4 && |row| < n && |row| < |line| && Undoes(f, row, prior, n, line)
    requires Above(f, first, up, prior, |row|)
    ensures Undoes(f, row + [FirstPixelByte(KindOf(f, first), line[|row|], up)], prior, n, line)
  {
    var kind, k := KindOf(f, first), |row|;
    KindsUndo(f, first, line[k], 0, At(prior, k), 0);
    if !ReadsPrior(kind) {
      PriorUnread(kind, line[k], 0, up, 0);
      PriorUnread(kind, line[k], 0, At(prior, k), 0);
    }
    UndoesSnoc(f, row, prior, n, line, FirstPixelByte(kind, line[k], up));
  }

  lemma NextPixelUndoes(f: nat, first: bool, row: seq<Byte>, prior: seq<Byte>, n: nat, line: seq<Byte>, up: Byte,
      upleft: Byte)
    requires f <= 4 && 0 < n <= |row| < |line| && Undoes(f, row, prior, n, line)
    requires Above(f, first, up, prior, |row|) && Above(f, first, upleft, prior, |row| - n)
    ensures Undoes(f, row + [NextPixelByte(KindOf(f, first), line[|row|], row[|row| - n], up, upleft)], prior, n, line)
  {
    var kind, k := KindOf(f, first), |row|;
    KindsUndo(f, first, line[k], row[k - n], At(prior, k), At(prior, k - n));
    if !ReadsPrior(kind) {
      PriorUnread(kind, line[k], row[k - n], up, upleft);
      PriorUnread(kind, line[k], row[k - n], At(prior, k), At(prior, k - n));
    }
    UndoesSnoc(f, row, prior, n, line, NextPixelByte(kind, line[k], row[k - n], up, upleft));
  }

  /** The row above in the buffer, or zeros on the first row. */
  ghost predicate PriorRow(buffer: seq<Byte>, o: nat, width: nat, first: bool, prior: seq<Byte>) {
    |prior| == width && o <= |buffer| &&
    if first then prior == Zeros(width) else o >= width && prior == buffer[o - width..o]
  }

  /** The first pixel of a row, written at out[o..]. */
  method UnfilterFirstPixel(out: array<Byte>, o: nat, line: seq<Byte>, f: nat, first: bool, n: nat, stride: nat,
                            ghost prior: seq<Byte>)
    requires f <= 4 && 0 < n <= |line| && o + n <= out.Length && n <= stride
    requires PixelAbove(out[..o], o, stride, n, 0, first, prior)
    modifies out
    ensures Undoes(f, out[o..o + n], prior, n, line)
    ensures out[..o] == old(out[..o])
  {
    var kind := KindOf(f, first);
    var k := 0;
    while k < n
      invariant k <= n && out[..o] == old(out[..o])
      invariant Undoes(f, out[o..o + k], prior, n, line)
    {
      var up: Byte := if ReadsPrior(kind) then out[o - stride + k] else 0;
      assert prior[..n][k] == if first then 0 else old(out[..o])[o - stride..o - stride + n][k];
      FirstPixelUndoes(f, first, out[o..o + k], prior, n, line, up);
      ghost var row := out[o..o + k];
      out[o + k] := FirstPixelByte(kind, line[k], up);
      assert out[o..o + k + 1] == row + [out[o + k]];
      k := k + 1;
    }
  }

  /** Decodes a row whose pixels keep their n channels, in place at out[o..]. */
  method UnfilterRow(out: array<Byte>, o: nat, line: seq<Byte>, f: nat, first: bool, n: nat, x: nat,
      ghost prior: seq<Byte>)
    requires f <= 4 && n > 0 && x > 0 && |line| == x * n
    requires o + |line| <= out.Length && PriorRow(out[..], o, |line|, first, prior)
    modifies out
    ensures Undoes(f, out[o..o + |line|], prior, n, line)
    ensures out[..o] == old(out[..o])
  {
    var kind := KindOf(f, first);
    var nk := (x - 1) * n;
    assert x * n == nk + n;
    UnfilterFirstPixel(out, o, line, f, first, n, |line|, prior);
    UnfilterRest(out, o, line, f, first, n, nk, prior, out[..o]);
  }

  method UnfilterRest(out: array<Byte>, o: nat, line: seq<Byte>, f: nat, first: bool, n: nat, nk: nat,
                      ghost prior: seq<Byte>, ghost above: seq<Byte>)
    requires f <= 4 && n > 0 && |line| == n + nk && o + |line| <= out.Length
    requires above == out[..o] && PriorRow(above, o, |line|, first, prior)
    requires Undoes(f, out[o..o + n], prior, n, line)
    modifies out
    ensures Undoes(f, out[o..o + |line|], prior, n, line)
    ensures out[..o] == above
  {
    var k := 0;
    while k < nk
      invariant k <= nk && out[..o] == above
      invariant Undoes(f, out[o..o + n + k], prior, n, line)
    {
      var c := o + n + k;
      ghost var row := out[o..c];
      var v := NextByte(out, o, c, line, f, first, n, prior, above);
      out[c] := v;
      assert out[o..c + 1] == row + [v];
      k := k + 1;
    }
  }

  /** The byte at out[c], once out[o..c] is decoded. */
  method NextByte(out: array<Byte>, o: nat, c: nat, line: seq<Byte>, f: nat, first: bool, n: nat,
                  ghost prior: seq<Byte>, ghost above: seq<Byte>) returns (v: Byte)
    requires f <= 4 && 0 < n && o + n <= c < o + |line| <= out.Length
    requires above == out[..o] && PriorRow(above, o, |line|, first, prior)
    requires Undoes(f, out[o..c], prior, n, line)
    ensures Undoes(f, out[o..c] + [v], prior, n, line)
  {
    var kind := KindOf(f, first);
    var up: Byte := if ReadsPrior(kind) then out[c - |line|] else 0;
    var upleft: Byte := if ReadsPrior(kind) then out[c - |line| - n] else 0;
    assert ReadsPrior(kind) ==> up == above[c - |line|] && upleft == above[c - |line| - n];
    NextPixelUndoes(f, first, out[o..c], prior, n, line, up, upleft);
    v := NextPixelByte(kind, line[c - o], out[c - n], up, upleft);
  }

  /** The same for the row above with its alpha bytes in the buffer. */
  ghost predicate PriorAlphaRow(above: seq<Byte>, x: nat, n: nat, first: bool, prior: seq<Byte>)
    requires n > 0
  {
    |prior| == Times(x, n) &&
    if first then prior == Zeros(|prior|)
    else |above| >= Times(x, n + 1) && above[|above| - Times(x, n + 1)..] == AddAlpha(prior, n)
  }

  /** The bytes above the pixel whose first channel is at buffer index cur and row index r. */
  ghost predicate PixelAbove(above: seq<Byte>, cur: nat, stride: nat, n: nat, r: nat, first: bool, prior: seq<Byte>) {
    r + n <= |prior| &&
    if first then prior[r..r + n] == Zeros(n)
    else stride <= cur && cur - stride + n <= |above| && prior[r..r + n] == above[cur - stride..cur - stride + n]
  }

  lemma ChannelAbove(above: seq<Byte>, cur: nat, stride: nat, n: nat, r: nat, first: bool, prior: seq<Byte>, k: nat)
    requires PixelAbove(above, cur, stride, n, r, first, prior) && k < n
    ensures At(prior, r + k) == if first then 0 else above[cur - stride + k]
  {
    assert prior[r + k] == prior[r..r + n][k];
  }

  lemma PixelAboveHolds(above: seq<Byte>, x: nat, n: nat, first: bool, prior: seq<Byte>, p: nat)
    requires n > 0 && PriorAlphaRow(above, x, n, first, prior) && p < x
    ensures Times(p, n) + n <= |prior| && Times(p, n + 1) + (n + 1) <= Times(x, n + 1)
    ensures PixelAbove(above, |above| + Times(p, n + 1), Times(x, n + 1), n, Times(p, n), first, prior)
  {
    TimesMono(p, x, n);
    TimesMono(p, x, n + 1);
    if !first { AddAlphaPixel(prior, n, x, p); }
  }

  /** The n channels of pixel p. */
  lemma {:induction false} AddAlphaPixel(row: seq<Byte>, n: nat, pixels: nat, p: nat)
    requires n > 0 && |row| == Times(pixels, n) && p < pixels
    ensures Times(p, n) + n <= |row| && Times(p, n + 1) + (n + 1) <= |AddAlpha(row, n)|
    ensures AddAlpha(row, n)[Times(p, n + 1)..Times(p, n + 1) + n] == row[Times(p, n)..Times(p, n) + n]
    ensures AddAlpha(row, n)[Times(p, n + 1) + n] == 255
    decreases pixels
  {
    hide AddAlpha;
    var rest, pixel := row[..|row| - n], row[|row| - n..];
    assert row == rest + pixel;
    AddAlphaSnoc(rest, pixel, n);
    AddAlphaSize(rest, n, pixels - 1);
    var i, j := Times(p, n + 1), Times(p, n);
    if p < pixels - 1 {
      AddAlphaPixel(rest, n, pixels - 1, p);
      SliceOfFirst(AddAlpha(rest, n), pixel + [255], i, n);
      assert AddAlpha(rest, n) + (pixel + [255]) == AddAlpha(row, n);
      SliceOfFirst(rest, pixel, j, n);
    }
  }

  lemma SliceOfFirst(a: seq<Byte>, b: seq<Byte>, i: nat, n: nat)
    requires i + n <= |a|
    ensures (a + b)[i..i + n] == a[i..i + n]
  {
  }

  /** The buffer holds the rows above and then the pixels decoded so far, each with its alpha byte. */
  ghost predicate RowSoFar(buffer: seq<Byte>, above: seq<Byte>, row: seq<Byte>, n: nat)
    requires n > 0
  {
    buffer == above + AddAlpha(row, n)
  }

  /** Decodes a row and gives each pixel an opaque alpha byte, in place at out[o..]. */
  method UnfilterRowAlpha(out: array<Byte>, o: nat, line: seq<Byte>, f: nat, first: bool, n: nat, x: nat, stride: nat,
                          ghost prior: seq<Byte>) returns (ghost row: seq<Byte>)
    requires f <= 4 && n > 0 && x > 0 && |line| == Times(x, n) && stride == Times(x, n + 1)
    requires o + stride <= out.Length && PriorAlphaRow(out[..o], x, n, first, prior)
    modifies out
    ensures |row| == |line| && Undoes(f, row, prior, n, line)
    ensures RowSoFar(out[..o + stride], old(out[..o]), row, n)
  {
    ghost var above := out[..o];
    PixelAboveHolds(above, x, n, first, prior, 0);
    row := UnfilterFirstAlpha(out, o, line, f, first, n, stride, prior, above);
    row := UnfilterRestAlpha(out, o, line, f, first, n, x, stride, prior, above, row);
  }

  method UnfilterRestAlpha(out: array<Byte>, o: nat, line: seq<Byte>, f: nat, first: bool, n: nat, x: nat, stride: nat,
                           ghost prior: seq<Byte>, ghost above: seq<Byte>, ghost row1: seq<Byte>)
    returns (ghost row: seq<Byte>)
    requires f <= 4 && n > 0 && o + stride <= out.Length && o == |above| && o + (n + 1) <= out.Length
    requires PixelsDone(o + (n + 1), n, o, |line|, stride, n, x, 1) && PriorAlphaRow(above, x, n, first, prior)
    requires |row1| == n && RowSoFar(out[..o + (n + 1)], above, row1, n) && Undoes(f, row1, prior, n, line)
    modifies out
    ensures |row| == |line| && Undoes(f, row, prior, n, line)
    ensures RowSoFar(out[..o + stride], above, row, n)
  {
    row := row1;
    var i, cur: nat, r: nat := x - 1, o + (n + 1), n;
    while i >= 1
      invariant 0 <= i < x && cur <= out.Length && PixelsDone(cur, r, o, |line|, stride, n, x, x - i)
      invariant |row| == r && RowSoFar(out[..cur], above, row, n) && Undoes(f, row, prior, n, line)
      decreases i
    {
      ghost var p := x - i;
      NextPixelReady(above, cur, r, |line|, stride, n, x, p, first, prior);
      row := UnfilterPixelAlpha(out, cur, r, line, f, first, n, stride, prior, above, row);
      i, cur, r := i - 1, cur + (n + 1), r + n;
      assert x - i == p + 1;
    }
  }

  /** Positions in the buffer and in the row after p of x pixels. */
  ghost predicate PixelsDone(cur: nat, r: nat, o: nat, width: nat, stride: nat, n: nat, x: nat, p: nat) {
    1 <= p <= x && r == Times(p, n) && cur == o + Times(p, n + 1) && width == Times(x, n) && stride == Times(x, n + 1)
  }

  lemma NextPixelReady(above: seq<Byte>, cur: nat, r: nat, width: nat, stride: nat, n: nat, x: nat, p: nat,
      first: bool, prior: seq<Byte>)
    requires n > 0 && p < x && PixelsDone(cur, r, |above|, width, stride, n, x, p) &&
        PriorAlphaRow(above, x, n, first, prior)
    ensures n <= r && r + n <= width && n + 1 <= cur && cur + (n + 1) <= |above| + stride
    ensures PixelAbove(above, cur, stride, n, r, first, prior)
    ensures PixelAbove(above, cur - (n + 1), stride, n, r - n, first, prior)
    ensures PixelsDone(cur + (n + 1), r + n, |above|, width, stride, n, x, p + 1)
  {
    PixelAboveHolds(above, x, n, first, prior, p);
    PixelAboveHolds(above, x, n, first, prior, p - 1);
  }

  /** The first pixel and its alpha byte. */
  method UnfilterFirstAlpha(out: array<Byte>, o: nat, line: seq<Byte>, f: nat, first: bool, n: nat, stride: nat,
                            ghost prior: seq<Byte>, ghost above: seq<Byte>) returns (ghost row: seq<Byte>)
    requires f <= 4 && 0 < n <= |line| && n < stride && o + stride <= out.Length
    requires above == out[..o] && PixelAbove(above, o, stride, n, 0, first, prior)
    modifies out
    ensures |row| == n && Undoes(f, row, prior, n, line)
    ensures RowSoFar(out[..o + (n + 1)], above, row, n)
  {
    UnfilterFirstPixel(out, o, line, f, first, n, stride, prior);
    row := out[o..o + n];
    out[o + n] := 255;
    assert out[..o + (n + 1)] == above + (row + [255]);
    AddAlphaOne(row, n);
  }

  /** One pixel after the first. */
  method UnfilterPixelAlpha(out: array<Byte>, cur: nat, r: nat, line: seq<Byte>, f: nat, first: bool, n: nat,
      stride: nat,
                            ghost prior: seq<Byte>, ghost above: seq<Byte>, ghost row: seq<Byte>)
    returns (ghost row': seq<Byte>)
    requires f <= 4 && 0 < n <= r == |row| && r + n <= |line| && n + 1 <= cur && cur + n < out.Length
    requires PixelAbove(above, cur, stride, n, r, first, prior)
    requires PixelAbove(above, cur - (n + 1), stride, n, r - n, first, prior)
    requires RowSoFar(out[..cur], above, row, n) && Undoes(f, row, prior, n, line)
    modifies out
    ensures |row'| == |row| + n && Undoes(f, row', prior, n, line)
    ensures RowSoFar(out[..cur + n + 1], above, row', n)
  {
    ghost var start := out[..cur];
    row' := UnfilterChannels(out, cur, r, line, f, first, n, stride, prior, above, row, start);
    ghost var pixel := row'[r..];
    out[cur + n] := 255;
    assert row' == row + pixel;
    assert out[..cur + n + 1] == start + pixel + [255];
    AlphaPixelAdded(start, above, row, pixel, n);
  }

  lemma AlphaPixelAdded(start: seq<Byte>, above: seq<Byte>, row: seq<Byte>, pixel: seq<Byte>, n: nat)
    requires n > 0 && |pixel| == n && RowSoFar(start, above, row, n)
    ensures RowSoFar(start + pixel + [255], above, row + pixel, n)
  {
    AddAlphaSnoc(row, pixel, n);
    assert above + AddAlpha(row, n) + pixel + [255] == above + (AddAlpha(row, n) + pixel + [255]);
  }

  method UnfilterChannels(out: array<Byte>, cur: nat, r: nat, line: seq<Byte>, f: nat, first: bool, n: nat, stride: nat,
                          ghost prior: seq<Byte>, ghost above: seq<Byte>, ghost row: seq<Byte>, ghost start: seq<Byte>)
    returns (ghost row': seq<Byte>)
    requires f <= 4 && 0 < n <= r == |row| && r + n <= |line| && n + 1 <= cur == |start| && cur + n < out.Length
    requires PixelAbove(above, cur, stride, n, r, first, prior)
    requires PixelAbove(above, cur - (n + 1), stride, n, r - n, first, prior)
    requires start == out[..cur] && RowSoFar(start, above, row, n) && Undoes(f, row, prior, n, line)
    modifies out
    ensures out[..cur] == start && |row'| == |row| + n && row'[..r] == row && out[cur..cur + n] == row'[r..]
    ensures Undoes(f, row', prior, n, line)
  {
    row' := row;
    var k := 0;
    while k < n
      invariant k <= n && out[..cur] == start
      invariant |row'| == r + k && row'[..r] == row && out[cur..cur + k] == row'[r..]
      invariant Undoes(f, row', prior, n, line)
    {
      var v := NextByteAlpha(out, cur, r, k, line, f, first, n, stride, prior, above, row, row', start);
      out[cur + k] := v;
      row' := row' + [v];
      k := k + 1;
    }
  }

  /** Channel k of the pixel at cur. */
  method NextByteAlpha(out: array<Byte>, cur: nat, r: nat, k: nat, line: seq<Byte>, f: nat, first: bool, n: nat,
      stride: nat,
                       ghost prior: seq<Byte>, ghost above: seq<Byte>, ghost row: seq<Byte>, ghost row': seq<Byte>,
                       ghost start: seq<Byte>)
    returns (v: Byte)
    requires f <= 4 && k < n <= r == |row| && n + 1 <= cur == |start| < out.Length
    requires PixelAbove(above, cur, stride, n, r, first, prior)
    requires PixelAbove(above, cur - (n + 1), stride, n, r - n, first, prior)
    requires start == out[..cur] && RowSoFar(start, above, row, n)
    requires |row'| == r + k < |line| && row'[..r] == row && Undoes(f, row', prior, n, line)
    ensures Undoes(f, row' + [v], prior, n, line)
  {
    hide Undoes, AddAlpha;
    var kind := KindOf(f, first);
    AddAlphaLast(row, n, k);
    var left := out[cur + k - (n + 1)];
    assert left == start[cur + k - (n + 1)] == row[r + k - n] == row'[r + k - n];
    var up: Byte := if ReadsPrior(kind) then out[cur - stride + k] else 0;
    var upleft: Byte := if ReadsPrior(kind) then out[cur - (n + 1) - stride + k] else 0;
    ChannelAbove(above, cur, stride, n, r, first, prior, k);
    ChannelAbove(above, cur - (n + 1), stride, n, r - n, first, prior, k);
    assert Above(f, first, up, prior, r + k) && Above(f, first, upleft, prior, r + k - n);
    v := NextPixelByte(kind, line[r + k], left, up, upleft);
    NextPixelUndoes(f, first, row', prior, n, line, up, upleft);
  }

  lemma AddAlphaOne(pixel: seq<Byte>, n: nat)
    requires n > 0 && |pixel| == n
    ensures AddAlpha(pixel, n) == pixel + [255]
  {
    assert pixel[..0] == [] && pixel[0..] == pixel;
    assert AddAlpha([], n) == [];
  }

  lemma AddAlphaSnoc(row: seq<Byte>, pixel: seq<Byte>, n: nat)
    requires n > 0 && |pixel| == n
    ensures AddAlpha(row + pixel, n) == AddAlpha(row, n) + pixel + [255]
  {
    assert (row + pixel)[..|row|] == row && (row + pixel)[|row|..] == pixel;
  }

  lemma AddAlphaLast(row: seq<Byte>, n: nat, k: nat)
    requires n > 0 && |row| >= n && k < n
    ensures |AddAlpha(row, n)| >= n + 1
    ensures AddAlpha(row, n)[|AddAlpha(row, n)| - (n + 1) + k] == row[|row| - n + k]
  {
  }

  // ---------------------------------------------------------------- the whole image

  datatype PngError = NotEnoughPixels | InvalidFilter
  datatype Decoded = Pixels(bytes: array<Byte>) | Failed(error: PngError)

  /** Where row j starts in the encoded data of rows of the given width. */
  function LineStart(j: nat, width: nat): nat {
    Times(j, width + 1)
  }

  /** The filter types that precede the rows. */
  function FilterTypes(raw: seq<Byte>, j: nat, width: nat): (fs: seq<nat>)
    requires LineStart(j, width) <= |raw|
    ensures |fs| == j
  {
    if j == 0 then [] else FilterTypes(raw, j - 1, width) + [raw[LineStart(j - 1, width)]]
  }

  /** The data start with the encoding of an image of y rows. */
  ghost predicate Encoded(raw: seq<Byte>, fs: seq<nat>, rows: seq<seq<Byte>>, y: nat, width: nat, n: nat) {
    |fs| == |rows| == y && Filters(fs) && Image(rows, width) && EncodeRows(fs, rows, width, n) <= raw
  }

  /** raw starts with the encoding of the rows, and the buffer starts with their pixels. */
  ghost predicate RowsDone(buffer: seq<Byte>, raw: seq<Byte>, fs: seq<nat>, rows: seq<seq<Byte>>, width: nat,
      img_n: nat, out_n: nat)
    requires img_n > 0
  {
    |fs| == |rows| && Filters(fs) && Image(rows, width) && LineStart(|rows|, width) <= |raw| &&
    raw[..LineStart(|rows|, width)] == EncodeRows(fs, rows, width, img_n) &&
    buffer == Render(rows, img_n, out_n)
  }

  lemma RowDone(buffer: seq<Byte>, raw: seq<Byte>, fs: seq<nat>, rows: seq<seq<Byte>>, width: nat, img_n: nat,
      out_n: nat,
                row: seq<Byte>, after: seq<Byte>)
    requires img_n > 0 && RowsDone(buffer, raw, fs, rows, width, img_n, out_n)
    requires LineStart(|rows|, width) + (width + 1) <= |raw| && raw[LineStart(|rows|, width)] <= 4
    requires |row| == width
    requires Undoes(raw[LineStart(|rows|, width)], row, RowBefore(rows, width), img_n,
                    raw[LineStart(|rows|, width) + 1..LineStart(|rows|, width) + (width + 1)])
    requires after == buffer + Placed(row, img_n, out_n)
    ensures RowsDone(after, raw, fs + [raw[LineStart(|rows|, width)]], rows + [row], width, img_n, out_n)
  {
    var at := LineStart(|rows|, width);
    var f, line := raw[at], raw[at + 1..at + (width + 1)];
    assert FilterRow(f, row, RowBefore(rows, width), img_n) == line;
    var fs', rows' := fs + [f], rows + [row];
    assert fs'[..|rows|] == fs && rows'[..|rows|] == rows;
    assert raw[..at + (width + 1)] == raw[..at] + [f] + line;
  }

  /** stbi__create_png_image_raw for 8-bit channels. It fails exactly when data are missing or a filter
      type is above 4. Decoding inverts encoding: data that start with an encoded image give the
      pixels of that image, and every result is the only image that encodes to the data. */
  method CreateImageRaw(raw: seq<Byte>, img_n: nat, out_n: nat, x: nat, y: nat)
    returns (r: Decoded, ghost fs: seq<nat>, ghost rows: seq<seq<Byte>>)
    requires 1 <= img_n <= 4 && (out_n == img_n || out_n == img_n + 1) && x > 0
    ensures r == Failed(NotEnoughPixels) <==> |raw| < LineStart(y, Times(x, img_n))
    ensures r == Failed(InvalidFilter) <==>
              |raw| >= LineStart(y, Times(x, img_n)) && !Filters(FilterTypes(raw, y, Times(x, img_n)))
    ensures r.Pixels? ==>
        fresh(r.bytes) && |rows| == y && RowsDone(r.bytes[..], raw, fs, rows, Times(x, img_n), img_n, out_n)
    ensures forall fs': seq<nat>, rows': seq<seq<Byte>> | Encoded(raw, fs', rows', y, Times(x, img_n), img_n) ::
              r.Pixels? && rows' == rows && r.bytes[..] == Render(rows', img_n, out_n)
  {
    var width, stride, raw_len, out_len := Sizes(img_n, out_n, x, y);
    r, fs, rows := CreateSized(raw, img_n, out_n, x, y, width, stride, raw_len, out_len);
  }

  /** Bytes per row and per image, encoded and decoded. */
  method Sizes(img_n: nat, out_n: nat, x: nat, y: nat) returns (width: nat, stride: nat, raw_len: nat, out_len: nat)
    ensures width == Times(x, img_n) && stride == Times(x, out_n)
    ensures raw_len == LineStart(y, width) && out_len == Times(y, stride)
  {
    TimesIsProduct(x, img_n);
    TimesIsProduct(x, out_n);
    width, stride := x * img_n, x * out_n;
    TimesIsProduct(y, width + 1);
    TimesIsProduct(y, stride);
    raw_len, out_len := y * (width + 1), y * stride;
  }

  method CreateSized(raw: seq<Byte>, img_n: nat, out_n: nat, x: nat, y: nat, width: nat, stride: nat, raw_len: nat,
      out_len: nat)
    returns (r: Decoded, ghost fs: seq<nat>, ghost rows: seq<seq<Byte>>)
    requires img_n > 0 && (out_n == img_n || out_n == img_n + 1) && x > 0
    requires width == Times(x, img_n) && stride == Times(x, out_n)
    requires raw_len == LineStart(y, width) && out_len == Times(y, stride)
    ensures r == Failed(NotEnoughPixels) <==> |raw| < raw_len
    ensures r == Failed(InvalidFilter) <==> |raw| >= raw_len && !Filters(FilterTypes(raw, y, width))
    ensures r.Pixels? ==> fresh(r.bytes) && |rows| == y && RowsDone(r.bytes[..], raw, fs, rows, width, img_n, out_n)
    ensures forall fs': seq<nat>, rows': seq<seq<Byte>> | Encoded(raw, fs', rows', y, width, img_n) ::
              r.Pixels? && rows' == rows && r.bytes[..] == Render(rows', img_n, out_n)
  {
    fs, rows := [], [];
    EncodedIsComplete(raw, y, width, img_n);
    var out := new Byte[out_len](_ => 0);
    if |raw| < raw_len {
      return Failed(NotEnoughPixels), fs, rows;
    }
    var ok;
    ok, fs, rows := DecodeRows(out, raw, img_n, out_n, x, y, width, stride);
    if ok {
      OnlyThisImage(out[..], raw, fs, rows, width, img_n, out_n);
    }
    r := if ok then Pixels(out) else Failed(InvalidFilter);
  }

  method DecodeRows(out: array<Byte>, raw: seq<Byte>, img_n: nat, out_n: nat, x: nat, y: nat, width: nat, stride: nat)
    returns (ok: bool, ghost fs: seq<nat>, ghost rows: seq<seq<Byte>>)
    requires img_n > 0 && (out_n == img_n || out_n == img_n + 1) && x > 0
    requires width == Times(x, img_n) && stride == Times(x, out_n)
    requires out.Length == Times(y, stride) && LineStart(y, width) <= |raw|
    modifies out
    ensures ok <==> Filters(FilterTypes(raw, y, width))
    ensures ok ==> |rows| == y && RowsDone(out[..], raw, fs, rows, width, img_n, out_n)
  {
    hide *;
    fs, rows := [], [];
    var j: nat, cur: nat, at: nat := 0, 0, 0;
    NoRows(out[..0], raw, width, stride, img_n, out_n);
    while j < y
      invariant j <= y && |rows| == j && AtRow(j, at, cur, width, stride)
      invariant cur <= out.Length && RowsDone(out[..cur], raw, fs, rows, width, img_n, out_n)
      invariant at == LineStart(j, width) && at <= |raw| && fs == FilterTypes(raw, j, width)
    {
      NextRow(j, y, at, cur, width, stride);
      MoreTypes(raw, j, y, at, cur, width, stride);
      var f := raw[at];
      if f > 4 {
        return false, fs, rows;
      }
      fs, rows := DecodeRow(out, raw, img_n, out_n, x, j, at, cur, width, stride, fs, rows);
      j, cur, at := j + 1, cur + stride, at + (width + 1);
    }
    LastRow(out[..], raw, y, at, cur, width, stride, img_n, out_n, fs, rows);
    assert out[..cur] == out[..];
    return true, fs, rows;
  }

  lemma NoRows(none: seq<Byte>, raw: seq<Byte>, width: nat, stride: nat, img_n: nat, out_n: nat)
    requires none == [] && img_n > 0
    ensures AtRow(0, 0, 0, width, stride) && RowsDone(none, raw, [], [], width, img_n, out_n)
    ensures LineStart(0, width) == 0 && FilterTypes(raw, 0, width) == []
  {
  }

  /** The filter type of the next row. */
  lemma MoreTypes(raw: seq<Byte>, j: nat, y: nat, at: nat, cur: nat, width: nat, stride: nat)
    requires j < y && AtRow(j, at, cur, width, stride) && LineStart(y, width) <= |raw|
    ensures at == LineStart(j, width) && at + (width + 1) == LineStart(j + 1, width) <= |raw|
    ensures FilterTypes(raw, j + 1, width) == FilterTypes(raw, j, width) + [raw[at]]
    ensures raw[at] > 4 ==> !Filters(FilterTypes(raw, y, width))
  {
    NextRow(j, y, at, cur, width, stride);
    if raw[at] > 4 { FilterTypesHas(raw, j, y, width); }
  }

  lemma LastRow(buffer: seq<Byte>, raw: seq<Byte>, y: nat, at: nat, cur: nat, width: nat, stride: nat, img_n: nat,
      out_n: nat,
                fs: seq<nat>, rows: seq<seq<Byte>>)
    requires AtRow(y, at, cur, width, stride) && |buffer| == Times(y, stride) && |rows| == y &&
        LineStart(y, width) <= |raw|
    requires cur <= |buffer| && img_n > 0 && RowsDone(buffer[..cur], raw, fs, rows, width, img_n, out_n)
    requires fs == FilterTypes(raw, y, width)
    ensures cur == |buffer| && Filters(FilterTypes(raw, y, width))
  {
  }

  /** Row j of the image. */
  method DecodeRow(out: array<Byte>, raw: seq<Byte>, img_n: nat, out_n: nat, x: nat, j: nat, at: nat, cur: nat,
      width: nat, stride: nat,
                   ghost fs: seq<nat>, ghost rows: seq<seq<Byte>>) returns (ghost fs': seq<nat>,
                       ghost rows': seq<seq<Byte>>)
    requires img_n > 0 && (out_n == img_n || out_n == img_n + 1) && x > 0
    requires width == Times(x, img_n) && stride == Times(x, out_n)
    requires |rows| == j && at == LineStart(j, width) && at + (width + 1) <= |raw| && cur + stride <= out.Length
    requires raw[at] <= 4 && RowsDone(out[..cur], raw, fs, rows, width, img_n, out_n)
    modifies out
    ensures fs' == fs + [raw[at]] && |rows'| == j + 1
    ensures RowsDone(out[..cur + stride], raw, fs', rows', width, img_n, out_n)
  {
    ghost var before := out[..cur];
    ghost var row := UnfilterLine(out, cur, raw[at + 1..at + (width + 1)], raw[at], j == 0, img_n, out_n, x, stride,
        rows);
    RowDone(before, raw, fs, rows, width, img_n, out_n, row, out[..cur + stride]);
    fs', rows' := fs + [raw[at]], rows + [row];
  }

  /** One row, with or without an added alpha channel. */
  method UnfilterLine(out: array<Byte>, cur: nat, line: seq<Byte>, f: nat, first: bool, img_n: nat, out_n: nat,
      x: nat, stride: nat,
                      ghost rows: seq<seq<Byte>>) returns (ghost row: seq<Byte>)
    requires f <= 4 && img_n > 0 && (out_n == img_n || out_n == img_n + 1) && x > 0
    requires |line| == Times(x, img_n) && stride == Times(x, out_n) && cur + stride <= out.Length
    requires Image(rows, |line|) && out[..cur] == Render(rows, img_n, out_n) && first == (rows == [])
    modifies out
    ensures |row| == |line| && Undoes(f, row, RowBefore(rows, |line|), img_n, line)
    ensures out[..cur + stride] == old(out[..cur]) + Placed(row, img_n, out_n)
  {
    hide Undoes, Render, RowBefore;
    ghost var above, prior := out[..cur], RowBefore(rows, |line|);
    RenderEndsWithPrior(rows, |line|, img_n, out_n, x);
    if img_n == out_n {
      TimesIsProduct(x, img_n);
      UnfilterRow(out, cur, line, f, first, img_n, x, prior);
      row := out[cur..cur + stride];
      assert out[..cur + stride] == above + row;
    } else {
      row := UnfilterRowAlpha(out, cur, line, f, first, img_n, x, stride, prior);
    }
  }

  /** The buffer ends with the row above. */
  lemma RenderEndsWithPrior(rows: seq<seq<Byte>>, width: nat, img_n: nat, out_n: nat, x: nat)
    requires img_n > 0 && (out_n == img_n || out_n == img_n + 1) && width == Times(x, img_n) && Image(rows, width)
    ensures |RowBefore(rows, width)| == width && (rows == [] ==> RowBefore(rows, width) == Zeros(width))
    ensures rows != [] ==> |Render(rows, img_n, out_n)| >= Times(x, out_n)
    ensures rows != [] ==> Render(rows, img_n, out_n)[|Render(rows, img_n, out_n)| - Times(x, out_n)..] ==
                           Placed(RowBefore(rows, width), img_n, out_n)
  {
    if rows != [] {
      var last := rows[|rows| - 1];
      if out_n != img_n { AddAlphaSize(last, img_n, x); }
      assert |Placed(last, img_n, out_n)| == Times(x, out_n);
    }
  }

  /** Positions in the data and in the buffer at the start of row j. */
  ghost predicate AtRow(j: nat, at: nat, cur: nat, width: nat, stride: nat) {
    at == LineStart(j, width) && cur == Times(j, stride)
  }

  lemma NextRow(j: nat, y: nat, at: nat, cur: nat, width: nat, stride: nat)
    requires j < y && AtRow(j, at, cur, width, stride)
    ensures AtRow(j + 1, at + (width + 1), cur + stride, width, stride)
    ensures at + (width + 1) <= LineStart(y, width) && cur + stride <= Times(y, stride)
  {
    TimesMono(j + 1, y, width + 1);
    TimesMono(j + 1, y, stride);
  }

  lemma OnlyThisImage(buffer: seq<Byte>, raw: seq<Byte>, fs: seq<nat>, rows: seq<seq<Byte>>, width: nat, img_n: nat,
      out_n: nat)
    requires img_n > 0 && RowsDone(buffer, raw, fs, rows, width, img_n, out_n)
    ensures forall fs': seq<nat>, rows': seq<seq<Byte>> | Encoded(raw, fs', rows', |rows|, width, img_n) ::
        rows' == rows
  {
    forall fs': seq<nat>, rows': seq<seq<Byte>> | Encoded(raw, fs', rows', |rows|, width, img_n)
      ensures rows' == rows
    {
      EncodeRowsSize(fs', rows', width, img_n);
      EncodeRowsSize(fs, rows, width, img_n);
      EncodeRowsInjective(fs, rows, fs', rows', width, img_n);
    }
  }

  /** Encoded data are long enough and have valid filter types. */
  lemma EncodedIsComplete(raw: seq<Byte>, y: nat, width: nat, n: nat)
    ensures forall fs: seq<nat>, rows: seq<seq<Byte>> | Encoded(raw, fs, rows, y, width, n) ::
              LineStart(y, width) <= |raw| && Filters(FilterTypes(raw, y, width))
  {
    forall fs: seq<nat>, rows: seq<seq<Byte>> | Encoded(raw, fs, rows, y, width, n)
      ensures LineStart(y, width) <= |raw| && Filters(FilterTypes(raw, y, width))
    {
      TypesOfEncoded(raw, fs, rows, width, n);
    }
  }

  lemma {:induction false} TypesOfEncoded(raw: seq<Byte>, fs: seq<nat>, rows: seq<seq<Byte>>, width: nat, n: nat)
    requires Encoded(raw, fs, rows, |rows|, width, n)
    ensures |EncodeRows(fs, rows, width, n)| == LineStart(|rows|, width) <= |raw|
    ensures FilterTypes(raw, |rows|, width) == fs
  {
    if rows == [] {
    } else {
      var m := |rows| - 1;
      var e := EncodeRows(fs, rows, width, n);
      var e' := EncodeRows(fs[..m], rows[..m], width, n);
      LastTypeByte(fs, rows, width, n);
      assert e' <= e;
      TypesOfEncoded(raw, fs[..m], rows[..m], width, n);
      assert raw[|e'|] == e[|e'|];
      assert fs == fs[..m] + [fs[m]];
    }
  }

  lemma LastTypeByte(fs: seq<nat>, rows: seq<seq<Byte>>, width: nat, n: nat)
    requires |fs| == |rows| > 0 && Filters(fs) && Image(rows, width)
    ensures var m, e, e' := |rows| - 1, EncodeRows(fs, rows, width, n),
        EncodeRows(fs[..|rows| - 1], rows[..|rows| - 1], width, n);
      |e'| < |e| == |e'| + (width + 1) && e[|e'|] == fs[m] && e' <= e
  {
  }

  lemma {:induction false} FilterTypesHas(raw: seq<Byte>, j: nat, y: nat, width: nat)
    requires j < y && LineStart(y, width) <= |raw|
    ensures LineStart(j, width) < |raw| && FilterTypes(raw, y, width)[j] == raw[LineStart(j, width)]
  {
    TimesMono(j, y, width + 1);
    if j < y - 1 { FilterTypesHas(raw, j, y - 1, width); }
  }
}

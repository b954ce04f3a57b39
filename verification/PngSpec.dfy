/**
Filtering, samples and interlacing of PNG images: sections 9.2, 9.4, 7.2 and 8.2 of the PNG
specification (ISO/IEC 15948).
 */
module PngSpec {
  import opened Arithmetic
  import opened Bits
  import opened Wrappers

  type Row = seq<Byte>

  // ---- filters (9.2, 9.4) ----

  function Abs(x: int): nat {
    if x < 0 then -x else x
  }

  /** The predictor of section 9.4: whichever of the neighbours is nearest to their sum. */
  function PaethPredictor(a: int, b: int, c: int): int {
    var p := a + b - c;
    var pa, pb, pc := Abs(p - a), Abs(p - b), Abs(p - c);
    if pa <= pb && pa <= pc then a else if pb <= pc then b else c
  }

  /** What filter `t` predicts from the bytes to the left, above, and above to the left. */
  function Predicted(t: nat, a: Byte, b: Byte, c: Byte): int {
    if t == 1 then a
    else if t == 2 then b
    else if t == 3 then (a + b) / 2
    else if t == 4 then PaethPredictor(a, b, c)
    else 0
  }

  /** The byte `bpp` before byte `k`, zero at the beginning of a row. */
  function Left(row: Row, bpp: nat, k: nat): Byte {
    if bpp <= k <= |row| + bpp && k - bpp < |row| then row[k - bpp] else 0
  }

  function Filtered(t: nat, row: Row, prior: Row, bpp: nat): (r: Row)
    requires |prior| == |row|
    ensures |r| == |row|
  {
    seq(|row|, k requires 0 <= k < |row| =>
      ((row[k] - Predicted(t, Left(row, bpp, k), prior[k], Left(prior, bpp, k))) % 256) as Byte)
  }

  /** `row` is the reconstruction of the filtered bytes `raw`. */
  ghost predicate Reconstructed(t: nat, raw: Row, prior: Row, bpp: nat, row: Row) {
    && |row| == |raw| == |prior|
    && forall k :: 0 <= k < |row| ==>
         row[k] == (raw[k] + Predicted(t, Left(row, bpp, k), prior[k], Left(prior, bpp, k))) % 256
  }

  lemma ModBack(x: Byte, p: int)
    ensures ((x - p) % 256 + p) % 256 == x
  {
    var q := (x - p) / 256;
    assert x - p == 256 * q + (x - p) % 256;
    assert (x - p) % 256 + p == x - 256 * q;
    AddMultiple(x, -q);
  }

  lemma AddMultiple(x: Byte, q: int)
    ensures (x + 256 * q) % 256 == x
  {
  }

  /** A row is the only reconstruction of what filtering has made of it. */
  lemma {:induction false} ReconstructionUnique(t: nat, row: Row, prior: Row, bpp: nat, r: Row, k: nat)
    requires bpp > 0 && |prior| == |row| && Reconstructed(t, Filtered(t, row, prior, bpp), prior, bpp, r) && k <= |row|
    ensures |r| == |row| && r[..k] == row[..k]
    decreases k
  {
    hide *;
    ReconstructedSizes(t, Filtered(t, row, prior, bpp), prior, bpp, r);
    if k > 0 {
      ReconstructionUnique(t, row, prior, bpp, r, k - 1);
      var i := k - 1;
      SameLeft(r, row, bpp, i);
      ByteBack(t, row, prior, bpp, r, i);
      assert r[..k] == r[..k - 1] + [r[i]] && row[..k] == row[..k - 1] + [row[i]];
    }
  }

  lemma ReconstructedSizes(t: nat, raw: Row, prior: Row, bpp: nat, row: Row)
    requires Reconstructed(t, raw, prior, bpp, row)
    ensures |row| == |raw| == |prior|
  {
  }

  lemma SameLeft(r: Row, row: Row, bpp: nat, i: nat)
    requires bpp > 0 && i < |r| == |row| && r[..i] == row[..i]
    ensures Left(r, bpp, i) == Left(row, bpp, i)
  {
    if bpp <= i { assert r[..i][i - bpp] == row[..i][i - bpp]; }
  }

  lemma ByteBack(t: nat, row: Row, prior: Row, bpp: nat, r: Row, i: nat)
    requires |prior| == |row| == |r| && Reconstructed(t, Filtered(t, row, prior, bpp), prior, bpp, r) && i < |row|
    requires Left(r, bpp, i) == Left(row, bpp, i)
    ensures r[i] == row[i]
  {
    hide Predicted, Left;
    ModBack(row[i], Predicted(t, Left(row, bpp, i), prior[i], Left(prior, bpp, i)));
  }

  // ---- whole images ----

  /** The row above row `j`; above the first there is a row of zeros. */
  function Above(rows: seq<Row>, j: nat, n: nat): Row
    requires j <= |rows|
  {
    if j == 0 then seq(n, _ => 0) else rows[j - 1]
  }

  /** The rows in order, each with its filter type before it. */
  function FilteredImage(types: seq<nat>, rows: seq<Row>, bpp: nat, n: nat): (r: seq<Byte>)
    requires |types| == |rows| && (forall j :: 0 <= j < |rows| ==> |rows[j]| == n && types[j] < 256)
    ensures |r| == (n + 1) * |rows|
    decreases |rows|
  {
    if rows == [] then []
    else
      var j := |rows| - 1;
      RowSpace(n, j);
      FilteredImage(types[..j], rows[..j], bpp, n) + [types[j]] + Filtered(types[j], rows[j], Above(rows, j, n), bpp)
  }

  /** The filtered bytes of row `j`. */
  function RawRow(raw: seq<Byte>, n: nat, j: nat): Row {
    if (n + 1) * j + 1 + n <= |raw| then raw[(n + 1) * j + 1..(n + 1) * j + 1 + n] else []
  }

  function TypeOf(raw: seq<Byte>, n: nat, j: nat): nat {
    if (n + 1) * j < |raw| then raw[(n + 1) * j] else 0
  }

  /** `rows` are the first rows of the image that `raw` holds. */
  ghost predicate ImageRows(raw: seq<Byte>, n: nat, bpp: nat, rows: seq<Row>) {
    forall j: nat :: j < |rows| ==> Reconstructed(TypeOf(raw, n, j), RawRow(raw, n, j), Above(rows, j, n), bpp, rows[j])
  }

  /** One more row at the end does not change what the others are. */
  lemma RowsBefore(raw: seq<Byte>, more: seq<Byte>, n: nat, rows: nat, j: nat)
    requires raw <= more && |raw| == (n + 1) * rows && j < rows
    ensures RawRow(more, n, j) == RawRow(raw, n, j) && TypeOf(more, n, j) == TypeOf(raw, n, j)
  {
    RowSpace(n, j);
    RowsFit(n, j + 1, rows);
  }

  lemma RowsFit(n: nat, j: nat, rows: nat)
    requires j <= rows
    ensures (n + 1) * j <= (n + 1) * rows
  {
  }

  lemma RowAtEnd(raw: seq<Byte>, n: nat, rows: nat, t: Byte, row: Row)
    requires |raw| == (n + 1) * rows && |row| == n
    ensures RawRow(raw + [t] + row, n, rows) == row && TypeOf(raw + [t] + row, n, rows) == t
  {
    var more := raw + [t] + row;
    assert more[|raw|] == t && more[|raw| + 1..|raw| + 1 + n] == row;
  }

  lemma FilteredPrefix(types: seq<nat>, rows: seq<Row>, bpp: nat, n: nat, j: nat)
    requires |types| == |rows| && (forall i :: 0 <= i < |rows| ==> |rows[i]| == n && types[i] < 256) && j < |rows|
    requires |Above(rows, j, n)| == n
    ensures TypeOf(FilteredImage(types, rows, bpp, n), n, j) == types[j]
    ensures RawRow(FilteredImage(types, rows, bpp, n), n, j) == Filtered(types[j], rows[j], Above(rows, j, n), bpp)
    decreases |rows|
  {
    hide Filtered, RawRow, TypeOf, Above;
    var last := |rows| - 1;
    var init := FilteredImage(types[..last], rows[..last], bpp, n);
    var raw := FilteredImage(types, rows, bpp, n);
    AboveLength(rows, last, n);
    var end := Filtered(types[last], rows[last], Above(rows, last, n), bpp);
    if j < last {
      AboveSame(rows, rows[..last], j, n);
      FilteredPrefix(types[..last], rows[..last], bpp, n, j);
      RowsBefore(init, raw, n, last, j);
    } else {
      RowAtEnd(init, n, last, types[last], end);
    }
  }

  lemma AboveLength(rows: seq<Row>, j: nat, n: nat)
    requires j <= |rows| && forall i :: 0 <= i < |rows| ==> |rows[i]| == n
    ensures |Above(rows, j, n)| == n
  {
  }

  lemma AboveSame(rows: seq<Row>, others: seq<Row>, j: nat, n: nat)
    requires j <= |rows| && j <= |others| && rows[..j] == others[..j]
    ensures Above(rows, j, n) == Above(others, j, n)
  {
    if j > 0 { assert rows[..j][j - 1] == others[..j][j - 1]; }
  }

  lemma RowSpace(n: nat, j: nat)
    ensures (n + 1) * (j + 1) == (n + 1) * j + n + 1
  {
  }

  /** Decoding inverts filtering, whatever filter every row has. */
  lemma {:induction false} UnfilteringInverts(types: seq<nat>, rows: seq<Row>, bpp: nat, n: nat, decoded: seq<Row>,
      j: nat)
    requires |types| == |rows| == |decoded| && j <= |rows| && bpp > 0
    requires forall i :: 0 <= i < |rows| ==> |rows[i]| == n && types[i] < 256
    requires ImageRows(FilteredImage(types, rows, bpp, n), n, bpp, decoded)
    ensures decoded[..j] == rows[..j]
    decreases j
  {
    hide *;
    if j > 0 {
      var i := j - 1;
      UnfilteringInverts(types, rows, bpp, n, decoded, i);
      AboveLength(rows, i, n);
      FilteredPrefix(types, rows, bpp, n, i);
      AboveSame(decoded, rows, i, n);
      RowOf(FilteredImage(types, rows, bpp, n), n, bpp, decoded, i);
      ReconstructionUnique(types[i], rows[i], Above(rows, i, n), bpp, decoded[i], n);
      assert decoded[i][..n] == decoded[i] && rows[i][..n] == rows[i];
      assert decoded[..j] == decoded[..i] + [decoded[i]] && rows[..j] == rows[..i] + [rows[i]];
    }
  }

  lemma RowOf(raw: seq<Byte>, n: nat, bpp: nat, rows: seq<Row>, j: nat)
    requires ImageRows(raw, n, bpp, rows) && j < |rows|
    ensures Reconstructed(TypeOf(raw, n, j), RawRow(raw, n, j), Above(rows, j, n), bpp, rows[j])
    ensures |rows[j]| == |Above(rows, j, n)|
  {
    hide RawRow, TypeOf, Above;
  }

  // ---- samples (7.2) ----

  /** How many bytes a row takes. */
  function RowBytes(channels: nat, width: nat, depth: nat): nat {
    (channels * width * depth + 7) / 8
  }

  /** Sample `k` of a row: 16 bits with the high byte first, a byte, or a few bits with the leftmost
      sample in the high bits. */
  function Sample(row: Row, depth: nat, k: nat): nat {
    if depth == 16 then if 2 * k + 1 < |row| then row[2 * k] as nat * 256 + row[2 * k + 1] else 0
    else if depth == 8 then if k < |row| then row[k] else 0
    else PackedSample(row, depth, k)
  }

  function PackedSample(row: Row, depth: nat, k: nat): nat {
    var per := if depth == 4 then 2 else if depth == 2 then 4 else 8;
    if k / per < |row| && (k % per + 1) * depth <= 8 then Low(Shr(row[k / per], 8 - (k % per + 1) * depth), depth)
    else 0
  }

  /** Grey samples of less than 8 bits are scaled to the full range. */
  function Shown(row: Row, depth: nat, grey: bool, k: nat): nat {
    if depth < 8 && grey then Sample(row, depth, k) * (255 / Largest(depth)) else Sample(row, depth, k)
  }

  function Largest(depth: nat): (m: nat)
    ensures m > 0
  {
    if depth == 1 then 1 else if depth == 2 then 3 else if depth == 4 then 15 else if depth == 8 then 255 else 65535
  }

  /** The first `count` samples of a row. */
  function Samples(row: Row, count: nat, depth: nat, grey: bool): (r: seq<nat>)
    ensures |r| == count
  {
    seq(count, k requires 0 <= k < count => Shown(row, depth, grey, k))
  }

  /** The samples `s` of one or three channels with a sample `alpha` after every pixel. */
  function Spread(s: seq<nat>, width: nat, channels: nat, alpha: nat): (r: seq<nat>)
    requires (channels == 1 && |s| == width) || (channels == 3 && |s| == 3 * width)
    ensures |r| == width * (channels + 1)
  {
    if channels == 1 then seq(2 * width, k requires 0 <= k < 2 * width => if k % 2 == 1 then alpha else s[k / 2])
    else seq(4 * width, k requires 0 <= k < 4 * width => if k % 4 == 3 then alpha else s[k / 4 * 3 + k % 4])
  }

  /** A row of `width` pixels as it is put out: its samples, with an opaque alpha sample after every pixel if one more
      channel is wanted than there is. */
  function ShownRow(row: Row, width: nat, channels: nat, wanted: nat, depth: nat, grey: bool): (r: seq<nat>)
    requires wanted == channels || (wanted == channels + 1 && (channels == 1 || channels == 3))
    ensures |r| == width * wanted
  {
    var samples := Samples(row, width * channels, depth, grey);
    if wanted == channels then samples else Spread(samples, width, channels, if depth == 16 then 0xFFFF else 255)
  }

  // ---- interlacing (8.2) ----

  /** The first column and row of every pass, and how far apart its columns and rows are. */
  function PassX(p: nat): nat {
    if p == 1 then 4 else if p == 3 then 2 else if p == 5 then 1 else 0
  }

  function PassY(p: nat): nat {
    if p == 2 then 4 else if p == 4 then 2 else if p == 6 then 1 else 0
  }

  function StepX(p: nat): nat {
    if p < 2 then 8 else if p < 4 then 4 else if p < 6 then 2 else 1
  }

  function StepY(p: nat): nat {
    if p < 3 then 8 else if p < 5 then 4 else 2
  }

  /** The size of a pass: as many columns and rows as there are from its first one on. */
  function PassWidth(p: nat, width: nat): nat {
    if width <= PassX(p) then 0 else (width - PassX(p) + StepX(p) - 1) / StepX(p)
  }

  function PassHeight(p: nat, height: nat): nat {
    if height <= PassY(p) then 0 else (height - PassY(p) + StepY(p) - 1) / StepY(p)
  }

  /** The pass of the pixel in row `r` and column `c`: the pattern of eight by eight pixels in section 8.2. */
  function PassOf(r: nat, c: nat): (p: nat)
    ensures p < 7
  {
    if r % 2 == 1 then 6
    else if c % 2 == 1 then 5
    else if r % 4 == 2 then 4
    else if c % 4 == 2 then 3
    else if r % 8 == 4 then 2
    else if c % 8 == 4 then 1
    else 0
  }

  predicate OnGrid(p: nat, r: nat, c: nat) {
    OnLine(r, PassY(p), StepY(p)) && OnLine(c, PassX(p), StepX(p))
  }

  /** `x` is a number of steps from `start`. */
  predicate OnLine(x: nat, start: nat, step: nat) {
    step > 0 && x >= start && (x - start) % step == 0
  }

  /** The pattern by the position in a block of eight by eight. */
  predicate InPattern(p: nat, r: nat, c: nat) {
    match p
    case 0 => r % 8 == 0 && c % 8 == 0
    case 1 => r % 8 == 0 && c % 8 == 4
    case 2 => r % 8 == 4 && c % 4 == 0
    case 3 => r % 4 == 0 && c % 4 == 2
    case 4 => r % 4 == 2 && c % 2 == 0
    case 5 => r % 2 == 0 && c % 2 == 1
    case 6 => r % 2 == 1
    case _ => false
  }

  lemma OnLineIs(x: nat, start: nat, step: nat)
    requires start < step
    ensures OnLine(x, start, step) <==> x % step == start
  {
    if OnLine(x, start, step) {
      DivMod((x - start) / step, start, step);
      QuotientRemainder(x - start, step);
    }
    if x % step == start {
      QuotientRemainder(x, step);
      DivMod(x / step, 0, step);
    }
  }

  lemma GridPattern(p: nat, r: nat, c: nat)
    requires p < 7
    ensures OnGrid(p, r, c) <==> InPattern(p, r, c)
  {
    hide OnLine;
    OnLineIs(r, PassY(p), StepY(p));
    OnLineIs(c, PassX(p), StepX(p));
  }

  lemma PassPattern(p: nat, r: nat, c: nat)
    requires p < 7
    ensures PassOf(r, c) == p <==> InPattern(p, r, c)
  {
    Residues(r);
    Residues(c);
  }

  lemma Residues(x: nat)
    ensures x % 2 == x % 8 % 2 && x % 4 == x % 8 % 4
  {
  }

  /** The grids of the passes do not overlap and leave nothing out: a pixel is on the grid of its pass only. */
  lemma GridOfPass(p: nat, r: nat, c: nat)
    requires p < 7
    ensures OnGrid(p, r, c) <==> PassOf(r, c) == p
  {
    hide *;
    GridPattern(p, r, c);
    PassPattern(p, r, c);
  }

  /** The row and column of a pass that row `r` and column `c` of the image belong to. */
  function GridRow(p: nat, r: nat): nat {
    if r < PassY(p) then 0 else (r - PassY(p)) / StepY(p)
  }

  function GridColumn(p: nat, c: nat): nat {
    if c < PassX(p) then 0 else (c - PassX(p)) / StepX(p)
  }

  /** Which pixel of pass `p` is pixel `q` of an image, if it is one of them; both are counted row by row. */
  function Number(width: nat, p: nat, q: nat): Option<nat> {
    if width > 0 && PassOf(q / width, q % width) == p
      then Some(Times(GridRow(p, q / width), PassWidth(p, width)) + GridColumn(p, q % width)) else None
  }

  /** Where sample `ch` of pixel `q` is. */
  function Flat(q: nat, n: nat, ch: nat): nat {
    q * n + ch
  }

  /** Sample `at` of `s`, or zero. */
  function SampleAt(s: seq<nat>, at: nat): nat {
    if at < |s| then s[at] else 0
  }

  /** `pass` holds the pixels of pass `p` of image `image`, each of `n` samples. */
  ghost predicate IsPass(image: seq<nat>, width: nat, height: nat, n: nat, p: nat, pass: seq<nat>) {
    forall q: nat :: q < width * height && Number(width, p, q).Some? ==>
                       SamePixel(image, q, pass, Number(width, p, q).value, n)
  }

  ghost predicate SamePixel(image: seq<nat>, q: nat, other: seq<nat>, m: nat, n: nat) {
    forall ch: nat :: ch < n ==> SampleAt(image, Flat(q, n, ch)) == SampleAt(other, Flat(m, n, ch))
  }

  lemma EveryPixelHasANumber(width: nat, q: nat)
    requires width > 0
    ensures Number(width, PassOf(q / width, q % width), q).Some?
  {
  }

  /** An image is known by its passes: de-interlacing inverts interlacing. */
  lemma PassesDetermine(image: seq<nat>, other: seq<nat>, width: nat, height: nat, n: nat, passes: seq<seq<nat>>)
    requires |image| == |other| == width * height * n && |passes| == 7
    requires forall p :: 0 <= p < 7 ==>
                           IsPass(image, width, height, n, p, passes[p])
                           && IsPass(other, width, height, n, p, passes[p])
    ensures image == other
  {
    hide *;
    forall k | 0 <= k < |image| ensures image[k] == other[k] {
      SamplePlace(width * height, n, k);
      var q, ch := k / n, k % n;
      PixelPlace(width, height, q);
      EveryPixelHasANumber(width, q);
      var p := PassOf(q / width, q % width);
      SampleOfPass(image, width, height, n, p, passes[p], q, ch);
      SampleOfPass(other, width, height, n, p, passes[p], q, ch);
    }
  }

  /** Sample `ch` of pixel `q` of an image is one of its pass. */
  lemma SampleOfPass(image: seq<nat>, width: nat, height: nat, n: nat, p: nat, pass: seq<nat>, q: nat, ch: nat)
    requires IsPass(image, width, height, n, p, pass) && q < width * height && ch < n && Number(width, p, q).Some?
    requires q * n + ch < |image|
    ensures image[q * n + ch] == SampleAt(pass, Flat(Number(width, p, q).value, n, ch))
  {
    hide Number;
    assert SamePixel(image, q, pass, Number(width, p, q).value, n);
    assert SampleAt(image, Flat(q, n, ch)) == SampleAt(pass, Flat(Number(width, p, q).value, n, ch));
  }

  lemma SamplePlace(size: nat, n: nat, k: nat)
    requires k < size * n
    ensures n > 0 && k / n < size && k == k / n * n + k % n && k % n < n
  {
    if k / n >= size { assert k / n * n >= size * n by { MulMonotone(size, k / n, n); } }
  }

  lemma PixelPlace(width: nat, height: nat, q: nat)
    requires q < width * height
    ensures width > 0 && q / width < height && q % width < width
  {
    assert q < height * width;
    SamplePlace(height, width, q);
  }

  /** The distance of the neighbours that filters look at, in bytes. */
  function Bpp(channels: nat, depth: nat): nat {
    if depth < 8 then 1 else if depth == 16 then 2 * channels else channels
  }

  /** An image that cannot be decoded: bytes are missing or a filter type does not exist. */
  ghost predicate Undecodable(data: seq<Byte>, channels: nat, width: nat, height: nat, depth: nat) {
    var n := RowBytes(channels, width, depth);
    |data| < (n + 1) * height || exists j: nat :: j < height && TypeOf(data, n, j) > 4
  }

  /** Row `j` of the output shows row `j` of the image. */
  ghost predicate RowShown(out: seq<nat>, j: nat, row: Row, width: nat, channels: nat, wanted: nat, depth: nat,
      grey: bool)
    requires wanted == channels || (wanted == channels + 1 && (channels == 1 || channels == 3))
  {
    var stride := width * wanted;
    stride * j + stride <= |out| && out[stride * j..stride * j + stride]
    == ShownRow(row, width, channels, wanted, depth, grey)
  }

  ghost predicate ImageShown(out: seq<nat>, rows: seq<Row>, width: nat, channels: nat, wanted: nat, depth: nat,
      grey: bool)
    requires wanted == channels || (wanted == channels + 1 && (channels == 1 || channels == 3))
  {
    forall j: nat :: j < |rows| ==> RowShown(out, j, rows[j], width, channels, wanted, depth, grey)
  }

  /** `out` shows the image that the bytes `data` hold. */
  ghost predicate Decoded(data: seq<Byte>, channels: nat, wanted: nat, width: nat, height: nat, depth: nat, grey: bool,
                          rows: seq<Row>, out: seq<nat>)
    requires wanted == channels || (wanted == channels + 1 && (channels == 1 || channels == 3))
  {
    && |rows| == height && |out| == width * wanted * height
    && !Undecodable(data, channels, width, height, depth)
    && ImageRows(data, RowBytes(channels, width, depth), Bpp(channels, depth), rows)
    && ImageShown(out, rows, width, channels, wanted, depth, grey)
  }

  /** The bytes that pass `p` takes; a pass without pixels takes none. */
  function PassBytes(channels: nat, width: nat, height: nat, depth: nat, p: nat): nat {
    if PassWidth(p, width) == 0 || PassHeight(p, height) == 0 then 0
    else (RowBytes(channels, PassWidth(p, width), depth) + 1) * PassHeight(p, height)
  }

  /** Where the bytes of pass `p` begin. */
  function PassStart(channels: nat, width: nat, height: nat, depth: nat, p: nat): nat {
    if p == 0 then 0 else PassStart(channels, width, height, depth, p - 1) + PassBytes(channels, width, height, depth,
            p - 1)
  }
}

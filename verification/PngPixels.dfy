/**
What a decoded image is, pixel by pixel: every byte of a sample is the byte in the data and what its filter type says of
the same byte of the pixels to the left, above, and above to the left. Here nothing is taken from the definitions that
the decoder works with.
 */
module PngPixels {
  import opened Arithmetic
  import opened Bits
  import opened Wrappers
  import opened PngSpec
  import opened Png
  import opened PngEncode

  // ---- undoing a filter ----

  /** Of the three neighbours, `p` is nearest to `a + b - c`; the left one comes before the upper one, and that before
      the other. */
  predicate Nearest(p: int, a: int, b: int, c: int) {
    var da, db, dc := Distance(a, a + b - c), Distance(b, a + b - c), Distance(c, a + b - c);
    || (p == a && da <= db && da <= dc)
    || (p == b && db < da && db <= dc)
    || (p == c && dc < da && dc < db)
  }

  function Distance(x: int, y: int): nat {
    if x < y then y - x else x - y
  }

  /** Filter type `t` undone: `raw` stands for `v` beside `left`, `above` and `corner`. */
  ghost predicate Undone(t: nat, raw: nat, left: nat, above: nat, corner: nat, v: nat) {
    match t
    case 0 => v == raw
    case 1 => v == (raw + left) % 256
    case 2 => v == (raw + above) % 256
    case 3 => v == (raw + (left + above) / 2) % 256
    case 4 => exists p :: Nearest(p, left, above, corner) && v == (raw + p) % 256
    case _ => false
  }

  lemma PredictedUndoes(t: nat, raw: Byte, a: Byte, b: Byte, c: Byte)
    requires t <= 4
    ensures Undone(t, raw, a, b, c, (raw + Predicted(t, a, b, c)) % 256)
  {
    if t == 4 { assert Nearest(PaethPredictor(a, b, c), a, b, c); }
  }

  /** One byte of a row, with the bytes `bpp` before it; the filter type of the row is at `line`. */
  lemma RowByte(data: seq<Byte>, n: nat, bpp: nat, rows: seq<Row>, j: nat, line: nat, k: nat)
    requires ImageRows(data, n, bpp, rows) && j < |rows| && k < n && bpp > 0
    requires line + 1 + n <= |data| && TypeOf(data, n, j) == data[line] <= 4
    requires RawRow(data, n, j) == data[line + 1..line + 1 + n]
    ensures |rows[j]| == n && (j > 0 ==> |rows[j - 1]| == n)
    ensures Undone(data[line], data[line + 1 + k],
                   if k < bpp then 0 else rows[j][k - bpp], if j == 0 then 0 else rows[j - 1][k],
                   if j == 0 || k < bpp then 0 else rows[j - 1][k - bpp], rows[j][k])
  {
    hide Predicted, Undone, RawRow, TypeOf, ImageRows;
    RowOf(data, n, bpp, rows, j);
    var t, raw, prior := data[line], RawRow(data, n, j), Above(rows, j, n);
    assert raw[k] == data[line + 1 + k];
    PredictedUndoes(t, raw[k], Left(rows[j], bpp, k), prior[k], Left(prior, bpp, k));
  }

  // ---- where samples are put out ----

  /** Sample `ch` of the pixel in row `j` and column `c` of an output with `n` samples for every pixel. */
  function PixelSample(out: seq<nat>, width: nat, n: nat, j: nat, c: nat, ch: nat): nat {
    SampleAt(out, (j * width + c) * n + ch)
  }

  /** What is put out is a sample of the row, and after the samples of a pixel full alpha if one more is wanted. */
  lemma SampleOut(data: seq<Byte>, channels: nat, wanted: nat, width: nat, height: nat, depth: nat, grey: bool,
      rows: seq<Row>, out: seq<nat>, j: nat, c: nat, ch: nat)
    requires Wanted(channels, wanted) && Decoded(data, channels, wanted, width, height, depth, grey, rows, out)
    requires j < height && c < width && ch < wanted
    ensures PixelSample(out, width, wanted, j, c, ch)
            == if ch < channels then Shown(rows[j], depth, grey, c * channels + ch)
               else if depth == 16 then 0xFFFF else 255
  {
    hide *;
    DecodedShown(data, channels, wanted, width, height, depth, grey, rows, out, j);
    ShownAt(rows[j], width, channels, wanted, depth, grey, c, ch);
    StrideAt(width, wanted, j, c, ch);
    InStride(out, width * wanted * j, width * wanted, Flat(c, wanted, ch));
    PixelIs(out, width, wanted, j, c, ch, channels);
  }

  lemma DecodedShown(data: seq<Byte>, channels: nat, wanted: nat, width: nat, height: nat, depth: nat, grey: bool,
      rows: seq<Row>, out: seq<nat>, j: nat)
    requires Wanted(channels, wanted) && Decoded(data, channels, wanted, width, height, depth, grey, rows, out)
    requires j < height
    ensures |rows| == height && (wanted == channels || (wanted == channels + 1 && (channels == 1 || channels == 3)))
    ensures var stride := width * wanted;
            stride * j + stride <= |out|
            && out[stride * j..stride * j + stride] == ShownRow(rows[j], width, channels, wanted, depth, grey)
  {
    hide Undecodable, ImageRows, ShownRow;
    assert RowShown(out, j, rows[j], width, channels, wanted, depth, grey);
  }

  lemma InStride(out: seq<nat>, from: nat, n: nat, k: nat)
    requires from + n <= |out| && k < n
    ensures out[from..from + n][k] == SampleAt(out, from + k)
  {
  }

  lemma PixelIs(out: seq<nat>, width: nat, n: nat, j: nat, c: nat, ch: nat, channels: nat)
    ensures PixelSample(out, width, n, j, c, ch) == SampleAt(out, Flat(j * width + c, n, ch))
    ensures Flat(c, channels, ch) == c * channels + ch
  {
  }

  lemma AlphaOut(data: seq<Byte>, channels: nat, width: nat, height: nat, depth: nat, grey: bool,
      rows: seq<Row>, out: seq<nat>, j: nat, c: nat)
    requires Wanted(channels, channels + 1) && j < height && c < width
    requires Decoded(data, channels, channels + 1, width, height, depth, grey, rows, out)
    ensures PixelSample(out, width, channels + 1, j, c, channels) == if depth == 16 then 65535 else 255
  {
    hide Decoded, PixelSample;
    SampleOut(data, channels, channels + 1, width, height, depth, grey, rows, out, j, c, channels);
  }

  lemma DecodedParts(data: seq<Byte>, channels: nat, wanted: nat, width: nat, height: nat, depth: nat, grey: bool,
      rows: seq<Row>, out: seq<nat>, j: nat)
    requires Wanted(channels, wanted) && Decoded(data, channels, wanted, width, height, depth, grey, rows, out)
    requires j < height
    ensures |rows| == height
    ensures var n := RowBytes(channels, width, depth);
            |data| >= (n + 1) * height && TypeOf(data, n, j) <= 4 && ImageRows(data, n, Bpp(channels, depth), rows)
  {
    hide ImageRows, ImageShown, TypeOf;
  }

  // ---- samples of a byte ----

  lemma Column(c: nat, n: nat, ch: nat, width: nat)
    requires c < width && ch < n
    ensures c * n + ch < n * width && (c == 0 <==> c * n + ch < n) && (c > 0 ==> c * n + ch - n == (c - 1) * n + ch)
  {
    MulNext(c, width, n);
    assert c > 0 ==> c * n == (c - 1) * n + n;
    assert c > 0 ==> (c - 1) * n >= 0;
  }

  lemma ByteShown(row: Row, grey: bool, k: nat)
    requires k < |row|
    ensures Shown(row, 8, grey, k) == row[k]
  {
  }

  /** Every sample of 8 bits, from that of the same channel in the neighbouring pixels. */
  lemma BytePixels(data: seq<Byte>, channels: nat, wanted: nat, width: nat, height: nat, grey: bool,
      rows: seq<Row>, out: seq<nat>, j: nat, c: nat, ch: nat)
    requires Wanted(channels, wanted) && Decoded(data, channels, wanted, width, height, 8, grey, rows, out)
    requires j < height && c < width && ch < channels
    ensures var line, n := (channels * width + 1) * j, wanted;
            var at := line + 1 + (c * channels + ch);
            && at < |data| && data[line] <= 4
            && Undone(data[line], data[at],
                      if c == 0 then 0 else PixelSample(out, width, n, j, c - 1, ch),
                      if j == 0 then 0 else PixelSample(out, width, n, j - 1, c, ch),
                      if j == 0 || c == 0 then 0 else PixelSample(out, width, n, j - 1, c - 1, ch),
                      PixelSample(out, width, n, j, c, ch))
  {
    hide *;
    var n, k, line := channels * width, c * channels + ch, (channels * width + 1) * j;
    Column(c, channels, ch, width);
    EightBits(channels, width);
    DecodedParts(data, channels, wanted, width, height, 8, grey, rows, out, j);
    RowPlace(data, n, j, height);
    RowByte(data, n, channels, rows, j, line, k);
    ByteOut(data, channels, wanted, width, height, grey, rows, out, j, c, ch, k);
    if c > 0 { ByteOut(data, channels, wanted, width, height, grey, rows, out, j, c - 1, ch, k - channels); }
    if j > 0 { ByteOut(data, channels, wanted, width, height, grey, rows, out, j - 1, c, ch, k); }
    if j > 0 && c > 0 {
      ByteOut(data, channels, wanted, width, height, grey, rows, out, j - 1, c - 1, ch, k - channels);
    }
  }

  lemma EightBits(channels: nat, width: nat)
    ensures RowBytes(channels, width, 8) == channels * width && Bpp(channels, 8) == channels
  {
    var m := channels * width;
    assert (m * 8 + 7) / 8 == m;
  }

  lemma ByteOut(data: seq<Byte>, channels: nat, wanted: nat, width: nat, height: nat, grey: bool,
      rows: seq<Row>, out: seq<nat>, j: nat, c: nat, ch: nat, k: nat)
    requires Wanted(channels, wanted) && Decoded(data, channels, wanted, width, height, 8, grey, rows, out)
    requires j < height == |rows| && c < width && ch < channels && k == c * channels + ch && k < |rows[j]|
    ensures PixelSample(out, width, wanted, j, c, ch) == rows[j][k]
  {
    hide *;
    WantedMore(channels, wanted);
    SampleOut(data, channels, wanted, width, height, 8, grey, rows, out, j, c, ch);
    ByteShown(rows[j], grey, k);
  }

  lemma WantedMore(channels: nat, wanted: nat)
    requires Wanted(channels, wanted)
    ensures channels <= wanted
  {
  }

  // ---- samples of two bytes ----

  /** The high byte of a sample, which comes first, and the low one. */
  function ByteOf(v: nat, e: nat): nat {
    if e == 0 then v / 256 else v % 256
  }

  /** Either byte of every sample of 16 bits, from that byte of the same channel in the neighbouring pixels. */
  lemma WordPixels(data: seq<Byte>, channels: nat, wanted: nat, width: nat, height: nat, grey: bool,
      rows: seq<Row>, out: seq<nat>, j: nat, c: nat, ch: nat, e: nat)
    requires Wanted(channels, wanted) && Decoded(data, channels, wanted, width, height, 16, grey, rows, out)
    requires j < height && c < width && ch < channels && e < 2
    ensures var line, n := (2 * (channels * width) + 1) * j, wanted;
            var at := line + 1 + 2 * (c * channels + ch) + e;
            && at < |data| && data[line] <= 4 && PixelSample(out, width, n, j, c, ch) < 65536
            && Undone(data[line], data[at],
                      if c == 0 then 0 else ByteOf(PixelSample(out, width, n, j, c - 1, ch), e),
                      if j == 0 then 0 else ByteOf(PixelSample(out, width, n, j - 1, c, ch), e),
                      if j == 0 || c == 0 then 0 else ByteOf(PixelSample(out, width, n, j - 1, c - 1, ch), e),
                      ByteOf(PixelSample(out, width, n, j, c, ch), e))
  {
    hide *;
    var n, k, line := 2 * (channels * width), c * channels + ch, (2 * (channels * width) + 1) * j;
    Column(c, channels, ch, width);
    SixteenBits(channels, width);
    DecodedParts(data, channels, wanted, width, height, 16, grey, rows, out, j);
    RowPlace(data, n, j, height);
    RowByte(data, n, 2 * channels, rows, j, line, 2 * k + e);
    WordOut(data, channels, wanted, width, height, grey, rows, out, j, c, ch, k, e);
    if c > 0 { WordOut(data, channels, wanted, width, height, grey, rows, out, j, c - 1, ch, k - channels, e); }
    if j > 0 { WordOut(data, channels, wanted, width, height, grey, rows, out, j - 1, c, ch, k, e); }
    if j > 0 && c > 0 {
      WordOut(data, channels, wanted, width, height, grey, rows, out, j - 1, c - 1, ch, k - channels, e);
    }
  }

  lemma SixteenBits(channels: nat, width: nat)
    ensures RowBytes(channels, width, 16) == 2 * (channels * width) && Bpp(channels, 16) == 2 * channels
  {
    var m := channels * width;
    assert (m * 16 + 7) / 8 == 2 * m;
  }

  lemma WordOut(data: seq<Byte>, channels: nat, wanted: nat, width: nat, height: nat, grey: bool,
      rows: seq<Row>, out: seq<nat>, j: nat, c: nat, ch: nat, k: nat, e: nat)
    requires Wanted(channels, wanted) && Decoded(data, channels, wanted, width, height, 16, grey, rows, out)
    requires j < height == |rows| && c < width && ch < channels && k == c * channels + ch && 2 * k + 1 < |rows[j]|
    requires e < 2
    ensures PixelSample(out, width, wanted, j, c, ch) < 65536
    ensures ByteOf(PixelSample(out, width, wanted, j, c, ch), e) == rows[j][2 * k + e]
  {
    hide *;
    WantedMore(channels, wanted);
    SampleOut(data, channels, wanted, width, height, 16, grey, rows, out, j, c, ch);
    WordShown(rows[j], grey, k, e);
  }

  lemma WordShown(row: Row, grey: bool, k: nat, e: nat)
    requires 2 * k + 1 < |row| && e < 2
    ensures Shown(row, 16, grey, k) < 65536 && ByteOf(Shown(row, 16, grey, k), e) == row[2 * k + e]
  {
    var hi: nat, lo: nat := row[2 * k], row[2 * k + 1];
    assert Shown(row, 16, grey, k) == hi * 256 + lo;
    assert (hi * 256 + lo) / 256 == hi && (hi * 256 + lo) % 256 == lo;
  }

  // ---- samples of less than a byte ----

  /** Every byte of a row of small samples, from the byte before it and those above. */
  lemma PackedBytes(data: seq<Byte>, channels: nat, wanted: nat, width: nat, height: nat, depth: nat, grey: bool,
      rows: seq<Row>, out: seq<nat>, j: nat, n: nat, line: nat, k: nat)
    requires Wanted(channels, wanted) && Decoded(data, channels, wanted, width, height, depth, grey, rows, out)
    requires j < height && depth < 8 && n == (channels * width * depth + 7) / 8 && line == (n + 1) * j && k < n
    ensures line + 1 + k < |data| && data[line] <= 4
    ensures |rows| == height && k < |rows[j]| && (j > 0 ==> k < |rows[j - 1]|)
    ensures Undone(data[line], data[line + 1 + k], if k == 0 then 0 else rows[j][k - 1],
                      if j == 0 then 0 else rows[j - 1][k], if j == 0 || k == 0 then 0 else rows[j - 1][k - 1],
                      rows[j][k])
  {
    hide *;
    FewBits(channels, width, depth);
    DecodedParts(data, channels, wanted, width, height, depth, grey, rows, out, j);
    RowPlace(data, n, j, height);
    RowByte(data, n, 1, rows, j, line, k);
  }

  lemma FewBits(channels: nat, width: nat, depth: nat)
    requires depth < 8
    ensures RowBytes(channels, width, depth) == (channels * width * depth + 7) / 8 && Bpp(channels, depth) == 1
  {
  }

  lemma BitsAre(b: Byte, k: nat, depth: nat)
    requires (depth == 1 || depth == 2 || depth == 4) && k <= 7
    ensures Low(Shr(b, k), depth) == b / Weight(k) % Weight(depth)
  {
    hide Low, Shr, Weight;
    ShiftIs(b, k);
    LowIs(Shr(b, k), depth);
  }

  /** How far apart the shown greys of a depth are: black is 0 and white 255. */
  function GreyStep(depth: nat): nat {
    if depth == 1 then 255 else if depth == 2 then 85 else 17
  }

  /** Which byte of a row holds sample `k`. */
  function Holder(depth: nat, k: nat): nat {
    if depth == 1 then k / 8 else if depth == 2 then k / 4 else k / 2
  }

  /** How many bits stand below sample `k` in its byte. */
  function Below(depth: nat, k: nat): (n: nat)
    ensures n <= 7
  {
    if depth == 1 then 7 - k % 8 else if depth == 2 then 6 - k % 4 * 2 else 4 - k % 2 * 4
  }

  /** The bits of sample `k` in its byte, shown in steps of `scale`. */
  function Cut(row: Row, depth: nat, k: nat, scale: nat): nat {
    if Holder(depth, k) >= |row| then 0
    else row[Holder(depth, k)] as nat / Weight(Below(depth, k)) % Weight(depth) * scale
  }

  /** Every small sample: its bits in their byte, the first sample in the highest ones, and scaled if it is a grey. */
  lemma PackedPixels(data: seq<Byte>, channels: nat, wanted: nat, width: nat, height: nat, depth: nat, grey: bool,
      rows: seq<Row>, out: seq<nat>, j: nat, c: nat, ch: nat)
    requires Wanted(channels, wanted) && Decoded(data, channels, wanted, width, height, depth, grey, rows, out)
    requires j < height && c < width && ch < channels && (depth == 1 || depth == 2 || depth == 4)
    ensures |rows| == height && Holder(depth, c * channels + ch) < |rows[j]|
    ensures PixelSample(out, width, wanted, j, c, ch)
            == Cut(rows[j], depth, c * channels + ch, if grey then GreyStep(depth) else 1)
  {
    hide *;
    var k := c * channels + ch;
    WantedMore(channels, wanted);
    ByteInRow(data, channels, wanted, width, height, depth, grey, rows, out, j, c, ch);
    SampleOut(data, channels, wanted, width, height, depth, grey, rows, out, j, c, ch);
    PackedShownIs(rows[j], depth, grey, k);
  }

  lemma ByteInRow(data: seq<Byte>, channels: nat, wanted: nat, width: nat, height: nat, depth: nat, grey: bool,
      rows: seq<Row>, out: seq<nat>, j: nat, c: nat, ch: nat)
    requires Wanted(channels, wanted) && Decoded(data, channels, wanted, width, height, depth, grey, rows, out)
    requires j < height && c < width && ch < channels && (depth == 1 || depth == 2 || depth == 4)
    ensures |rows| == height && Holder(depth, c * channels + ch) < |rows[j]|
  {
    hide *;
    Column(c, channels, ch, width);
    DecodedParts(data, channels, wanted, width, height, depth, grey, rows, out, j);
    RowPlace(data, RowBytes(channels, width, depth), j, height);
    RowLength(data, RowBytes(channels, width, depth), Bpp(channels, depth), rows, j);
    FewBits(channels, width, depth);
    LastByte(channels * width, depth, c * channels + ch);
  }

  lemma RowLength(data: seq<Byte>, n: nat, bpp: nat, rows: seq<Row>, j: nat)
    requires ImageRows(data, n, bpp, rows) && j < |rows| && |RawRow(data, n, j)| == n
    ensures |rows[j]| == n
  {
    hide RawRow;
  }

  lemma LastByte(count: nat, depth: nat, k: nat)
    requires (depth == 1 || depth == 2 || depth == 4) && k < count
    ensures Holder(depth, k) < (count * depth + 7) / 8
  {
  }

  lemma PackedShownIs(row: Row, depth: nat, grey: bool, k: nat)
    requires (depth == 1 || depth == 2 || depth == 4) && Holder(depth, k) < |row|
    ensures Shown(row, depth, grey, k) == Cut(row, depth, k, if grey then GreyStep(depth) else 1)
  {
    hide Low, Shr, Weight;
    var b := row[Holder(depth, k)];
    BitsAre(b, Below(depth, k), depth);
    assert Sample(row, depth, k) == Low(Shr(b, Below(depth, k)), depth) by {
      if depth == 1 { } else if depth == 2 { } else { }
    }
    var v := Sample(row, depth, k);
    assert v * 1 == v;
  }

  // ---- what is refused ----

  predicate BadType(data: seq<Byte>, line: nat, j: nat) {
    line * j < |data| && data[line * j] > 4
  }

  /** Exactly data that are too short, or in which a row has another filter type than 0 to 4. */
  lemma RefusedExactly(data: seq<Byte>, channels: nat, width: nat, height: nat, depth: nat, line: nat)
    requires line == (channels * width * depth + 7) / 8 + 1
    ensures Undecodable(data, channels, width, height, depth)
            <==> |data| < line * height || exists j: nat :: j < height && BadType(data, line, j)
  {
    var n := RowBytes(channels, width, depth);
    assert n + 1 == line;
    hide RowBytes, TypeOf, BadType;
    forall j: nat ensures TypeOf(data, n, j) > 4 <==> BadType(data, line, j) { TypeIs(data, n, j); }
  }

  lemma TypeIs(data: seq<Byte>, n: nat, j: nat)
    ensures TypeOf(data, n, j) > 4 <==> BadType(data, n + 1, j)
  {
  }

  // ---- interlacing ----

  /** The passes of a block of eight by eight pixels, as the specification draws them, numbered from 1. */
  const PATTERN: seq<seq<nat>> := [
    [1, 6, 4, 6, 2, 6, 4, 6],
    [7, 7, 7, 7, 7, 7, 7, 7],
    [5, 6, 5, 6, 5, 6, 5, 6],
    [7, 7, 7, 7, 7, 7, 7, 7],
    [3, 6, 4, 6, 3, 6, 4, 6],
    [7, 7, 7, 7, 7, 7, 7, 7],
    [5, 6, 5, 6, 5, 6, 5, 6],
    [7, 7, 7, 7, 7, 7, 7, 7]]

  lemma PatternIs(r: nat, c: nat)
    ensures PassOf(r, c) + 1 == PATTERN[r % 8][c % 8]
  {
    Residues(r);
    Residues(c);
    PatternOf(r % 8, c % 8);
  }

  lemma PatternOf(r: nat, c: nat)
    requires r < 8 && c < 8
    ensures PassOf(r, c) + 1 == PATTERN[r][c]
  {
    assert PATTERN[r] == if r % 2 == 1 then [7, 7, 7, 7, 7, 7, 7, 7]
                         else if r == 2 || r == 6 then [5, 6, 5, 6, 5, 6, 5, 6]
                         else if r == 0 then [1, 6, 4, 6, 2, 6, 4, 6] else [3, 6, 4, 6, 3, 6, 4, 6];
  }

  /** The columns and rows of every pass. */
  lemma PassSizes(width: nat, height: nat)
    ensures PassWidth(0, width) == (width + 7) / 8 && PassHeight(0, height) == (height + 7) / 8
    ensures PassWidth(1, width) == (width + 3) / 8 && PassHeight(1, height) == (height + 7) / 8
    ensures PassWidth(2, width) == (width + 3) / 4 && PassHeight(2, height) == (height + 3) / 8
    ensures PassWidth(3, width) == (width + 1) / 4 && PassHeight(3, height) == (height + 3) / 4
    ensures PassWidth(4, width) == (width + 1) / 2 && PassHeight(4, height) == (height + 1) / 4
    ensures PassWidth(5, width) == width / 2 && PassHeight(5, height) == (height + 1) / 2
    ensures PassWidth(6, width) == width && PassHeight(6, height) == height / 2
  {
  }

  /** Where a pixel of the image stands in its pass. */
  lemma PlacesInPasses(width: nat, r: nat, c: nat)
    requires c < width
    ensures var p := PATTERN[r % 8][c % 8];
            Number(width, p - 1, r * width + c)
            == Some(match p
                    case 1 => r / 8 * ((width + 7) / 8) + c / 8
                    case 2 => r / 8 * ((width + 3) / 8) + c / 8
                    case 3 => r / 8 * ((width + 3) / 4) + c / 4
                    case 4 => r / 4 * ((width + 1) / 4) + c / 4
                    case 5 => r / 4 * ((width + 1) / 2) + c / 2
                    case 6 => r / 2 * (width / 2) + c / 2
                    case _ => r / 2 * width + c)
  {
    hide PassOf, PATTERN, PassWidth;
    PatternIs(r, c);
    DivMod(r, c, width);
    PassSizes(width, r);
    var p := PassOf(r, c);
    PassPattern(p, r, c);
    GridIs(p, r, c);
    hide InPattern, GridRow, GridColumn;
  }

  lemma GridIs(p: nat, r: nat, c: nat)
    requires InPattern(p, r, c)
    ensures GridRow(p, r) == r / (if p < 3 then 8 else if p < 5 then 4 else 2)
    ensures GridColumn(p, c) == c / (if p < 2 then 8 else if p < 4 then 4 else if p < 6 then 2 else 1)
  {
  }

  /** The passes stand in the data one after the other; a pass without pixels takes no bytes. */
  lemma PassesInOrder(channels: nat, width: nat, height: nat, depth: nat, p: nat)
    ensures PassStart(channels, width, height, depth, 0) == 0
    ensures var w, h := PassWidth(p, width), PassHeight(p, height);
            PassStart(channels, width, height, depth, p + 1) - PassStart(channels, width, height, depth, p)
            == if w == 0 || h == 0 then 0 else ((channels * w * depth + 7) / 8 + 1) * h
  {
    hide PassWidth, PassHeight;
  }
}

/**
Writing an image as the PNG specification says, with any choice of filters, interlaced or not; and that the
decoder gives the image back.
 */
module PngEncode {
  import opened Arithmetic
  import opened Bits
  import opened PngInterlace
  import opened PngSpec
  import opened Png
  import opened Wrappers

  // ---- samples in rows (7.2) ----

  /** How many samples a byte holds, if they take less than a byte each. */
  function PerByte(depth: nat): (n: nat)
    ensures n > 0
  {
    if depth == 4 then 2 else if depth == 2 then 4 else 8
  }

  /** The bits of `i` samples from `at` on, the leftmost sample first; zeros beyond the last sample. */
  function SampleBits(s: seq<nat>, depth: nat, at: nat, i: nat): (b: seq<bool>)
    ensures |b| == i * depth
  {
    if i == 0 then []
    else
      assert i * depth == (i - 1) * depth + depth;
      SampleBits(s, depth, at, i - 1) + Reversed(Digits(SampleAt(s, at + i - 1), depth))
  }

  function PackedByte(s: seq<nat>, depth: nat, j: nat): Byte
    requires depth == 1 || depth == 2 || depth == 4
  {
    var b := SampleBits(s, depth, PerByte(depth) * j, PerByte(depth));
    MsbValBound(b);
    Powers();
    MsbVal(b)
  }

  /** A row of bytes that holds the samples. */
  function Pack(s: seq<nat>, depth: nat): (row: Row)
    requires Depth(depth) && forall k :: 0 <= k < |s| ==> s[k] < Pow2(depth)
    ensures |row| == (|s| * depth + 7) / 8
  {
    Powers();
    if depth == 16 then seq(2 * |s|,
                            k requires 0 <= k < 2 * |s| => (if k % 2 == 0 then s[k / 2] / 256
                                                            else s[k / 2] % 256) as Byte)
    else if depth == 8 then seq(|s|, k requires 0 <= k < |s| => s[k] as Byte)
    else seq((|s| * depth + 7) / 8, j requires 0 <= j < (|s| * depth + 7) / 8 => PackedByte(s, depth, j))
  }

  lemma {:induction false} BitsOfFirst(s: seq<nat>, depth: nat, at: nat, i: nat, j: nat)
    requires j <= i
    ensures j * depth <= i * depth && SampleBits(s, depth, at, i)[..j * depth] == SampleBits(s, depth, at, j)
    decreases i
  {
    hide Digits, Reversed;
    MulMonotone(j, i, depth);
    if j < i {
      BitsOfFirst(s, depth, at, i - 1, j);
      FirstOf(SampleBits(s, depth, at, i - 1), Reversed(Digits(SampleAt(s, at + i - 1), depth)), j * depth);
    }
  }

  lemma FirstOf(u: seq<bool>, v: seq<bool>, n: nat)
    requires n <= |u|
    ensures (u + v)[..n] == u[..n]
  {
  }

  lemma LowBits(u: seq<bool>, v: seq<bool>)
    ensures Low(MsbVal(u + v), |v|) == MsbVal(v)
  {
    var r := Reversed(v) + Reversed(u);
    assert Reversed(u + v) == r;
    MsbValReversed(u + v);
    MsbValReversed(v);
    LsbValSplit(r, |v|);
    assert r[..|v|] == Reversed(v);
  }

  /** Sample `i` of a packed byte. */
  lemma PackedIs(s: seq<nat>, depth: nat, j: nat, i: nat)
    requires (depth == 1 || depth == 2 || depth == 4) && i < PerByte(depth)
    requires SampleAt(s, PerByte(depth) * j + i) < Pow2(depth)
    ensures (i + 1) * depth <= 8
    ensures Low(Shr(PackedByte(s, depth, j), 8 - (i + 1) * depth), depth) == SampleAt(s, PerByte(depth) * j + i)
  {
    hide MsbVal, Shr, Low, Digits, Reversed, Pow2;
    var n, at, x := PerByte(depth), PerByte(depth) * j, SampleAt(s, PerByte(depth) * j + i);
    var b := SampleBits(s, depth, at, n);
    BitsOfFirst(s, depth, at, n, i + 1);
    MsbValPrefix(b, (i + 1) * depth);
    var u, v := SampleBits(s, depth, at, i), Reversed(Digits(x, depth));
    assert SampleBits(s, depth, at, i + 1) == u + v;
    LowBits(u, v);
    MsbValReversed(Digits(x, depth));
    LowBound(x, depth);
  }

  /** Packing keeps every sample. */
  lemma PackHolds(s: seq<nat>, depth: nat, k: nat)
    requires Depth(depth) && (forall i :: 0 <= i < |s| ==> s[i] < Pow2(depth)) && k < |s|
    ensures Sample(Pack(s, depth), depth, k) == s[k]
  {
    hide Sample, Pack, Pow2;
    if depth < 8 { BitsHold(s, depth, k); }
    else { BytesHold(s, depth, k); }
  }

  lemma BytesHold(s: seq<nat>, depth: nat, k: nat)
    requires (depth == 8 || depth == 16) && (forall i :: 0 <= i < |s| ==> s[i] < Pow2(depth)) && k < |s|
    ensures Sample(Pack(s, depth), depth, k) == s[k]
  {
    hide Pow2, PackedByte, PackedSample;
    Powers();
  }

  lemma BitsHold(s: seq<nat>, depth: nat, k: nat)
    requires (depth == 1 || depth == 2 || depth == 4) && (forall i :: 0 <= i < |s| ==> s[i] < Pow2(depth)) && k < |s|
    ensures Sample(Pack(s, depth), depth, k) == s[k]
  {
    hide Low, Shr, Pow2, PackedByte;
    var n := PerByte(depth);
    QuotientRemainder(k, n);
    PackedIs(s, depth, k / n, k % n);
    InRow(|s|, depth, k);
  }

  lemma InRow(count: nat, depth: nat, k: nat)
    requires (depth == 1 || depth == 2 || depth == 4) && k < count
    ensures k / PerByte(depth) < (count * depth + 7) / 8
  {
  }

  // ---- the rows of an image or a pass ----

  /** A sample as it is put out. */
  function Scaled(v: nat, depth: nat, grey: bool): nat {
    if depth < 8 && grey then v * (255 / Largest(depth)) else v
  }

  /** Sample `ch` of pixel `q` as it is put out, opaque if the image has no such channel. */
  function OutSample(image: seq<nat>, imgN: nat, depth: nat, grey: bool, q: nat, ch: nat): nat {
    if ch < imgN then Scaled(SampleAt(image, Flat(q, imgN, ch)), depth, grey) else if depth == 16 then 0xFFFF else 255
  }

  /** The whole image as it is put out. */
  function Picture(image: seq<nat>, imgN: nat, outN: nat, width: nat, height: nat, depth: nat,
      grey: bool): (r: seq<nat>)
    ensures |r| == width * height * outN
  {
    seq(width * height * outN, k requires 0 <= k < width * height * outN =>
      if outN == 0 then 0 else OutSample(image, imgN, depth, grey, k / outN, k % outN))
  }

  predicate Fits(image: seq<nat>, depth: nat) {
    forall k :: 0 <= k < |image| ==> image[k] < Pow2(depth)
  }

  /** Sample `k` of a row of pixels. */
  function SampleOf(image: seq<nat>, imgN: nat, pixels: seq<nat>, first: nat, k: nat): nat
    requires imgN > 0
  {
    SampleAt(image, Flat(SampleAt(pixels, first + k / imgN), imgN, k % imgN))
  }

  /** The samples of the `w` pixels that stand in `pixels` from `first` on. */
  function SamplesOf(image: seq<nat>, imgN: nat, pixels: seq<nat>, first: nat, w: nat): (r: seq<nat>)
    requires imgN > 0
    ensures |r| == w * imgN
  {
    seq(w * imgN, k requires 0 <= k < w * imgN => SampleOf(image, imgN, pixels, first, k))
  }

  lemma SamplesFit(image: seq<nat>, imgN: nat, pixels: seq<nat>, first: nat, w: nat, depth: nat)
    requires imgN > 0 && Fits(image, depth)
    ensures Fits(SamplesOf(image, imgN, pixels, first, w), depth)
  {
    hide Flat, Pow2;
    Pow2Monotone(0, depth);
  }

  /** The packed rows of an image of `w` by `h` pixels. */
  ghost function PackedRows(image: seq<nat>, imgN: nat, pixels: seq<nat>, w: nat, h: nat, depth: nat): (r: seq<Row>)
    requires imgN > 0 && Depth(depth) && Fits(image, depth)
    ensures |r| == h && forall j :: 0 <= j < h ==> |r[j]| == RowBytes(imgN, w, depth)
  {
    seq(h, j requires 0 <= j < h => PackedRow(image, imgN, pixels, w, j, depth))
  }

  ghost function PackedRow(image: seq<nat>, imgN: nat, pixels: seq<nat>, w: nat, j: nat, depth: nat): (r: Row)
    requires imgN > 0 && Depth(depth) && Fits(image, depth)
    ensures |r| == RowBytes(imgN, w, depth)
  {
    SamplesFit(image, imgN, pixels, Times(j, w), w, depth);
    assert w * imgN * depth == imgN * w * depth;
    Pack(SamplesOf(image, imgN, pixels, Times(j, w), w), depth)
  }

  /** The samples of pixel `c` with alpha after it. */
  lemma SpreadAt(s: seq<nat>, w: nat, channels: nat, alpha: nat, c: nat, ch: nat)
    requires (channels == 1 && |s| == w) || (channels == 3 && |s| == 3 * w)
    requires c < w && ch <= channels
    ensures Flat(c, channels + 1, ch) < w * (channels + 1) && (ch < channels ==> Flat(c, channels, ch) < |s|)
    ensures Spread(s, w, channels, alpha)[Flat(c, channels + 1, ch)] == if ch < channels then s[Flat(c, channels, ch)]
            else alpha
  {
    hide Spread, Flat;
    FlatIs(c, channels, ch);
    FlatIs(c, channels + 1, ch);
    if channels == 3 { SpreadColour(s, w, alpha, c); } else { SpreadGrey(s, w, alpha, c); }
  }

  lemma FlatIs(q: nat, n: nat, ch: nat)
    ensures n == 1 ==> Flat(q, n, ch) == q + ch
    ensures n == 2 ==> Flat(q, n, ch) == 2 * q + ch
    ensures n == 3 ==> Flat(q, n, ch) == 3 * q + ch
    ensures n == 4 ==> Flat(q, n, ch) == 4 * q + ch
  {
  }

  /** What is put out for a pixel of a row. */
  lemma ShownAt(row: Row, w: nat, imgN: nat, outN: nat, depth: nat, grey: bool, c: nat, ch: nat)
    requires Wanted(imgN, outN) && c < w && ch < outN
    ensures Flat(c, outN, ch) < w * outN && (ch < imgN ==> Flat(c, imgN, ch) < w * imgN)
    ensures ShownRow(row, w, imgN, outN, depth, grey)[Flat(c, outN, ch)]
            == if ch < imgN then Shown(row, depth, grey, Flat(c, imgN, ch)) else if depth == 16 then 0xFFFF else 255
  {
    hide Shown, Spread, ShownRow, Samples;
    MulNext(c, w, outN);
    MulNext(c, w, imgN);
    ShownRowIs(row, w, imgN, outN, depth, grey);
    if ch < imgN { SampleShown(row, w * imgN, depth, grey, Flat(c, imgN, ch)); }
    if imgN != outN {
      SpreadAt(Samples(row, w * imgN, depth, grey), w, imgN, if depth == 16 then 0xFFFF else 255, c, ch);
    }
  }

  lemma SampleShown(row: Row, count: nat, depth: nat, grey: bool, k: nat)
    requires k < count
    ensures Samples(row, count, depth, grey)[k] == Shown(row, depth, grey, k)
  {
  }

  lemma PackedShown(image: seq<nat>, imgN: nat, outN: nat, pixels: seq<nat>, w: nat, j: nat, depth: nat, grey: bool,
      c: nat, ch: nat)
    requires Wanted(imgN, outN) && imgN > 0 && Depth(depth) && Fits(image, depth) && c < w && ch < outN
    ensures Flat(c, outN, ch) < w * outN
    ensures ShownRow(PackedRow(image, imgN, pixels, w, j, depth), w, imgN, outN, depth, grey)[Flat(c, outN, ch)]
            == OutSample(image, imgN, depth, grey, SampleAt(pixels, Times(j, w) + c), ch)
  {
    hide Pack, Sample, ShownRow, Pow2, Times;
    ShownAt(PackedRow(image, imgN, pixels, w, j, depth), w, imgN, outN, depth, grey, c, ch);
    if ch < imgN {
      var k := Flat(c, imgN, ch);
      SamplesFit(image, imgN, pixels, Times(j, w), w, depth);
      PackHolds(SamplesOf(image, imgN, pixels, Times(j, w), w), depth, k);
      DivMod(c, ch, imgN);
    }
  }

  /** What is put out for pixel `m` of the image that the rows hold. */
  lemma DecodedPixel(data: seq<Byte>, image: seq<nat>, imgN: nat, outN: nat, pixels: seq<nat>, w: nat, h: nat,
      depth: nat, grey: bool, rows: seq<Row>, out: seq<nat>, m: nat, ch: nat)
    requires Wanted(imgN, outN) && imgN > 0 && Depth(depth) && Fits(image, depth) && m < w * h && ch < outN
    requires Decoded(data, imgN, outN, w, h, depth, grey, rows, out)
    requires rows == PackedRows(image, imgN, pixels, w, h, depth)
    ensures SampleAt(out, Flat(m, outN, ch)) == OutSample(image, imgN, depth, grey, SampleAt(pixels, m), ch)
  {
    hide Undecodable, ImageRows, ShownRow, OutSample, PackedRow;
    PixelPlace(w, h, m);
    var j, c := m / w, m % w;
    QuotientRemainder(m, w);
    assert RowShown(out, j, rows[j], w, imgN, outN, depth, grey);
    PackedShown(image, imgN, outN, pixels, w, j, depth, grey, c, ch);
    StrideAt(w, outN, j, c, ch);
    var stride := w * outN;
    assert out[stride * j..stride * j + stride][Flat(c, outN, ch)] == out[stride * j + Flat(c, outN, ch)];
  }

  lemma StrideAt(w: nat, n: nat, j: nat, c: nat, ch: nat)
    ensures w * n * j + Flat(c, n, ch) == Flat(j * w + c, n, ch) && Times(j, w) == j * w
  {
    assert (j * w + c) * n == j * w * n + c * n;
    assert w * n * j == j * w * n;
  }

  // ---- filtered rows, followed by anything ----

  predicate Filters(types: seq<nat>, h: nat) {
    |types| == h && forall j :: 0 <= j < h ==> types[j] <= 4
  }

  lemma FilteredType(types: seq<nat>, rows: seq<Row>, bpp: nat, n: nat, data: seq<Byte>, j: nat)
    requires Filters(types, |rows|) && (forall i :: 0 <= i < |rows| ==> |rows[i]| == n) && j < |rows|
    requires FilteredImage(types, rows, bpp, n) <= data
    ensures TypeOf(data, n, j) == types[j]
    ensures TypeOf(data, n, j) == TypeOf(FilteredImage(types, rows, bpp, n), n, j)
    ensures RawRow(data, n, j) == RawRow(FilteredImage(types, rows, bpp, n), n, j)
  {
    hide FilteredImage, TypeOf, RawRow;
    AboveLength(rows, j, n);
    FilteredPrefix(types, rows, bpp, n, j);
    RowsBefore(FilteredImage(types, rows, bpp, n), data, n, |rows|, j);
  }

  /** The decoder takes filtered rows and reconstructs them. */
  lemma FilteredComesBack(types: seq<nat>, rows: seq<Row>, channels: nat, w: nat, h: nat, depth: nat, data: seq<Byte>)
    requires |rows| == h && Filters(types, h) && channels > 0
    requires forall i :: 0 <= i < h ==> |rows[i]| == RowBytes(channels, w, depth)
    requires FilteredImage(types, rows, Bpp(channels, depth), RowBytes(channels, w, depth)) <= data
    ensures !Undecodable(data, channels, w, h, depth)
    ensures forall decoded :: |decoded| == h
                              && ImageRows(data, RowBytes(channels, w, depth), Bpp(channels, depth), decoded) ==>
              decoded == rows
  {
    hide FilteredImage, TypeOf, RawRow, RowBytes, ImageRows;
    var n, bpp := RowBytes(channels, w, depth), Bpp(channels, depth);
    var raw := FilteredImage(types, rows, bpp, n);
    BppPositive(channels, depth);
    forall j: nat | j < h
      ensures TypeOf(data, n, j) == types[j] == TypeOf(raw, n, j) && RawRow(data, n, j) == RawRow(raw, n, j)
    {
      FilteredType(types, rows, bpp, n, data, j);
    }
    forall decoded | |decoded| == h && ImageRows(data, n, bpp, decoded) ensures decoded == rows {
      RowsInPrefix(data, raw, n, bpp, decoded);
      UnfilteringInverts(types, rows, bpp, n, decoded, h);
      assert decoded[..h] == decoded && rows[..h] == rows;
    }
  }

  lemma RowsInPrefix(data: seq<Byte>, raw: seq<Byte>, n: nat, bpp: nat, rows: seq<Row>)
    requires ImageRows(data, n, bpp, rows)
    requires forall j: nat :: j < |rows| ==>
                                TypeOf(data, n, j) == TypeOf(raw, n, j) && RawRow(data, n, j) == RawRow(raw, n, j)
    ensures ImageRows(raw, n, bpp, rows)
  {
    hide TypeOf, RawRow, Above, Reconstructed;
  }

  // ---- images without interlacing ----

  function AllPixels(size: nat): seq<nat> {
    seq(size, q => q)
  }

  /** The bytes of an image. */
  ghost function Encoded(image: seq<nat>, imgN: nat, pixels: seq<nat>, w: nat, h: nat, depth: nat,
      types: seq<nat>): seq<Byte>
    requires imgN > 0 && Depth(depth) && Fits(image, depth) && Filters(types, h)
  {
    FilteredImage(types, PackedRows(image, imgN, pixels, w, h, depth), Bpp(imgN, depth), RowBytes(imgN, w, depth))
  }

  lemma EncodedComesBack(image: seq<nat>, imgN: nat, outN: nat, pixels: seq<nat>, w: nat, h: nat, depth: nat,
      grey: bool, types: seq<nat>, data: seq<Byte>)
    requires Wanted(imgN, outN) && imgN > 0 && Depth(depth) && Fits(image, depth) && Filters(types, h)
    requires Encoded(image, imgN, pixels, w, h, depth, types) <= data
    ensures !Undecodable(data, imgN, w, h, depth)
    ensures forall rows, out :: Decoded(data, imgN, outN, w, h, depth, grey, rows, out) ==>
                                  rows == PackedRows(image, imgN, pixels, w, h, depth)
  {
    hide FilteredImage, RowBytes, Undecodable, ImageRows, ImageShown, PackedRow, Bpp;
    FilteredComesBack(types, PackedRows(image, imgN, pixels, w, h, depth), imgN, w, h, depth, data);
  }

  /** `Png.CreateImageRaw` takes an image that has been written with any filters, whatever follows it, and puts out that
      image. */
  lemma ImageComesBack(image: seq<nat>, imgN: nat, outN: nat, w: nat, h: nat, depth: nat, grey: bool, types: seq<nat>,
      data: seq<Byte>)
    requires Wanted(imgN, outN) && imgN > 0 && Depth(depth) && |image| == w * h * imgN && Fits(image, depth)
    requires Filters(types, h)
    requires Encoded(image, imgN, AllPixels(w * h), w, h, depth, types) <= data
    ensures !Undecodable(data, imgN, w, h, depth)
    ensures forall rows, out :: Decoded(data, imgN, outN, w, h, depth, grey, rows, out) ==>
              out == Picture(image, imgN, outN, w, h, depth, grey)
  {
    hide Undecodable, Decoded, OutSample, PackedRows, Encoded;
    var pixels := AllPixels(w * h);
    EncodedComesBack(image, imgN, outN, pixels, w, h, depth, grey, types, data);
    forall rows, out | Decoded(data, imgN, outN, w, h, depth, grey, rows, out)
      ensures out == Picture(image, imgN, outN, w, h, depth, grey)
    {
      OutLength(data, imgN, outN, w, h, depth, grey, rows, out);
      Products(w, outN, h);
      forall k | 0 <= k < |out| ensures out[k] == OutSample(image, imgN, depth, grey, k / outN, k % outN) {
        SamplePlace(w * h, outN, k);
        DecodedPixel(data, image, imgN, outN, pixels, w, h, depth, grey, rows, out, k / outN, k % outN);
      }
    }
  }

  // ---- interlaced images ----

  /** The pixels of pass `p`, row by row. */
  function PassPixels(width: nat, height: nat, p: nat): (r: seq<nat>)
    ensures |r| == PassWidth(p, width) * PassHeight(p, height)
  {
    var w := PassWidth(p, width);
    seq(w * PassHeight(p, height), m requires 0 <= m < w * PassHeight(p, height) =>
      if w == 0 then 0 else Place(width, p, m % w, m / w))
  }

  /** The first `p` passes, one after another; those without pixels take no bytes. */
  ghost function EncodedPasses(image: seq<nat>, imgN: nat, width: nat, height: nat, depth: nat, types: seq<seq<nat>>,
      p: nat): seq<Byte>
    requires imgN > 0 && Depth(depth) && Fits(image, depth) && p <= |types|
    requires forall o :: 0 <= o < |types| ==> Filters(types[o], PassHeight(o, height))
  {
    if p == 0 then []
    else
      var o := p - 1;
      EncodedPasses(image, imgN, width, height, depth, types, o)
      + if HasPixels(width, height, o)
          then Encoded(image, imgN, PassPixels(width, height, o), PassWidth(o, width), PassHeight(o, height), depth,
                       types[o])
          else []
  }

  /** The passes begin where the decoder looks for them. */
  lemma {:induction false} PassesPlaced(image: seq<nat>, imgN: nat, width: nat, height: nat, depth: nat,
      types: seq<seq<nat>>, p: nat)
    requires imgN > 0 && Depth(depth) && Fits(image, depth) && p <= |types|
    requires forall o :: 0 <= o < |types| ==> Filters(types[o], PassHeight(o, height))
    ensures |EncodedPasses(image, imgN, width, height, depth, types, p)| == PassStart(imgN, width, height, depth, p)
  {
    hide PassWidth, PassHeight, Filters, Fits, PackedRows, Bpp, RowBytes, PassPixels;
    if p > 0 {
      PassesPlaced(image, imgN, width, height, depth, types, p - 1);
    }
  }

  lemma {:induction false} PassesGrow(image: seq<nat>, imgN: nat, width: nat, height: nat, depth: nat,
      types: seq<seq<nat>>, p: nat, q: nat)
    requires imgN > 0 && Depth(depth) && Fits(image, depth) && p <= q <= |types|
    requires forall o :: 0 <= o < |types| ==> Filters(types[o], PassHeight(o, height))
    ensures EncodedPasses(image, imgN, width, height, depth, types, p) <= EncodedPasses(image, imgN, width, height,
            depth, types, q)
    decreases q
  {
    hide PassWidth, PassHeight, Filters, Fits, Encoded, PassPixels;
    if p < q { PassesGrow(image, imgN, width, height, depth, types, p, q - 1); }
  }

  /** The data of a pass begin with what has been written for it. */
  lemma PassDataIs(image: seq<nat>, imgN: nat, width: nat, height: nat, depth: nat, types: seq<seq<nat>>,
      data: seq<Byte>, p: nat)
    requires imgN > 0 && Depth(depth) && Fits(image, depth) && p < |types| && HasPixels(width, height, p)
    requires forall o :: 0 <= o < |types| ==> Filters(types[o], PassHeight(o, height))
    requires EncodedPasses(image, imgN, width, height, depth, types, |types|) <= data
    ensures Encoded(image, imgN, PassPixels(width, height, p), PassWidth(p, width), PassHeight(p, height), depth,
                    types[p])
            <= PassData(data, imgN, width, height, depth, p)
  {
    hide PassWidth, PassHeight, Filters, Fits, Encoded, PassPixels, PassStart;
    PassesPlaced(image, imgN, width, height, depth, types, p);
    PassesGrow(image, imgN, width, height, depth, types, p + 1, |types|);
    var before := EncodedPasses(image, imgN, width, height, depth, types, p);
    var own := Encoded(image, imgN, PassPixels(width, height, p), PassWidth(p, width), PassHeight(p, height), depth,
                       types[p]);
    assert before + own <= data;
    assert data[|before|..][..|own|] == own;
  }

  /** A decoded pass holds the pixels of the picture. */
  lemma PassOfPicture(image: seq<nat>, imgN: nat, outN: nat, width: nat, height: nat, depth: nat, grey: bool, p: nat,
                      data: seq<Byte>, rows: seq<Row>, pass: seq<nat>)
    requires Wanted(imgN, outN) && imgN > 0 && Depth(depth) && Fits(image, depth) && p < 7
    requires var w, h := PassWidth(p, width), PassHeight(p, height);
             Decoded(data, imgN, outN, w, h, depth, grey, rows, pass)
             && rows == PackedRows(image, imgN, PassPixels(width, height, p), w, h, depth)
    ensures IsPass(Picture(image, imgN, outN, width, height, depth, grey), width, height, outN, p, pass)
  {
    hide Decoded, PackedRows, OutSample, Fits, Number, PassWidth, PassHeight, Picture;
    forall q: nat | q < width * height && Number(width, p, q).Some?
      ensures SamePixel(Picture(image, imgN, outN, width, height, depth, grey), q, pass, Number(width, p, q).value,
                        outN)
    {
      var m := Number(width, p, q).value;
      NumberBound(width, height, p, q);
      var i, j := NumberParts(width, height, p, q);
      PixelOfPass(width, height, p, m, i, j);
      forall ch: nat | ch < outN
        ensures SampleAt(Picture(image, imgN, outN, width, height, depth, grey), Flat(q, outN, ch))
                == SampleAt(pass, Flat(m, outN, ch))
      {
        PictureAt(image, imgN, outN, width, height, depth, grey, q, ch);
        DecodedPixel(data, image, imgN, outN, PassPixels(width, height, p), PassWidth(p, width), PassHeight(p, height),
                     depth, grey, rows, pass, m, ch);
      }
    }
  }

  lemma PixelOfPass(width: nat, height: nat, p: nat, m: nat, i: nat, j: nat)
    requires i < PassWidth(p, width) && m == j * PassWidth(p, width) + i
    requires m < PassWidth(p, width) * PassHeight(p, height)
    ensures SampleAt(PassPixels(width, height, p), m) == Place(width, p, i, j)
  {
    hide PassWidth, PassHeight, Place;
    DivMod(j, i, PassWidth(p, width));
  }

  lemma PictureAt(image: seq<nat>, imgN: nat, outN: nat, width: nat, height: nat, depth: nat, grey: bool, q: nat,
      ch: nat)
    requires q < width * height && ch < outN
    ensures SampleAt(Picture(image, imgN, outN, width, height, depth, grey), Flat(q, outN, ch))
            == OutSample(image, imgN, depth, grey, q, ch)
  {
    hide OutSample;
    DivMod(q, ch, outN);
    MulNext(q, width * height, outN);
  }

  /** The data begin with the passes of an image. */
  ghost predicate Written(image: seq<nat>, imgN: nat, width: nat, height: nat, depth: nat, types: seq<seq<nat>>,
      data: seq<Byte>) {
    && imgN > 0 && Depth(depth) && Fits(image, depth) && |types| == 7
    && (forall o :: 0 <= o < |types| ==> Filters(types[o], PassHeight(o, height)))
    && EncodedPasses(image, imgN, width, height, depth, types, 7) <= data
  }

  /** `PngInterlace.CreateImage` takes the passes of an image that have been written with any filters, whatever follows
      them, and puts out that image. */
  lemma InterlacedComesBack(image: seq<nat>, imgN: nat, outN: nat, width: nat, height: nat, depth: nat, grey: bool,
      types: seq<seq<nat>>, data: seq<Byte>)
    requires Wanted(imgN, outN) && |image| == width * height * imgN
    requires Written(image, imgN, width, height, depth, types, data)
    ensures forall p :: 0 <= p < 7 ==> !PassBad(data, imgN, width, height, depth, p)
    ensures forall final, rows, passes ::
              |final| == width * height * outN && |passes| == 7
              && PassesDone(data, imgN, outN, width, height, depth, grey, final, rows, passes) ==>
              final == Picture(image, imgN, outN, width, height, depth, grey)
  {
    hide *;
    forall p | 0 <= p < 7 ensures !PassBad(data, imgN, width, height, depth, p) {
      PassWritten(image, imgN, outN, width, height, depth, grey, types, data, p);
    }
    forall final, rows, passes | |final| == width * height * outN && |passes| == 7
                                 && PassesDone(data, imgN, outN, width, height, depth, grey, final, rows, passes)
      ensures final == Picture(image, imgN, outN, width, height, depth, grey)
    {
      PassesBack(image, imgN, outN, width, height, depth, grey, types, data, final, rows, passes);
    }
  }

  lemma PassesBack(image: seq<nat>, imgN: nat, outN: nat, width: nat, height: nat, depth: nat, grey: bool,
      types: seq<seq<nat>>, data: seq<Byte>, final: seq<nat>, rows: seq<seq<Row>>, passes: seq<seq<nat>>)
    requires Wanted(imgN, outN) && Written(image, imgN, width, height, depth, types, data)
    requires |final| == width * height * outN && |passes| == 7
    requires PassesDone(data, imgN, outN, width, height, depth, grey, final, rows, passes)
    ensures final == Picture(image, imgN, outN, width, height, depth, grey)
  {
    hide *;
    var picture := Picture(image, imgN, outN, width, height, depth, grey);
    forall p | 0 <= p < 7 ensures IsPass(picture, width, height, outN, p, passes[p]) {
      PassIs(image, imgN, outN, width, height, depth, grey, types, data, final, rows, passes, p);
    }
    DeinterlacingInverts(data, imgN, outN, width, height, depth, grey, final, rows, passes, picture);
  }

  /** The packed rows of pass `p`. */
  ghost function PassRows(image: seq<nat>, imgN: nat, width: nat, height: nat, depth: nat, p: nat): seq<Row>
    requires imgN > 0 && Depth(depth) && Fits(image, depth)
  {
    PackedRows(image, imgN, PassPixels(width, height, p), PassWidth(p, width), PassHeight(p, height), depth)
  }

  lemma PassWritten(image: seq<nat>, imgN: nat, outN: nat, width: nat, height: nat, depth: nat, grey: bool,
      types: seq<seq<nat>>, data: seq<Byte>, p: nat)
    requires Wanted(imgN, outN) && p < 7 && Written(image, imgN, width, height, depth, types, data)
    ensures !PassBad(data, imgN, width, height, depth, p)
    ensures imgN > 0 && Depth(depth) && Fits(image, depth)
    ensures HasPixels(width, height, p) ==>
              forall rows, out :: Decoded(PassData(data, imgN, width, height, depth, p), imgN, outN,
                                          PassWidth(p, width), PassHeight(p, height), depth, grey, rows, out) ==>
                rows == PassRows(image, imgN, width, height, depth, p)
  {
    hide HasPixels, PassWidth, PassHeight, Filters, Fits, Encoded, EncodedPasses, PassPixels, Undecodable, Decoded,
    PackedRows, PassData;
    if HasPixels(width, height, p) {
      PassDataIs(image, imgN, width, height, depth, types, data, p);
      EncodedComesBack(image, imgN, outN, PassPixels(width, height, p), PassWidth(p, width), PassHeight(p, height),
                       depth, grey, types[p], PassData(data, imgN, width, height, depth, p));
    }
  }

  lemma PassIs(image: seq<nat>, imgN: nat, outN: nat, width: nat, height: nat, depth: nat, grey: bool,
      types: seq<seq<nat>>, data: seq<Byte>, final: seq<nat>, rows: seq<seq<Row>>, passes: seq<seq<nat>>, p: nat)
    requires Wanted(imgN, outN) && p < 7 == |passes| && Written(image, imgN, width, height, depth, types, data)
    requires PassesDone(data, imgN, outN, width, height, depth, grey, final, rows, passes)
    ensures IsPass(Picture(image, imgN, outN, width, height, depth, grey), width, height, outN, p, passes[p])
  {
    hide *;
    PassDone(data, imgN, outN, width, height, depth, grey, final, rows, passes, p);
    if HasPixels(width, height, p) {
      PassWritten(image, imgN, outN, width, height, depth, grey, types, data, p);
      RowsOfPass(image, imgN, width, height, depth, p);
      PassOfPicture(image, imgN, outN, width, height, depth, grey, p, PassData(data, imgN, width, height, depth, p),
                    rows[p], passes[p]);
    } else {
      NoPixels(Picture(image, imgN, outN, width, height, depth, grey), width, height, outN, p, passes[p]);
    }
  }

  lemma RowsOfPass(image: seq<nat>, imgN: nat, width: nat, height: nat, depth: nat, p: nat)
    requires imgN > 0 && Depth(depth) && Fits(image, depth)
    ensures PassRows(image, imgN, width, height, depth, p)
            == PackedRows(image, imgN, PassPixels(width, height, p), PassWidth(p, width), PassHeight(p, height), depth)
  {
  }

  lemma PassDone(data: seq<Byte>, imgN: nat, outN: nat, width: nat, height: nat, depth: nat, grey: bool,
                 final: seq<nat>, rows: seq<seq<Row>>, passes: seq<seq<nat>>, p: nat)
    requires PassesDone(data, imgN, outN, width, height, depth, grey, final, rows, passes) && p < |passes|
    requires Wanted(imgN, outN)
    ensures p < |rows|
    ensures HasPixels(width, height, p) ==>
              Decoded(PassData(data, imgN, width, height, depth, p), imgN, outN, PassWidth(p, width),
                      PassHeight(p, height), depth, grey, rows[p], passes[p])
  {
    hide IsPass, Decoded, PassData, HasPixels, PassWidth, PassHeight;
    assert PassGood(data, imgN, outN, width, height, depth, grey, final, p, rows[p], passes[p]);
  }

  lemma NoPixels(image: seq<nat>, width: nat, height: nat, n: nat, p: nat, pass: seq<nat>)
    requires p < 7 && !HasPixels(width, height, p)
    ensures IsPass(image, width, height, n, p, pass)
  {
    hide Number, PassWidth, PassHeight;
    forall q: nat | q < width * height ensures Number(width, p, q).None? {
      if Number(width, p, q).Some? { NumberBound(width, height, p, q); }
    }
  }
}

/**
The seven passes of an interlaced PNG image in 3rd_party/imageHelper/stb_image.h: each is decoded as an
image of its own and its pixels are put into their places.
 */
module PngInterlace {
  import opened Arithmetic
  import opened Bits
  import opened PngSpec
  import opened Png
  import opened Wrappers

  // ---- where pixels go ----

  /** Column `i` and row `j` of a pass lie inside the image. */
  lemma ColumnInside(p: nat, width: nat, i: nat)
    requires p < 7 && i < PassWidth(p, width)
    ensures i * StepX(p) + PassX(p) < width
  {
  }

  lemma RowInside(p: nat, height: nat, j: nat)
    requires p < 7 && j < PassHeight(p, height)
    ensures j * StepY(p) + PassY(p) < height
  {
  }

  /** And every column and row of the grid inside the image belongs to the pass. */
  lemma ColumnCounted(p: nat, width: nat, c: nat)
    requires p < 7 && PassX(p) <= c < width
    ensures GridColumn(p, c) < PassWidth(p, width)
  {
  }

  lemma RowCounted(p: nat, height: nat, r: nat)
    requires p < 7 && PassY(p) <= r < height
    ensures GridRow(p, r) < PassHeight(p, height)
  {
  }

  /** The offset of an element of the grid. */
  lemma GridBack(p: nat, i: nat, j: nat)
    requires p < 7
    ensures OnGrid(p, j * StepY(p) + PassY(p), i * StepX(p) + PassX(p))
    ensures GridRow(p, j * StepY(p) + PassY(p)) == j && GridColumn(p, i * StepX(p) + PassX(p)) == i
  {
    DivMod(j, 0, StepY(p));
    DivMod(i, 0, StepX(p));
  }

  /** Where pixel `i` of row `j` of a pass goes. */
  function Place(width: nat, p: nat, i: nat, j: nat): nat {
    (j * StepY(p) + PassY(p)) * width + (i * StepX(p) + PassX(p))
  }

  lemma NumberOfPlace(width: nat, height: nat, p: nat, i: nat, j: nat)
    requires p < 7 && i < PassWidth(p, width) && j < PassHeight(p, height)
    ensures Place(width, p, i, j) < width * height
    ensures Number(width, p, Place(width, p, i, j)) == Some(j * PassWidth(p, width) + i)
  {
    hide PassWidth, PassHeight, StepX, StepY, PassX, PassY, PassOf, OnGrid;
    ColumnInside(p, width, i);
    RowInside(p, height, j);
    var r, c := j * StepY(p) + PassY(p), i * StepX(p) + PassX(p);
    DivMod(r, c, width);
    MulNext(r, height, width);
    assert height * width == width * height;
    GridBack(p, i, j);
    GridOfPass(p, r, c);
  }

  /** Every pixel of a pass has one place, and there are no more than its size. */
  lemma NumberOnce(width: nat, height: nat, p: nat, q: nat, q': nat)
    requires p < 7 && q < width * height && q' < width * height
    requires Number(width, p, q).Some? && Number(width, p, q) == Number(width, p, q')
    ensures q == q'
  {
    hide *;
    var i, j := NumberParts(width, height, p, q);
    var i', j' := NumberParts(width, height, p, q');
    SameQuotient(j, i, j', i', PassWidth(p, width));
  }

  /** The column and row of a pixel in its pass. */
  lemma NumberParts(width: nat, height: nat, p: nat, q: nat) returns (i: nat, j: nat)
    requires p < 7 && q < width * height && Number(width, p, q).Some?
    ensures i < PassWidth(p, width) && q == Place(width, p, i, j)
    ensures Number(width, p, q).value == j * PassWidth(p, width) + i
  {
    hide PassWidth, StepX, StepY, PassX, PassY, PassOf;
    PixelPlace(width, height, q);
    var r, c := q / width, q % width;
    GridOfPass(p, r, c);
    ColumnCounted(p, width, c);
    StepsPositive(p);
    i, j := GridColumn(p, c), GridRow(p, r);
    QuotientRemainder(r - PassY(p), StepY(p));
    QuotientRemainder(c - PassX(p), StepX(p));
    QuotientRemainder(q, width);
  }

  lemma StepsPositive(p: nat)
    ensures StepX(p) > 0 && StepY(p) > 0
  {
  }

  lemma NumberBound(width: nat, height: nat, p: nat, q: nat)
    requires p < 7 && q < width * height && Number(width, p, q).Some?
    ensures Number(width, p, q).value < PassWidth(p, width) * PassHeight(p, height)
  {
    hide PassWidth, PassHeight, GridRow, GridColumn, PassOf, OnGrid;
    PixelPlace(width, height, q);
    var r, c := q / width, q % width;
    GridOfPass(p, r, c);
    GridFrom(p, r, c);
    ColumnCounted(p, width, c);
    RowCounted(p, height, r);
    MulNext(GridRow(p, r), PassHeight(p, height), PassWidth(p, width));
    assert PassHeight(p, height) * PassWidth(p, width) == PassWidth(p, width) * PassHeight(p, height);
  }

  lemma GridFrom(p: nat, r: nat, c: nat)
    requires OnGrid(p, r, c)
    ensures r >= PassY(p) && c >= PassX(p)
  {
  }

  // ---- scattering ----

  /** Pixel `q` when the first `t` pixels of pass `p` have been put into `final`. */
  ghost predicate PixelScattered(before: seq<nat>, final: seq<nat>, width: nat, n: nat, p: nat, pass: seq<nat>, t: nat,
      q: nat) {
    match Number(width, p, q)
    case Some(m) => if m < t then SamePixel(final, q, pass, m, n) else SamePixel(final, q, before, q, n)
    case None => SamePixel(final, q, before, q, n)
  }

  ghost predicate Scattered(before: seq<nat>, final: seq<nat>, width: nat, height: nat, n: nat, p: nat, pass: seq<nat>,
      t: nat) {
    |final| == |before| && forall q: nat :: q < width * height ==>
                                              PixelScattered(before, final, width, n, p, pass, t, q)
  }

  lemma ScatteredNone(final: seq<nat>, width: nat, height: nat, n: nat, p: nat, pass: seq<nat>)
    ensures Scattered(final, final, width, height, n, p, pass, 0)
  {
    forall q: nat ensures SamePixel(final, q, final, q, n) {}
    hide SamePixel, Number;
  }

  /** The samples of pixel `q` are those of pixel `m` of `other`, and no other pixel has changed. */
  ghost predicate PixelMoved(was: seq<nat>, now: seq<nat>, q: nat, other: seq<nat>, m: nat, n: nat) {
    |now| == |was| && SamePixel(now, q, other, m, n) && forall k: nat :: k != q ==> SamePixel(now, k, was, k, n)
  }

  lemma SameTrans(a: seq<nat>, q: nat, b: seq<nat>, m: nat, c: seq<nat>, k: nat, n: nat)
    requires SamePixel(a, q, b, m, n) && SamePixel(b, m, c, k, n)
    ensures SamePixel(a, q, c, k, n)
  {
  }

  lemma ScatteredNext(before: seq<nat>, was: seq<nat>, now: seq<nat>, width: nat, height: nat, n: nat, p: nat,
      pass: seq<nat>, t: nat, q: nat)
    requires p < 7 && Scattered(before, was, width, height, n, p, pass, t)
    requires q < width * height && Number(width, p, q) == Some(t) && PixelMoved(was, now, q, pass, t, n)
    ensures Scattered(before, now, width, height, n, p, pass, t + 1)
  {
    hide Number, SamePixel;
    var t' := t + 1;
    forall k: nat | k < width * height ensures PixelScattered(before, now, width, n, p, pass, t', k) {
      assert PixelScattered(before, was, width, n, p, pass, t, k);
      if k != q {
        assert SamePixel(now, k, was, k, n);
        match Number(width, p, k) {
          case Some(m) =>
            if m == t { NumberOnce(width, height, p, q, k); }
            if m < t { SameTrans(now, k, was, k, pass, m, n); } else { SameTrans(now, k, was, k, before, k, n); }
          case None => SameTrans(now, k, was, k, before, k, n);
        }
      }
    }
  }

  /** After all pixels of the pass. */
  lemma ScatteredAll(before: seq<nat>, final: seq<nat>, width: nat, height: nat, n: nat, p: nat, pass: seq<nat>)
    requires p < 7 && Scattered(before, final, width, height, n, p, pass, PassWidth(p, width) * PassHeight(p, height))
    ensures IsPass(final, width, height, n, p, pass)
  {
    hide SamePixel, Number, PassWidth, PassHeight;
    var t := PassWidth(p, width) * PassHeight(p, height);
    forall q: nat | q < width * height && Number(width, p, q).Some?
      ensures SamePixel(final, q, pass, Number(width, p, q).value, n)
    {
      assert PixelScattered(before, final, width, n, p, pass, t, q);
      NumberBound(width, height, p, q);
    }
  }

  /** The other passes keep their pixels. */
  lemma OthersStay(before: seq<nat>, final: seq<nat>, width: nat, height: nat, n: nat, p: nat, pass: seq<nat>, t: nat,
                   o: nat, other: seq<nat>)
    requires p < 7 && Scattered(before, final, width, height, n, p, pass, t)
    requires o < 7 && o != p && IsPass(before, width, height, n, o, other)
    ensures IsPass(final, width, height, n, o, other)
  {
    hide SamePixel, GridRow, GridColumn, Times, PassWidth, PassOf;
    forall q: nat | q < width * height && Number(width, o, q).Some?
      ensures SamePixel(final, q, other, Number(width, o, q).value, n)
    {
      assert PixelScattered(before, final, width, n, p, pass, t, q);
      assert Number(width, p, q).None?;
      SameTrans(final, q, before, q, other, Number(width, o, q).value, n);
    }
  }

  lemma FlatInside(q: nat, size: nat, n: nat)
    requires q < size
    ensures q * n + n <= size * n
  {
    MulNext(q, size, n);
  }

  /** Copies the samples of one pixel. */
  method MovePixel(final: array<nat>, q: nat, out: array<nat>, m: nat, n: nat)
    requires final != out && q * n + n <= final.Length && m * n + n <= out.Length
    modifies final
    ensures PixelMoved(old(final[..]), final[..], q, out[..], m, n)
  {
    ghost var was := final[..];
    for ch := 0 to n
      invariant forall k :: 0 <= k < final.Length ==>
                              final[k] == if q * n <= k < q * n + ch then out[m * n + (k - q * n)] else was[k]
    {
      final[q * n + ch] := out[m * n + ch];
    }
    MovedIs(was, final[..], q, out[..], m, n);
  }

  lemma MovedIs(was: seq<nat>, now: seq<nat>, q: nat, other: seq<nat>, m: nat, n: nat)
    requires |now| == |was| && q * n + n <= |was| && m * n + n <= |other|
    requires forall k :: 0 <= k < |now| ==>
                           now[k] == if q * n <= k < q * n + n then other[m * n + (k - q * n)] else was[k]
    ensures PixelMoved(was, now, q, other, m, n)
  {
    forall ch: nat | ch < n ensures SampleAt(now, Flat(q, n, ch)) == SampleAt(other, Flat(m, n, ch)) {}
    forall k: nat | k != q ensures SamePixel(now, k, was, k, n) {
      forall ch: nat | ch < n ensures SampleAt(now, Flat(k, n, ch)) == SampleAt(was, Flat(k, n, ch)) {
        NotWithin(q, k, n, ch);
      }
    }
  }

  lemma NotWithin(q: nat, k: nat, n: nat, ch: nat)
    requires k != q && ch < n
    ensures !(q * n <= Flat(k, n, ch) < q * n + n)
  {
    if q < k { MulNext(q, k, n); } else { MulNext(k, q, n); }
  }

  /** Puts the pixels of pass `p` into their places. */
  method Scatter(final: array<nat>, out: array<nat>, width: nat, height: nat, n: nat, p: nat)
    requires final != out && p < 7 && final.Length == width * height * n
    requires out.Length == PassWidth(p, width) * PassHeight(p, height) * n
    modifies final
    ensures Scattered(old(final[..]), final[..], width, height, n, p, out[..],
                      PassWidth(p, width) * PassHeight(p, height))
  {
    hide *;
    ghost var before := final[..];
    var x, y := PassWidth(p, width), PassHeight(p, height);
    ScatteredNone(before, width, height, n, p, out[..]);
    for j := 0 to y
      invariant Scattered(before, final[..], width, height, n, p, out[..], j * x)
    {
      for i := 0 to x
        invariant Scattered(before, final[..], width, height, n, p, out[..], j * x + i)
      {
        var q := (j * StepY(p) + PassY(p)) * width + (i * StepX(p) + PassX(p));
        PlaceIs(width, p, i, j);
        NumberOfPlace(width, height, p, i, j);
        FlatInside(q, width * height, n);
        MulNext(j, y, x);
        assert x * y == y * x;
        FlatInside(j * x + i, x * y, n);
        ghost var was := final[..];
        MovePixel(final, q, out, j * x + i, n);
        ScatteredNext(before, was, final[..], width, height, n, p, out[..], j * x + i, q);
      }
      assert (j + 1) * x == j * x + x;
    }
    assert y * x == x * y;
  }

  lemma PlaceIs(width: nat, p: nat, i: nat, j: nat)
    ensures Place(width, p, i, j) == (j * StepY(p) + PassY(p)) * width + (i * StepX(p) + PassX(p))
  {
  }

  // ---- all passes ----

  /** Rounding up also gives zero for an image that ends before the first column or row of a pass. */
  lemma PassSize(p: nat, width: nat, height: nat)
    requires StepX(p) > 0 && StepY(p) > 0
    ensures (width - PassX(p) + StepX(p) - 1) / StepX(p) == PassWidth(p, width)
    ensures (height - PassY(p) + StepY(p) - 1) / StepY(p) == PassHeight(p, height)
  {
  }

  predicate HasPixels(width: nat, height: nat, p: nat) {
    PassWidth(p, width) > 0 && PassHeight(p, height) > 0
  }

  /** The data of pass `p`. */
  ghost function PassData(data: seq<Byte>, imgN: nat, width: nat, height: nat, depth: nat, p: nat): seq<Byte> {
    var at := PassStart(imgN, width, height, depth, p);
    if at <= |data| then data[at..] else []
  }

  /** Pass `p` cannot be decoded. */
  ghost predicate PassBad(data: seq<Byte>, imgN: nat, width: nat, height: nat, depth: nat, p: nat) {
    HasPixels(width, height, p)
    && Undecodable(PassData(data, imgN, width, height, depth, p), imgN, PassWidth(p, width), PassHeight(p, height),
                   depth)
  }

  /** Pass `p` has been decoded from its data, and its pixels are those of the final image. */
  ghost predicate PassGood(data: seq<Byte>, imgN: nat, outN: nat, width: nat, height: nat, depth: nat, grey: bool,
                           final: seq<nat>, p: nat, rows: seq<Row>, pass: seq<nat>)
  {
    && Wanted(imgN, outN) && IsPass(final, width, height, outN, p, pass)
    && (HasPixels(width, height, p) ==>
          Decoded(PassData(data, imgN, width, height, depth, p), imgN, outN, PassWidth(p, width),
                  PassHeight(p, height), depth, grey, rows, pass))
  }

  ghost predicate PassesDone(data: seq<Byte>, imgN: nat, outN: nat, width: nat, height: nat, depth: nat, grey: bool,
                             final: seq<nat>, rows: seq<seq<Row>>, passes: seq<seq<nat>>)
  {
    |rows| == |passes|
    && forall p: nat :: p < |passes| ==>
                          PassGood(data, imgN, outN, width, height, depth, grey, final, p, rows[p], passes[p])
  }

  lemma PassesStart(data: seq<Byte>, imgN: nat, outN: nat, width: nat, height: nat, depth: nat, grey: bool,
      final: seq<nat>)
    ensures PassesDone(data, imgN, outN, width, height, depth, grey, final, [], [])
  {
  }

  lemma PassesNext(data: seq<Byte>, imgN: nat, outN: nat, width: nat, height: nat, depth: nat, grey: bool,
                   was: seq<nat>, final: seq<nat>, rows: seq<seq<Row>>, passes: seq<seq<nat>>, row: seq<Row>,
                   pass: seq<nat>)
    requires PassesDone(data, imgN, outN, width, height, depth, grey, was, rows, passes) && |passes| < 7
    requires PassGood(data, imgN, outN, width, height, depth, grey, final, |passes|, row, pass)
    requires forall o, other :: 0 <= o < 7 && o != |passes| && IsPass(was, width, height, outN, o, other) ==>
               IsPass(final, width, height, outN, o, other)
    ensures PassesDone(data, imgN, outN, width, height, depth, grey, final, rows + [row], passes + [pass])
  {
    hide IsPass, HasPixels, Decoded;
    var more, all := passes + [pass], rows + [row];
    forall p: nat | p < |more|
      ensures PassGood(data, imgN, outN, width, height, depth, grey, final, p, all[p], more[p])
    {
      if p < |passes| { assert PassGood(data, imgN, outN, width, height, depth, grey, was, p, rows[p], passes[p]); }
    }
  }

  /** A pass without pixels is fine as it is. */
  lemma PassEmpty(data: seq<Byte>, imgN: nat, outN: nat, width: nat, height: nat, depth: nat, grey: bool,
      final: seq<nat>, p: nat)
    requires Wanted(imgN, outN) && p < 7 && !HasPixels(width, height, p)
    ensures PassGood(data, imgN, outN, width, height, depth, grey, final, p, [], [])
    ensures PassStart(imgN, width, height, depth, p + 1) == PassStart(imgN, width, height, depth, p)
  {
    hide Number, PassWidth, PassHeight;
    forall q: nat | q < width * height ensures Number(width, p, q).None? {
      if Number(width, p, q).Some? { NumberBound(width, height, p, q); }
    }
  }

  lemma PassFull(data: seq<Byte>, imgN: nat, outN: nat, width: nat, height: nat, depth: nat, grey: bool,
                 final: seq<nat>, p: nat, rows: seq<Row>, pass: seq<nat>)
    requires Wanted(imgN, outN) && IsPass(final, width, height, outN, p, pass)
    requires Decoded(PassData(data, imgN, width, height, depth, p), imgN, outN, PassWidth(p, width),
                     PassHeight(p, height), depth, grey, rows, pass)
    ensures PassGood(data, imgN, outN, width, height, depth, grey, final, p, rows, pass)
    ensures |pass| == PassWidth(p, width) * outN * PassHeight(p, height)
  {
    hide IsPass, ImageRows, ImageShown, Undecodable;
  }

  /** Each pass takes the bytes after those of the one before. */
  lemma PassBegins(data: seq<Byte>, imgN: nat, width: nat, height: nat, depth: nat, p: nat, at: nat)
    requires at == PassStart(imgN, width, height, depth, p) && at <= |data|
    ensures PassData(data, imgN, width, height, depth, p) == data[at..]
  {
  }

  lemma PassEnds(data: seq<Byte>, imgN: nat, width: nat, height: nat, depth: nat, p: nat)
    requires HasPixels(width, height, p)
    ensures PassStart(imgN, width, height, depth, p + 1) ==
            PassStart(imgN, width, height, depth, p) + (RowBytes(imgN, PassWidth(p, width), depth) + 1) * PassHeight(p,
                    height)
  {
  }

  lemma DecodableLength(data: seq<Byte>, imgN: nat, x: nat, y: nat, depth: nat)
    requires !Undecodable(data, imgN, x, y, depth)
    ensures (RowBytes(imgN, x, depth) + 1) * y <= |data|
  {
  }

  lemma PassBadIs(data: seq<Byte>, imgN: nat, width: nat, height: nat, depth: nat, p: nat)
    ensures PassBad(data, imgN, width, height, depth, p) <==>
              (HasPixels(width, height, p)
               && Undecodable(PassData(data, imgN, width, height, depth, p), imgN, PassWidth(p, width),
                              PassHeight(p, height), depth))
    ensures HasPixels(width, height, p) <==> PassWidth(p, width) != 0 && PassHeight(p, height) != 0
  {
  }

  lemma FirstStart(imgN: nat, width: nat, height: nat, depth: nat)
    ensures PassStart(imgN, width, height, depth, 0) == 0
  {
  }

  lemma Products(x: nat, n: nat, y: nat)
    ensures x * n * y == x * y * n
  {
    assert x * (n * y) == x * (y * n);
  }

  /** Decodes an interlaced image. The passes take their bytes one after another, an empty pass none; every pixel of the
      image is that of its place in its pass. Only a pass that cannot be decoded is refused. */
  method CreateImage(data: seq<Byte>, imgN: nat, outN: nat, width: nat, height: nat, depth: nat, grey: bool)
    returns (ok: bool, final: array<nat>, ghost rows: seq<seq<Row>>, ghost passes: seq<seq<nat>>)
    requires Wanted(imgN, outN) && imgN > 0 && Depth(depth)
    ensures ok <==> forall p :: 0 <= p < 7 ==> !PassBad(data, imgN, width, height, depth, p)
    ensures ok ==> final.Length == width * height * outN && |passes| == 7
                   && PassesDone(data, imgN, outN, width, height, depth, grey, final[..], rows, passes)
    ensures fresh(final)
  {
    hide *;
    final := new nat[width * height * outN];
    rows, passes := [], [];
    var imageData := 0;
    FirstStart(imgN, width, height, depth);
    PassesStart(data, imgN, outN, width, height, depth, grey, final[..]);
    for p := 0 to 7
      invariant |passes| == p && imageData == PassStart(imgN, width, height, depth, p) <= |data|
      invariant PassesDone(data, imgN, outN, width, height, depth, grey, final[..], rows, passes)
      invariant forall o :: 0 <= o < p ==> !PassBad(data, imgN, width, height, depth, o)
    {
      StepsPositive(p);
      PassSize(p, width, height);
      var x: nat := (width - PassX(p) + StepX(p) - 1) / StepX(p);
      var y: nat := (height - PassY(p) + StepY(p) - 1) / StepY(p);
      PassBadIs(data, imgN, width, height, depth, p);
      PassBegins(data, imgN, width, height, depth, p, imageData);
      ghost var was := final[..];
      if x != 0 && y != 0 {
        var imgLen := (RowBytes(imgN, x, depth) + 1) * y;
        ghost var passRows;
        var out;
        ok, out, passRows := CreateImageRaw(data[imageData..], imgN, outN, x, y, depth, grey);
        if !ok { return; }
        DecodableLength(data[imageData..], imgN, x, y, depth);
        PassEnds(data, imgN, width, height, depth, p);
        OutLength(data[imageData..], imgN, outN, x, y, depth, grey, passRows, out[..]);
        Products(x, outN, y);
        Scatter(final, out, width, height, outN, p);
        ScatteredAll(was, final[..], width, height, outN, p, out[..]);
        forall o, other | 0 <= o < 7 && o != p && IsPass(was, width, height, outN, o, other)
          ensures IsPass(final[..], width, height, outN, o, other)
        {
          OthersStay(was, final[..], width, height, outN, p, out[..], x * y, o, other);
        }
        PassFull(data, imgN, outN, width, height, depth, grey, final[..], p, passRows, out[..]);
        PassesNext(data, imgN, outN, width, height, depth, grey, was, final[..], rows, passes, passRows, out[..]);
        rows, passes := rows + [passRows], passes + [out[..]];
        imageData := imageData + imgLen;
      } else {
        PassEmpty(data, imgN, outN, width, height, depth, grey, final[..], p);
        PassesNext(data, imgN, outN, width, height, depth, grey, was, final[..], rows, passes, [], []);
        rows, passes := rows + [[]], passes + [[]];
      }
    }
    ok := true;
  }

  lemma OutLength(data: seq<Byte>, imgN: nat, outN: nat, x: nat, y: nat, depth: nat, grey: bool, rows: seq<Row>,
      out: seq<nat>)
    requires Wanted(imgN, outN) && Decoded(data, imgN, outN, x, y, depth, grey, rows, out)
    ensures |out| == x * outN * y
  {
    hide ImageRows, ImageShown, Undecodable;
  }

  /** De-interlacing inverts interlacing: if the passes are those of an image, that image comes out. */
  lemma DeinterlacingInverts(data: seq<Byte>, imgN: nat, outN: nat, width: nat, height: nat, depth: nat, grey: bool,
                             final: seq<nat>, rows: seq<seq<Row>>, passes: seq<seq<nat>>, image: seq<nat>)
    requires |passes| == 7 && PassesDone(data, imgN, outN, width, height, depth, grey, final, rows, passes)
    requires |final| == |image| == width * height * outN
    requires forall p :: 0 <= p < 7 ==> IsPass(image, width, height, outN, p, passes[p])
    ensures final == image
  {
    hide IsPass, HasPixels, Decoded;
    forall p: nat | p < 7 ensures IsPass(final, width, height, outN, p, passes[p]) {
      assert PassGood(data, imgN, outN, width, height, depth, grey, final, p, rows[p], passes[p]);
    }
    PassesDetermine(final, image, width, height, outN, passes);
  }
}

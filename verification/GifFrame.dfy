/**
Where the pixels of a GIF frame go: the order of the rows of an interlaced frame (Appendix E of the GIF89a
specification), and the picture after some of the pixels have been drawn.
 */
module GifFrame {
  import opened Arithmetic
  import opened Bits
  import opened Wrappers

  // ---- the order of rows ----

  /** The first row of every pass over an interlaced frame, and the distance of its rows. */
  function PassStart(p: nat): nat {
    if p == 0 then 0 else if p == 1 then 4 else if p == 2 then 2 else 1
  }

  function PassStep(p: nat): nat {
    if p < 2 then 8 else if p == 2 then 4 else 2
  }

  function PassOf(row: nat): (p: nat)
    ensures p < 4 && row % PassStep(p) == PassStart(p)
  {
    if row % 8 == 0 then 0 else if row % 8 == 4 then 1 else if row % 4 == 2 then 2 else 3
  }

  /** How many rows are drawn before row `row` of `h`. */
  function Rank(interlaced: bool, h: nat, row: nat): nat {
    if !interlaced then row
    else if PassOf(row) == 0 then row / 8
    else if PassOf(row) == 1 then (h + 7) / 8 + row / 8
    else if PassOf(row) == 2 then (h + 7) / 8 + (h + 3) / 8 + row / 4
    else (h + 7) / 8 + (h + 3) / 8 + (h + 1) / 4 + row / 2
  }

  lemma RankBound(interlaced: bool, h: nat, row: nat)
    requires row < h
    ensures Rank(interlaced, h, row) < h
  {
    if interlaced && PassOf(row) >= 2 { RowCounts(h); }
  }

  /** No two rows are drawn at the same time. */
  lemma RankInjective(interlaced: bool, h: nat, row: nat, other: nat)
    requires row < h && other < h && Rank(interlaced, h, row) == Rank(interlaced, h, other)
    ensures row == other
  {
    if interlaced {
      assert Rank(true, h, row) == Rank(true, h, other);
      var p, q := PassOf(row), PassOf(other);
      if p != q { RankOrder(h, row, other); RankOrder(h, other, row); }
    }
  }

  lemma RankOrder(h: nat, row: nat, other: nat)
    requires row < h && other < h && PassOf(row) < PassOf(other)
    ensures Rank(true, h, row) < Rank(true, h, other)
  {
  }

  /** Within a pass the next row comes next. */
  lemma NextInPass(h: nat, row: nat)
    requires row + PassStep(PassOf(row)) < h
    ensures PassOf(row + PassStep(PassOf(row))) == PassOf(row)
    ensures Rank(true, h, row + PassStep(PassOf(row))) == Rank(true, h, row) + 1
  {
  }

  /** After the last row of a pass comes the first row of the next pass that has one. */
  lemma NextPass(h: nat, row: nat, q: nat)
    requires row < h <= row + PassStep(PassOf(row)) && PassOf(row) < q < 4 && PassStart(q) < h
    requires forall p :: PassOf(row) < p < q ==> PassStart(p) >= h
    ensures PassOf(PassStart(q)) == q && Rank(true, h, PassStart(q)) == Rank(true, h, row) + 1
  {
    assert PassOf(row) + 1 < q ==> PassStart(PassOf(row) + 1) >= h;
    assert PassOf(row) + 2 < q ==> PassStart(PassOf(row) + 2) >= h;
  }

  lemma LastRow(h: nat, row: nat)
    requires row < h <= row + PassStep(PassOf(row))
    requires forall p :: PassOf(row) < p < 4 ==> PassStart(p) >= h
    ensures Rank(true, h, row) + 1 == h
  {
    if PassOf(row) < 3 {
      assert PassStart(3) >= h;
      assert row == 0;
    } else {
      RowCounts(h);
    }
  }

  /** The even rows are those of the first three passes. */
  lemma RowCounts(h: nat)
    ensures (h + 7) / 8 + (h + 3) / 8 == (h + 3) / 4
    ensures (h + 3) / 4 + (h + 1) / 4 == (h + 1) / 2
  {
    var k, m := h / 8, h % 8;
    assert (h + 7) / 8 == if m == 0 then k else k + 1;
    assert (h + 3) / 8 == if m < 5 then k else k + 1;
    assert (h + 3) / 4 == 2 * k + if m == 0 then 0 else if m < 5 then 1 else 2;
    assert (h + 1) / 4 == 2 * k + if m < 3 then 0 else if m < 7 then 1 else 2;
    assert (h + 1) / 2 == 4 * k + (m + 1) / 2;
  }

  /** The rows of a frame of 20 rows in the order in which Appendix E has them. */
  const TWENTY: seq<nat> := [0, 8, 16, 4, 12, 2, 6, 10, 14, 18, 1, 3, 5, 7, 9, 11, 13, 15, 17, 19]

  lemma TwentyRows(k: nat)
    requires k < 20
    ensures Rank(true, 20, TWENTY[k]) == k
  {
  }

  // ---- frames ----

  /** A frame of `w` by `h` pixels at column `x` and row `y` of a picture `pw` pixels wide and `ph` high. */
  datatype Frame = Frame(pw: nat, ph: nat, x: nat, y: nat, w: nat, h: nat, interlaced: bool)

  ghost predicate Fits(f: Frame) {
    f.x + f.w <= f.pw && f.y + f.h <= f.ph
  }

  /** The size of the picture. */
  function Pixels(f: Frame): nat {
    f.pw * f.ph
  }

  function Pixel(f: Frame, row: nat, col: nat): nat {
    (f.y + row) * f.pw + f.x + col
  }

  /** When pixel `p` of the picture is drawn, if it is in the frame. */
  ghost function Turn(f: Frame, p: nat): Option<nat> {
    if f.pw == 0 then None else
    var row, col := p / f.pw, p % f.pw;
    if f.y <= row < f.y + f.h && f.x <= col < f.x + f.w
      then Some(Rank(f.interlaced, f.h, row - f.y) * f.w + (col - f.x)) else None
  }

  /** The pixel in row `row` and column `col` of the frame has its turn as the order says. */
  lemma TurnOf(f: Frame, row: nat, col: nat)
    requires Fits(f) && row < f.h && col < f.w
    ensures Pixel(f, row, col) < Pixels(f)
    ensures Turn(f, Pixel(f, row, col)) == Some(Rank(f.interlaced, f.h, row) * f.w + col)
  {
    DivMod(f.y + row, f.x + col, f.pw);
    MulMonotone(f.y + row + 1, f.ph, f.pw);
    assert (f.y + row + 1) * f.pw == (f.y + row) * f.pw + f.pw;
    assert f.ph * f.pw == f.pw * f.ph;
  }

  /** Every turn is that of one pixel only. */
  lemma TurnOnce(f: Frame, p: nat, q: nat)
    requires Turn(f, p).Some? && Turn(f, p) == Turn(f, q)
    ensures p == q
  {
    hide Rank;
    var row, col, row', col' := p / f.pw - f.y, p % f.pw - f.x, q / f.pw - f.y, q % f.pw - f.x;
    SameQuotient(Rank(f.interlaced, f.h, row), col, Rank(f.interlaced, f.h, row'), col', f.w);
    RankInjective(f.interlaced, f.h, row, row');
    QuotientRemainder(p, f.pw);
    QuotientRemainder(q, f.pw);
  }

  /** The turns of the pixels of a frame are the numbers below its size. */
  lemma TurnBound(f: Frame, p: nat)
    requires Turn(f, p).Some?
    ensures Turn(f, p).value < f.w * f.h
  {
    var row, col := p / f.pw - f.y, p % f.pw - f.x;
    RankBound(f.interlaced, f.h, row);
    var a := Rank(f.interlaced, f.h, row);
    MulMonotone(a + 1, f.h, f.w);
    assert (a + 1) * f.w == a * f.w + f.w && f.h * f.w == f.w * f.h;
  }

  // ---- drawing ----

  type Picture = seq<Byte>

  /** The four bytes of pixel `p` after index `i` of the palette has been drawn over them; the palette holds
      blue, green, red and opacity, and pixels that are not opaque leave things as they were. */
  predicate Coloured(palette: seq<Byte>, before: Picture, after: Picture, p: nat, i: Byte)
    requires |palette| == 1024 && 4 * p + 3 < |before| && |after| == |before|
  {
    if palette[4 * i + 3] > 128 then
      && after[4 * p] == palette[4 * i + 2] && after[4 * p + 1] == palette[4 * i + 1]
      && after[4 * p + 2] == palette[4 * i] && after[4 * p + 3] == palette[4 * i + 3]
    else after[4 * p..4 * p + 4] == before[4 * p..4 * p + 4]
  }

  /** Pixel `p` when the indices `drawn` have been drawn one by one in the order of the frame. */
  ghost predicate PixelDrawn(f: Frame, palette: seq<Byte>, before: Picture, marks: seq<Byte>, drawn: seq<Byte>,
                             after: Picture, marksAfter: seq<Byte>, p: nat)
    requires |palette| == 1024 && 4 * p + 3 < |before| && |after| == |before|
    requires p < |marks| == |marksAfter|
  {
    match Turn(f, p)
    case Some(k) =>
      if k < |drawn| then Coloured(palette, before, after, p, drawn[k]) && marksAfter[p] == 1
      else after[4 * p..4 * p + 4] == before[4 * p..4 * p + 4] && marksAfter[p] == marks[p]
    case None => after[4 * p..4 * p + 4] == before[4 * p..4 * p + 4] && marksAfter[p] == marks[p]
  }

  ghost predicate Drawn(f: Frame, palette: seq<Byte>, before: Picture, marks: seq<Byte>, drawn: seq<Byte>,
                        after: Picture, marksAfter: seq<Byte>)
    requires |palette| == 1024 && |before| == |after| == 4 * Pixels(f)
    requires |marks| == |marksAfter| == Pixels(f)
  {
    forall p: nat :: p < Pixels(f) ==> PixelDrawn(f, palette, before, marks, drawn, after, marksAfter, p)
  }
}

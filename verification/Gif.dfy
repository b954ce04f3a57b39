/**
The GIF raster decoder of 3rd_party/imageHelper/stb_image.h: a table of prefix, first letter and suffix
for every code, a bit buffer fed from sub-blocks, and a cursor that moves over the frame as pixels are
drawn. The ghost field `drawn` holds the colour indices drawn so far.
 */
module Gif {
  import opened Arithmetic
  import opened Bits
  import opened LsbStream
  import opened LzwSpec
  import opened GifFrame
  import opened Wrappers

  const TABLE_SIZE: nat := 8192

  datatype Entry = Entry(prefix: int, first: Byte, suffix: Byte)

  // ---- the table ----

  /** Entry `c` of the table stands for string `c` of the dictionary. */
  ghost predicate EntryFor(cs: nat, codes: seq<Entry>, dict: seq<Str>, c: nat)
    requires c < |codes| && c < |dict|
  {
    var e := codes[c];
    && -1 <= e.prefix < c && e.prefix != Clear(cs) && e.prefix != Clear(cs) + 1
    && dict[c] == (if e.prefix < 0 then [] else dict[e.prefix]) + [e.suffix]
    && dict[c][0] == e.first
  }

  predicate Special(cs: nat, c: nat) {
    c == Clear(cs) || c == Clear(cs) + 1
  }

  ghost predicate TableFor(cs: nat, codes: seq<Entry>, dict: seq<Str>) {
    && |codes| == TABLE_SIZE && Clear(cs) + 2 <= |dict| <= TABLE_SIZE
    && forall c: nat :: c < |dict| && !Special(cs, c) ==> EntryFor(cs, codes, dict, c)
  }

  ghost predicate RootsDone(codes: seq<Entry>, n: nat) {
    n <= |codes| == TABLE_SIZE && forall c :: 0 <= c < n ==> codes[c] == Entry(-1, c % 256, c % 256)
  }

  lemma RootsTable(cs: nat, codes: seq<Entry>)
    requires cs <= 12 && RootsDone(codes, Clear(cs))
    ensures TableFor(cs, codes, Roots(cs))
  {
    Pow2Monotone(cs, 12);
    Twelve();
  }

  /** Emptying the dictionary leaves the roots. */
  lemma RootsStay(cs: nat, codes: seq<Entry>, dict: seq<Str>)
    requires TableFor(cs, codes, dict) && Dictionary(cs, dict)
    ensures TableFor(cs, codes, Roots(cs))
  {
    forall c: nat | c < Clear(cs) ensures EntryFor(cs, codes, Roots(cs), c) {
      assert EntryFor(cs, codes, dict, c);
      assert dict[c] == [c % 256];
      if codes[c].prefix >= 0 {
        assert !Special(cs, codes[c].prefix);
        assert dict[codes[c].prefix] == [codes[c].prefix % 256];
      }
    }
  }

  /** The next entry, when string `w` of code `code` follows the string of `old`. */
  lemma TableGrows(cs: nat, codes: seq<Entry>, dict: seq<Str>, old0: nat, w: Str, e: Entry)
    requires TableFor(cs, codes, dict) && Dictionary(cs, dict)
    requires |dict| < TABLE_SIZE && old0 < |dict| && !Special(cs, old0) && w != []
    requires e == Entry(old0, codes[old0].first, w[0])
    ensures TableFor(cs, codes[|dict| := e], dict + [dict[old0] + w[..1]])
  {
    var more, next := codes[|dict| := e], dict + [dict[old0] + w[..1]];
    assert EntryFor(cs, codes, dict, old0);
    forall c: nat | c < |next| && !Special(cs, c) ensures EntryFor(cs, more, next, c) {
      if c < |dict| { assert EntryFor(cs, codes, dict, c); }
    }
  }

  // ---- the bits ----

  /** `buffered` bits are what has been read of the payload from bit `at` on, and the rest of the payload
      follows from position `q` with `len` bytes left in the sub-block. */
  ghost predicate Feeding(s: seq<Byte>, data: seq<Byte>, at: nat, buffered: nat, bits: nat, q: nat, len: nat) {
    && (at + buffered) % 8 == 0 && at + buffered <= 8 * |data|
    && bits == Field(data, at, buffered)
    && data[(at + buffered) / 8..] == Rest(s, q, len)
  }

  lemma FeedingBegins(s: seq<Byte>, q: nat)
    ensures Feeding(s, Rest(s, q, 0), 0, 0, 0, q, 0)
  {
  }

  /** With no byte left in the sub-block, its successor's length decides. */
  lemma FeedingBlock(s: seq<Byte>, data: seq<Byte>, at: nat, buffered: nat, bits: nat, q: nat)
    requires Feeding(s, data, at, buffered, bits, q, 0)
    ensures ByteAt(s, q) != 0 ==> Feeding(s, data, at, buffered, bits, q + 1, ByteAt(s, q))
    ensures ByteAt(s, q) == 0 ==> at + buffered == 8 * |data|
  {
  }

  lemma FeedingByte(s: seq<Byte>, data: seq<Byte>, at: nat, buffered: nat, bits: nat, q: nat, len: nat)
    requires Feeding(s, data, at, buffered, bits, q, len) && len > 0
    ensures at + buffered + 8 <= 8 * |data|
    ensures Feeding(s, data, at, buffered + 8, Or(bits, Shl(ByteAt(s, q), buffered)), q + 1, len - 1)
  {
    var i := (at + buffered) / 8;
    assert Rest(s, q, len)[0] == ByteAt(s, q);
    assert data[i..][0] == data[i] == ByteAt(data, i);
    assert data[i + 1..] == data[i..][1..];
    AppendByte(data, at, buffered, i);
  }

  lemma FeedingCode(s: seq<Byte>, data: seq<Byte>, at: nat, buffered: nat, bits: nat, q: nat, len: nat, n: nat)
    requires Feeding(s, data, at, buffered, bits, q, len) && n <= buffered
    ensures Pow2(n) > 0 && And(bits, Pow2(n) - 1) == Field(data, at, n)
    ensures Feeding(s, data, at + n, buffered - n, Shr(bits, n), q, len)
  {
    AndMask(bits, n);
    LsbValSplit(Window(data, at, buffered), n);
    WindowSplit(data, at, buffered, n);
  }

  // ---- the cursor ----

  /** The offset of row `row` of the picture in the output buffer, four bytes a pixel. */
  function LineAt(f: Frame, row: nat): nat {
    row * (4 * f.pw)
  }

  lemma LineIs(f: Frame, row: nat, line: nat)
    requires line == 4 * f.pw
    ensures row * line == LineAt(f, row) && (row == 0 ==> LineAt(f, row) == 0)
  {
  }

  lemma PixelOffset(f: Frame, row: nat, col: nat)
    ensures 4 * f.x + 4 * col + (LineAt(f, f.y) + LineAt(f, row)) == 4 * Pixel(f, row, col)
  {
    assert f.y * (4 * f.pw) == 4 * (f.y * f.pw) && row * (4 * f.pw) == 4 * (row * f.pw);
    assert (f.y + row) * f.pw == f.y * f.pw + row * f.pw;
  }

  lemma LineReached(f: Frame, row: nat, h: nat)
    requires f.pw > 0
    ensures LineAt(f, row) >= LineAt(f, h) <==> row >= h
  {
    if row < h { MulNext(row, h, 4 * f.pw); } else { MulMonotone(h, row, 4 * f.pw); }
  }

  lemma LineSum(f: Frame, row: nat, k: nat)
    ensures LineAt(f, row) + LineAt(f, k) == LineAt(f, row + k)
  {
    assert row * (4 * f.pw) + k * (4 * f.pw) == (row + k) * (4 * f.pw);
  }

  function Size(f: Frame): nat {
    f.w * f.h
  }

  function TurnAt(f: Frame, row: nat, col: nat): nat {
    Rank(f.interlaced, f.h, row) * f.w + col
  }

  /** The distance of the rows in the pass of row `row`. */
  function Stride(f: Frame, row: nat): nat {
    if f.interlaced then PassStep(PassOf(row)) else 1
  }

  /** Where the cursor is when `k` pixels have been drawn. */
  ghost predicate CursorAt(f: Frame, k: nat, row: nat, col: nat, curX: nat, curY: nat, step: nat, parse: nat) {
    if k >= Size(f) then curY >= LineAt(f, f.y) + LineAt(f, f.h)
    else
      && row < f.h && col < f.w && TurnAt(f, row, col) == k
      && curX == 4 * f.x + 4 * col && curY == LineAt(f, f.y) + LineAt(f, row)
      && step == LineAt(f, Stride(f, row)) && if f.interlaced then parse + PassOf(row) == 3 else parse == 0
  }

  class Decoder {
    const s: seq<Byte>
    const codes: array<Entry>
    const out: array<Byte>
    const history: array<Byte>
    const palette: seq<Byte>
    var pos: nat
    var lineSize: nat
    var startX: nat
    var startY: nat
    var maxX: nat
    var maxY: nat
    var curX: nat
    var curY: nat
    var step: nat
    var parse: nat
    ghost var frame: Frame
    ghost var row: nat
    ghost var col: nat
    ghost var drawn: seq<Byte>
    ghost var before: Picture
    ghost var marks: seq<Byte>

    constructor (input: seq<Byte>, at: nat, w: nat, h: nat, picture: array<Byte>, touched: array<Byte>,
        colours: seq<Byte>)
      requires at <= |input| && |colours| == 1024 && picture.Length == 4 * (w * h) && touched.Length == w * h
      requires picture != touched
      ensures s == input && pos == at && out == picture && history == touched && palette == colours
      ensures codes.Length == TABLE_SIZE && fresh(codes)
    {
      s, pos, out, history, palette := input, at, picture, touched, colours;
      codes := new Entry[TABLE_SIZE](_ => Entry(-1, 0, 0));
      lineSize, startX, startY, maxX, maxY, curX, curY, step, parse := 4 * w, 0, 0, 0, 0, 0, 0, 0, 0;
    }

    /** The frame's geometry, the cursor in it and the pixels drawn so far. */
    ghost predicate Drawing()
      reads `lineSize, `startX, `startY, `maxX, `maxY, `curX, `curY, `step, `parse
      reads `frame, `row, `col, `drawn, `before, `marks, out, history
    {
      && |palette| == 1024 && out != history && Fits(frame)
      && out.Length == 4 * Pixels(frame) && history.Length == Pixels(frame)
      && |before| == out.Length && |marks| == history.Length
      && lineSize == 4 * frame.pw && startX == 4 * frame.x && startY == LineAt(frame, frame.y)
      && maxX == startX + 4 * frame.w && maxY == startY + LineAt(frame, frame.h)
      && CursorAt(frame, |drawn|, row, col, curX, curY, step, parse)
      && Drawn(frame, palette, before, marks, drawn, out[..], history[..])
    }

    /** Takes up the rectangle of an image descriptor. */
    method BeginFrame(pw: nat, ph: nat, x: nat, y: nat, w: nat, h: nat, interlaced: bool) returns (ok: bool)
      requires |palette| == 1024 && out != history && out.Length == 4 * Pixels(Frame(pw, ph, x, y, w, h, interlaced))
      requires history.Length == Pixels(Frame(pw, ph, x, y, w, h, interlaced))
      modifies this
      ensures (ok <==> x + w <= pw && y + h <= ph) && pos == old(pos)
      ensures ok ==> Drawing() && frame == Frame(pw, ph, x, y, w, h, interlaced) && drawn == []
                     && before == out[..] && marks == history[..]
    {
      hide *;
      ghost var f := Frame(pw, ph, x, y, w, h, interlaced);
      FitsIs(f);
      if x + w > pw || y + h > ph { return false; }
      SetRectangle(pw, x, y, w, h, interlaced, f);
      frame, row, col, drawn, before, marks := f, 0, 0, [], out[..], history[..];
      DrawnNone(f, palette, before, marks);
      DrawingWhole();
      ok := true;
    }

    /** Sets the bounds of the rectangle and the cursor to its first pixel. */
    method SetRectangle(pw: nat, x: nat, y: nat, w: nat, h: nat, interlaced: bool, ghost f: Frame)
      requires f.pw == pw && f.x == x && f.y == y && f.w == w && f.h == h && f.interlaced == interlaced
      modifies this`lineSize, this`startX, this`startY, this`maxX, this`maxY, this`curX, this`curY, this`step,
      this`parse
      ensures lineSize == 4 * f.pw && startX == 4 * f.x && startY == LineAt(f, f.y)
      ensures maxX == startX + 4 * f.w && maxY == startY + LineAt(f, f.h)
      ensures CursorAt(f, 0, 0, 0, curX, curY, step, parse)
    {
      hide *;
      lineSize := pw * 4;
      LineIs(f, y, lineSize);
      LineIs(f, h, lineSize);
      LineIs(f, if interlaced then 8 else 1, lineSize);
      startX, startY := x * 4, y * lineSize;
      maxX, maxY := startX + w * 4, startY + h * lineSize;
      curX, curY := startX, startY;
      if w == 0 { curY := maxY; }
      if interlaced {
        step, parse := 8 * lineSize, 3;
      } else {
        step, parse := lineSize, 0;
      }
      FirstPixel(f, curX, curY, step, parse);
    }

    static lemma FitsIs(f: Frame)
      ensures Fits(f) <==> f.x + f.w <= f.pw && f.y + f.h <= f.ph
    {
    }

    static lemma FirstPixel(f: Frame, curX: nat, curY: nat, step: nat, parse: nat)
      requires curX == 4 * f.x
      requires curY == LineAt(f, f.y) + if f.w == 0 then LineAt(f, f.h) else 0
      requires if f.interlaced then step == LineAt(f, 8) && parse == 3 else step == LineAt(f, 1) && parse == 0
      ensures CursorAt(f, 0, 0, 0, curX, curY, step, parse)
    {
      LineIs(f, 0, 4 * f.pw);
      if f.w > 0 && f.h > 0 {
        MulNext(0, f.h, f.w);
      } else if f.w > 0 {
        LineIs(f, f.h, 4 * f.pw);
      }
    }

    /** Draws one pixel and moves the cursor, unless the frame is full. */
    method Plot(i: Byte)
      requires Drawing()
      modifies this`curX, this`curY, this`step, this`parse, this`row, this`col, this`drawn, out, history
      ensures Drawing() && drawn == old(drawn) + [i]
    {
      hide *;
      DrawingParts();
      if curY >= maxY {
        FullFrame(frame, |drawn|, row, col, curX, curY, step, parse);
        DrawnFull(frame, palette, before, marks, drawn, out[..], history[..], i);
        CursorFull(frame, |drawn|, row, col, curX, curY, step, parse);
        drawn := drawn + [i];
        DrawingWhole();
        return;
      }
      NotFull(frame, |drawn|, row, col, curX, curY, step, parse);
      PixelOffset(frame, row, col);
      TurnOf(frame, row, col);
      var idx := curX + curY;
      ghost var p := Pixel(frame, row, col);
      assert idx == 4 * p && idx / 4 == p;
      ghost var picture, touched := out[..], history[..];
      PutPixel(idx, i, p);
      DrawnNext(frame, palette, before, marks, drawn, picture, touched, out[..], history[..], p, i);
      drawn := drawn + [i];
      Advance();
      DrawingWhole();
    }

    /** Marks a pixel and writes its four bytes, unless the colour is transparent. */
    method PutPixel(idx: nat, i: Byte, ghost p: nat)
      requires idx == 4 * p && |palette| == 1024 && out != history && out.Length == 4 * history.Length
      requires p < history.Length
      modifies out, history
      ensures OnlyPixel(old(out[..]), out[..], old(history[..]), history[..], p)
      ensures Coloured(palette, old(out[..]), out[..], p, i)
    {
      history[idx / 4] := 1;
      if palette[4 * i + 3] > 128 {
        out[idx] := palette[4 * i + 2];
        out[idx + 1] := palette[4 * i + 1];
        out[idx + 2] := palette[4 * i];
        out[idx + 3] := palette[4 * i + 3];
      }
    }

    /** Moves the cursor from the pixel just drawn to the next one. */
    method Advance()
      requires lineSize == 4 * frame.pw && startX == 4 * frame.x && startY == LineAt(frame, frame.y) && lineSize > 0
      requires maxX == startX + 4 * frame.w && maxY == startY + LineAt(frame, frame.h)
      requires |drawn| > 0 && |drawn| <= Size(frame)
      requires CursorAt(frame, |drawn| - 1, row, col, curX, curY, step, parse)
      modifies this`curX, this`curY, this`step, this`parse, this`row, this`col
      ensures CursorAt(frame, |drawn|, row, col, curX, curY, step, parse)
    {
      hide *;
      CursorIs(frame, |drawn| - 1, row, col, curX, curY, step, parse);
      curX := curX + 4;
      if curX >= maxX {
        curX := startX;
        ghost var from: nat, next: nat := row, row + Stride(frame, row);
        LineSum(frame, row, Stride(frame, row));
        curY := curY + step;
        LineReached(frame, next, frame.h);
        SeekBegin(frame, row, parse);
        while curY >= maxY && parse > 0
          invariant curY == startY + LineAt(frame, next) && (curY >= maxY <==> next >= frame.h)
          invariant Seeking(frame, from, next, parse) && step == LineAt(frame, SeekStep(frame, parse))
          decreases parse
          modifies this`curY, this`step, this`parse
        {
          SeekNext(frame, from, next, parse);
          step := Shl(1, parse) * lineSize;
          curY := startY + step / 2;
          parse := parse - 1;
          next := PassStart(3 - parse);
          LineReached(frame, next, frame.h);
        }
        CursorNextRow(frame, |drawn|, from, next, col, curX, curY, step, parse);
        if next < frame.h { row, col := next, 0; }
      } else {
        CursorNextColumn(frame, |drawn|, row, col, curX, curY, step, parse);
        col := col + 1;
      }
    }

    static lemma CursorIs(f: Frame, k: nat, row: nat, col: nat, curX: nat, curY: nat, step: nat, parse: nat)
      requires CursorAt(f, k, row, col, curX, curY, step, parse) && k < Size(f)
      ensures row < f.h && col < f.w && curX == 4 * f.x + 4 * col && curY == LineAt(f, f.y) + LineAt(f, row)
      ensures TurnAt(f, row, col) == k && step == LineAt(f, Stride(f, row))
      ensures if f.interlaced then parse + PassOf(row) == 3 else parse == 0
    {
    }

    static lemma CursorNextColumn(f: Frame, k: nat, row: nat, col: nat, curX: nat, curY: nat, step: nat, parse: nat)
      requires row < f.h && col + 1 < f.w && TurnAt(f, row, col) + 1 == k
      requires curX == 4 * f.x + 4 * (col + 1) && curY == LineAt(f, f.y) + LineAt(f, row)
      requires step == LineAt(f, Stride(f, row)) && if f.interlaced then parse + PassOf(row) == 3 else parse == 0
      ensures CursorAt(f, k, row, col + 1, curX, curY, step, parse)
    {
      hide Rank;
      RankBound(f.interlaced, f.h, row);
      MulNext(Rank(f.interlaced, f.h, row), f.h, f.w);
    }

    /** The cursor at the beginning of the row after `from`, or below the frame. */
    static lemma CursorNextRow(f: Frame, k: nat, from: nat, next: nat, col: nat, curX: nat, curY: nat, step: nat,
        parse: nat)
      requires f.pw > 0 && from < f.h && col < f.w && col + 1 >= f.w && TurnAt(f, from, col) + 1 == k
      requires Seeking(f, from, next, parse) && step == LineAt(f, SeekStep(f, parse)) && (next >= f.h ==> parse == 0)
      requires curX == 4 * f.x && curY == LineAt(f, f.y) + LineAt(f, next)
      ensures next < f.h ==> CursorAt(f, k, next, 0, curX, curY, step, parse)
      ensures next >= f.h ==> CursorAt(f, k, from, col, curX, curY, step, parse)
    {
      hide Rank, PassStart, PassOf, PassStep, LineAt, SeekStep;
      SeekStepIs(f, from, next, parse);
      var r := Rank(f.interlaced, f.h, from);
      NextRow(f, from, next, parse);
      assert (r + 1) * f.w == r * f.w + f.w;
      assert f.h * f.w == f.w * f.h;
      if next < f.h {
        RankBound(f.interlaced, f.h, next);
        MulNext(r + 1, f.h, f.w);
      } else {
        LineReached(f, next, f.h);
      }
    }

    static function SeekStep(f: Frame, parse: nat): nat {
      if f.interlaced && parse <= 3 then PassStep(3 - parse) else 1
    }

    /** Row `next` is the first candidate that has not been rejected for the row after `from`. */
    static ghost predicate Seeking(f: Frame, from: nat, next: nat, parse: nat) {
      if !f.interlaced then parse == 0 && next == from + 1
      else
        && parse + PassOf(from) <= 3
        && (if parse + PassOf(from) == 3 then next == from + PassStep(PassOf(from))
            else next == PassStart(3 - parse) && from + PassStep(PassOf(from)) >= f.h)
        && forall p :: PassOf(from) < p < 3 - parse ==> PassStart(p) >= f.h
    }

    static lemma SeekStepIs(f: Frame, from: nat, next: nat, parse: nat)
      requires Seeking(f, from, next, parse)
      ensures if f.interlaced then parse <= 3 && SeekStep(f, parse) == PassStep(3 - parse) else SeekStep(f, parse) == 1
    {
    }

    static lemma SeekBegin(f: Frame, row: nat, parse: nat)
      requires if f.interlaced then parse + PassOf(row) == 3 else parse == 0
      ensures Seeking(f, row, row + Stride(f, row), parse) && SeekStep(f, parse) == Stride(f, row)
    {
    }

    static lemma SeekNext(f: Frame, from: nat, next: nat, parse: nat)
      requires Seeking(f, from, next, parse) && next >= f.h && parse > 0
      ensures parse <= 3 && Seeking(f, from, PassStart(3 - (parse - 1)), parse - 1)
      ensures Shl(1, parse) * (4 * f.pw) == LineAt(f, SeekStep(f, parse - 1))
      ensures Shl(1, parse) * (4 * f.pw) / 2 == LineAt(f, PassStart(3 - (parse - 1)))
    {
      assert Shl(1, 1) == 2 * Shl(1, 0) && Shl(1, 2) == 2 * Shl(1, 1) && Shl(1, 3) == 2 * Shl(1, 2);
    }

    /** Which row comes after row `from`. */
    static lemma NextRow(f: Frame, from: nat, next: nat, parse: nat)
      requires from < f.h && (next >= f.h ==> parse == 0) && Seeking(f, from, next, parse)
      ensures next < f.h ==> Rank(f.interlaced, f.h, next) == Rank(f.interlaced, f.h, from) + 1
      ensures next < f.h && f.interlaced ==> parse + PassOf(next) == 3
      ensures !f.interlaced ==> parse == 0
      ensures next >= f.h ==> Rank(f.interlaced, f.h, from) + 1 == f.h
    {
      if f.interlaced {
        if parse + PassOf(from) == 3 {
          if next < f.h { NextInPass(f.h, from); } else { LastRow(f.h, from); }
        } else {
          if next < f.h { NextPass(f.h, from, 3 - parse); } else { LastRow(f.h, from); }
        }
      }
    }

    lemma DrawingParts()
      requires Drawing()
      ensures |palette| == 1024 && out != history && Fits(frame)
      ensures out.Length == 4 * Pixels(frame) && history.Length == Pixels(frame)
      ensures |before| == out.Length && |marks| == history.Length
      ensures lineSize == 4 * frame.pw && startX == 4 * frame.x && startY == LineAt(frame, frame.y)
      ensures maxX == startX + 4 * frame.w && maxY == startY + LineAt(frame, frame.h)
      ensures CursorAt(frame, |drawn|, row, col, curX, curY, step, parse)
      ensures Drawn(frame, palette, before, marks, drawn, out[..], history[..])
    {
      hide CursorAt, Drawn, Fits;
    }

    lemma DrawingWhole()
      requires |palette| == 1024 && out != history && Fits(frame)
      requires out.Length == 4 * Pixels(frame) && history.Length == Pixels(frame)
      requires |before| == out.Length && |marks| == history.Length
      requires lineSize == 4 * frame.pw && startX == 4 * frame.x && startY == LineAt(frame, frame.y)
      requires maxX == startX + 4 * frame.w && maxY == startY + LineAt(frame, frame.h)
      requires CursorAt(frame, |drawn|, row, col, curX, curY, step, parse)
      requires Drawn(frame, palette, before, marks, drawn, out[..], history[..])
      ensures Drawing()
    {
      hide CursorAt, Drawn, Fits;
    }

    // ---- the raster ----

    /** The next byte, or zero at the end of the input. */
    method Get8(ghost q: nat) returns (b: Byte)
      requires pos == AtMost(q, |s|)
      modifies this`pos
      ensures b == ByteAt(s, q) && pos == AtMost(q + 1, |s|)
    {
      if pos >= |s| { return 0; }
      b := s[pos];
      pos := pos + 1;
    }

    /** Draws the string of a code, the strings of its prefixes first. */
    method OutGifCode(code: nat, ghost cs: nat, ghost dict: seq<Str>)
      requires Drawing() && TableFor(cs, codes[..], dict) && code < |dict| && !Special(cs, code)
      modifies this`curX, this`curY, this`step, this`parse, this`row, this`col, this`drawn, out, history
      ensures Drawing() && drawn == old(drawn) + dict[code]
      decreases code
    {
      hide *;
      EntryAt(cs, codes[..], dict, code);
      if codes[code].prefix >= 0 { OutGifCode(codes[code].prefix, cs, dict); }
      Plot(codes[code].suffix);
    }

    /** Makes the next entry: the previous code's string and the first letter of this one's. */
    method AddEntry(cs: nat, code: nat, avail: nat, oldcode: nat, ghost st: Lzw) returns (ok: bool)
      requires Decoding(cs, st, codes[..], avail, oldcode) && st.cleared && oldcode >= 0 && code <= avail
      requires !Special(cs, code)
      modifies codes
      ensures ok <==> Decode(cs, TABLE_SIZE, st, code).Next?
      ensures !ok ==> Decode(cs, TABLE_SIZE, st, code) == TooMany
      ensures ok ==> TableFor(cs, codes[..], Decode(cs, TABLE_SIZE, st, code).st.dict)
      ensures ok ==> |Decode(cs, TABLE_SIZE, st, code).st.dict| == avail + 1
    {
      hide *;
      DecodingIs(cs, st, codes[..], avail, oldcode);
      ghost var old0, w := codes[..], if code < |st.dict| then st.dict[code] else st.prev.value + st.prev.value[..1];
      Extends(cs, st, code, w);
      if avail + 1 > TABLE_SIZE { return false; }
      EntryAt(cs, codes[..], st.dict, oldcode);
      if code < avail { EntryAt(cs, codes[..], st.dict, code); }
      TableGrows(cs, codes[..], st.dict, oldcode, w, Entry(oldcode, codes[oldcode].first, w[0]));
      var p := Entry(oldcode, codes[oldcode].first, 0);
      codes[avail] := p;
      codes[avail] := p.(suffix := if code == avail + 1 then p.first else codes[code].first);
      assert codes[..] == old0[|st.dict| := codes[avail]];
      ok := true;
    }

    /** A code for a string: makes the next entry, draws the string and widens the codes if they are all taken. */
    method StringCode(cs: nat, code: nat, avail: nat, oldcode: int, codesize: nat, codemask: nat, ghost st: Lzw)
      returns (ok: bool, newAvail: nat, newSize: nat, newMask: nat)
      requires Drawing() && Decoding(cs, st, codes[..], avail, oldcode) && st.cleared && code <= avail
      requires !Special(cs, code)
      requires codesize == st.width <= 13 && codemask == Pow2(codesize) - 1
      modifies this`curX, this`curY, this`step, this`parse, this`row, this`col, this`drawn, out, history, codes
      ensures Drawing()
      ensures ok <==> Decode(cs, TABLE_SIZE, st, code).Next?
      ensures !ok ==> Decode(cs, TABLE_SIZE, st, code) != End && drawn == old(drawn)
      ensures ok ==> var r := Decode(cs, TABLE_SIZE, st, code);
                     && drawn == old(drawn) + r.emitted && r.st.cleared
                     && Decoding(cs, r.st, codes[..], newAvail, code)
                     && newSize == r.st.width <= 13 && newMask == Pow2(newSize) - 1
    {
      hide *;
      newAvail, newSize, newMask := avail, codesize, codemask;
      DecodingIs(cs, st, codes[..], avail, oldcode);
      DecodeCases(cs, st, code, Clear(cs));
      ghost var r := Decode(cs, TABLE_SIZE, st, code);
      if oldcode >= 0 {
        ok := AddEntry(cs, code, avail, oldcode, st);
        if !ok { return; }
        newAvail := avail + 1;
      } else if code == avail {
        ok := false;
        return;
      }
      DecodedCode(cs, st, code, codes[..]);
      OutGifCode(code, cs, r.st.dict);
      WidthStep(newAvail, codesize);
      if And(newAvail, codemask) == 0 && newAvail <= 0x0FFF {
        newSize := codesize + 1;
        newMask := Shl(1, newSize) - 1;
      }
      ok := true;
    }

    /** Decodes the image data and draws them. Without success the minimum code size is too large, the data are
        not in order, or there are too many codes without a clear code. */
    method ProcessRaster() returns (ok: bool)
      requires Drawing() && codes.Length == TABLE_SIZE && pos <= |s|
      modifies this`pos, this`curX, this`curY, this`step, this`parse, this`row, this`col, this`drawn, out, history,
      codes
      ensures Drawing() && old(drawn) <= drawn
      ensures ok ==> ByteAt(s, old(pos)) <= 12 && Indices(s, old(pos), TABLE_SIZE) == Finished(drawn[|old(drawn)|..])
      ensures !ok ==> ByteAt(s, old(pos)) > 12 || !Indices(s, old(pos), TABLE_SIZE).Finished?
      ensures pos <= |s| && (ok ==> pos == AtMost(AfterBlocks(s, old(pos) + 1), |s|))
    {
      hide *;
      AtMostIs(pos, |s|);
      var lzwCs := Get8(pos);
      if lzwCs > 12 { return false; }
      RootsFit(lzwCs);
      var clear := Shl(1, lzwCs);
      InitCodes(lzwCs, clear);
      CodesBegin(s, old(pos), Rest(s, old(pos) + 1, 0), Indices(s, old(pos), TABLE_SIZE));
      ok := Raster(lzwCs, clear, old(pos) + 1);
    }

    /** One image: in the frame, every pixel whose turn has come shows the index that the standard's decoding has
        for it, and nothing else has changed. Data are refused exactly if that decoding breaks off or is crowded. */
    method Image(pw: nat, ph: nat, x: nat, y: nat, w: nat, h: nat, interlaced: bool) returns (ok: bool)
      requires |palette| == 1024 && out != history && out.Length == 4 * Pixels(Frame(pw, ph, x, y, w, h, interlaced))
      requires history.Length == Pixels(Frame(pw, ph, x, y, w, h, interlaced)) && codes.Length == TABLE_SIZE
      requires pos <= |s|
      modifies this, out, history, codes
      ensures ok <==> x + w <= pw && y + h <= ph && ByteAt(s, old(pos)) <= 12
                      && !CrowdedImage(s, old(pos), TABLE_SIZE) && StandardIndices(s, old(pos)).Finished?
      ensures ok ==> Drawn(Frame(pw, ph, x, y, w, h, interlaced), palette, old(out[..]), old(history[..]),
                           StandardIndices(s, old(pos)).indices, out[..], history[..])
      ensures pos <= |s| && (ok ==> pos == AtMost(AfterBlocks(s, old(pos) + 1), |s|))
    {
      hide *;
      ok := BeginFrame(pw, ph, x, y, w, h, interlaced);
      if !ok { return; }
      if ByteAt(s, pos) <= 12 { IndicesAreStandard(s, pos, TABLE_SIZE); }
      ok := ProcessRaster();
      DrawingParts();
    }

    /** The loop over bits and codes. */
    method Raster(lzwCs: Byte, clear: nat, ghost from: nat) returns (ok: bool)
      requires Drawing() && pos == AtMost(from, |s|) && lzwCs <= 12 && clear == Clear(lzwCs)
      requires TableFor(lzwCs, codes[..], Roots(lzwCs))
      modifies this`pos, this`curX, this`curY, this`step, this`parse, this`row, this`col, this`drawn, out, history,
      codes
      ensures Drawing() && old(drawn) <= drawn
      ensures var r := Codes(lzwCs, TABLE_SIZE, Rest(s, from, 0), 0, Begin(lzwCs, false), []);
              if ok then r == Finished(drawn[|old(drawn)|..]) else !r.Finished?
      ensures pos <= |s| && (ok ==> pos == AtMost(AfterBlocks(s, from), |s|))
    {
      hide *;
      ghost var q: nat, start := from, drawn;
      ghost var out0: seq<Byte>, data: seq<Byte> := [], Rest(s, from, 0);
      ghost var outcome := Codes(lzwCs, TABLE_SIZE, data, 0, Begin(lzwCs, false), []);
      ghost var st: Lzw, at: nat := Begin(lzwCs, false), 0;
      RootsFit(lzwCs);
      var first, codesize: nat, avail: nat, oldcode: int := true, lzwCs + 1, clear + 2, -1;
      var bits: nat, validBits: nat, len: nat := 0, 0, 0;
      var codemask: nat := Shl(1, codesize) - 1;
      DecodingBegins(lzwCs, false, codes[..]);
      FeedingBegins(s, from);
      BeginIs(lzwCs);
      while true
        invariant Drawing() && drawn == start + out0
        invariant AfterBlocks(s, q + len) == AfterBlocks(s, from)
        invariant pos == AtMost(q, |s|) && Feeding(s, data, at, validBits, bits, q, len) && validBits < codesize + 8
        invariant Decoding(lzwCs, st, codes[..], avail, oldcode)
        invariant codesize == st.width <= 13 && codemask == Pow2(codesize) - 1 && first == !st.cleared
        invariant outcome == Codes(lzwCs, TABLE_SIZE, data, at, st, out0)
        decreases 8 * |data| - at - validBits, validBits
      {
        DecodingIs(lzwCs, st, codes[..], avail, oldcode);
        if validBits < codesize {
          if len == 0 {
            len := Get8(q);
            FeedingBlock(s, data, at, validBits, bits, q);
            BlocksStep(s, q);
            q := q + 1;
            if len == 0 {
              CodesEnd(lzwCs, data, at, st, out0);
              return true;
            }
          }
          FeedingByte(s, data, at, validBits, bits, q, len);
          len := len - 1;
          var b := Get8(q);
          bits := Or(bits, Shl(b, validBits));
          validBits, q := validBits + 8, q + 1;
        } else {
          FeedingCode(s, data, at, validBits, bits, q, len, codesize);
          FeedingRange(s, data, at, validBits, bits, q, len);
          CodesStep(lzwCs, data, at, st, out0);
          var code := And(bits, codemask);
          bits, validBits, at := Shr(bits, codesize), validBits - codesize, at + codesize;
          DecodeCases(lzwCs, st, code, clear);
          if code == clear {
            codesize := lzwCs + 1;
            codemask := Shl(1, codesize) - 1;
            avail, oldcode, first := clear + 2, -1, false;
            RootsStay(lzwCs, codes[..], st.dict);
            DecodingBegins(lzwCs, true, codes[..]);
            st := Begin(lzwCs, true);
            assert out0 + [] == out0;
          } else if code == clear + 1 {
            AtMostSum(q, len, |s|);
            pos := AtMost(pos + len, |s|);
            pos := SkipBlocks(s, pos, q + len);
            return true;
          } else if code <= avail {
            if first { return false; }
            ghost var r := Decode(lzwCs, TABLE_SIZE, st, code);
            ok, avail, codesize, codemask := StringCode(lzwCs, code, avail, oldcode, codesize, codemask, st);
            if !ok { return; }
            oldcode := code;
            out0, st := out0 + r.emitted, r.st;
          } else {
            return false;
          }
        }
      }
    }

    /** The entries of the roots. */
    method InitCodes(cs: nat, clear: nat)
      requires codes.Length == TABLE_SIZE && cs <= 12 && clear == Clear(cs) && clear + 2 <= TABLE_SIZE
      modifies codes
      ensures TableFor(cs, codes[..], Roots(cs))
    {
      hide *;
      RootsDoneNone(codes[..]);
      for initCode := 0 to clear
        invariant RootsDone(codes[..], initCode)
      {
        RootsDoneNext(codes[..], initCode);
        codes[initCode] := Entry(-1, initCode % 256, initCode % 256);
      }
      RootsTable(cs, codes[..]);
    }
  }

  // ---- one pixel ----

  /** A cursor below the frame means that it is full. */
  lemma FullFrame(f: Frame, k: nat, row: nat, col: nat, curX: nat, curY: nat, step: nat, parse: nat)
    requires CursorAt(f, k, row, col, curX, curY, step, parse) && curY >= LineAt(f, f.y) + LineAt(f, f.h) && Fits(f)
    ensures k >= Size(f)
  {
    if k < Size(f) {
      FrameSize(f);
      LineReached(f, row, f.h);
    }
  }

  lemma NotFull(f: Frame, k: nat, row: nat, col: nat, curX: nat, curY: nat, step: nat, parse: nat)
    requires CursorAt(f, k, row, col, curX, curY, step, parse) && curY < LineAt(f, f.y) + LineAt(f, f.h)
    ensures k < Size(f) && row < f.h && col < f.w && TurnAt(f, row, col) == k
    ensures Rank(f.interlaced, f.h, row) * f.w + col == k
    ensures curX == 4 * f.x + 4 * col && curY == LineAt(f, f.y) + LineAt(f, row)
    ensures Fits(f) ==> f.pw > 0
  {
  }

  lemma FrameSize(f: Frame)
    requires Fits(f)
    ensures Size(f) > 0 ==> f.pw > 0 && f.w > 0 && f.h > 0
  {
  }

  lemma CursorFull(f: Frame, k: nat, row: nat, col: nat, curX: nat, curY: nat, step: nat, parse: nat)
    requires CursorAt(f, k, row, col, curX, curY, step, parse) && k >= Size(f)
    ensures CursorAt(f, k + 1, row, col, curX, curY, step, parse)
  {
  }

  /** The pixels of a full frame do not change any more. */
  lemma DrawnFull(f: Frame, palette: seq<Byte>, before: Picture, marks: seq<Byte>, drawn: seq<Byte>,
                  after: Picture, marksAfter: seq<Byte>, i: Byte)
    requires |palette| == 1024 && |before| == |after| == 4 * Pixels(f) && |marks| == |marksAfter| == Pixels(f)
    requires Drawn(f, palette, before, marks, drawn, after, marksAfter) && |drawn| >= Size(f)
    ensures Drawn(f, palette, before, marks, drawn + [i], after, marksAfter)
  {
    hide Turn, Coloured;
    forall p: nat | p < Pixels(f) ensures PixelDrawn(f, palette, before, marks, drawn + [i], after, marksAfter, p) {
      assert PixelDrawn(f, palette, before, marks, drawn, after, marksAfter, p);
      if Turn(f, p).Some? { TurnBound(f, p); }
    }
  }

  lemma DrawnNone(f: Frame, palette: seq<Byte>, before: Picture, marks: seq<Byte>)
    requires |palette| == 1024 && |before| == 4 * Pixels(f) && |marks| == Pixels(f)
    ensures Drawn(f, palette, before, marks, [], before, marks)
  {
    hide Turn, Coloured;
  }

  /** Only pixel `p` has changed, and it has been marked. */
  ghost predicate OnlyPixel(was: Picture, now: Picture, marked: seq<Byte>, marksNow: seq<Byte>, p: nat) {
    && |now| == |was| && |marksNow| == |marked| && p < |marked| && marksNow[p] == 1
    && (forall q: nat :: q < |marked| && q != p ==> marksNow[q] == marked[q])
    && (forall b: nat :: b < |was| && (b < 4 * p || b >= 4 * p + 4) ==> now[b] == was[b])
  }

  /** Drawing the next index at the pixel whose turn it is. */
  lemma DrawnNext(f: Frame, palette: seq<Byte>, before: Picture, marks: seq<Byte>, drawn: seq<Byte>,
                  was: Picture, marked: seq<Byte>, now: Picture, marksNow: seq<Byte>, p: nat, i: Byte)
    requires |palette| == 1024 && |before| == |was| == |now| == 4 * Pixels(f)
    requires |marks| == |marked| == |marksNow| == Pixels(f) && p < Pixels(f)
    requires Drawn(f, palette, before, marks, drawn, was, marked) && Turn(f, p) == Some(|drawn|)
    requires OnlyPixel(was, now, marked, marksNow, p) && Coloured(palette, was, now, p, i)
    ensures Drawn(f, palette, before, marks, drawn + [i], now, marksNow)
  {
    hide Turn, OnlyPixel, Coloured;
    forall q: nat | q < Pixels(f) ensures PixelDrawn(f, palette, before, marks, drawn + [i], now, marksNow, q) {
      assert PixelDrawn(f, palette, before, marks, drawn, was, marked, q);
      PixelKept(was, now, marked, marksNow, p, q);
      if q == p {
        ColouredFrom(palette, before, was, now, p, i);
      } else if Turn(f, q).Some? {
        if Turn(f, q) == Turn(f, p) { TurnOnce(f, p, q); }
        if Turn(f, q).value < |drawn| { ColouredKept(palette, before, was, now, q, drawn[Turn(f, q).value]); }
      }
    }
  }

  lemma PixelKept(was: Picture, now: Picture, marked: seq<Byte>, marksNow: seq<Byte>, p: nat, q: nat)
    requires OnlyPixel(was, now, marked, marksNow, p) && 4 * q + 3 < |was| && q < |marked|
    ensures |now| == |was| && |marksNow| == |marked| && marksNow[p] == 1
    ensures q != p ==> now[4 * q..4 * q + 4] == was[4 * q..4 * q + 4] && marksNow[q] == marked[q]
  {
  }

  lemma ColouredFrom(palette: seq<Byte>, before: Picture, was: Picture, now: Picture, p: nat, i: Byte)
    requires |palette| == 1024 && 4 * p + 3 < |before| && |before| == |was| == |now|
    requires was[4 * p..4 * p + 4] == before[4 * p..4 * p + 4] && Coloured(palette, was, now, p, i)
    ensures Coloured(palette, before, now, p, i)
  {
  }

  lemma ColouredKept(palette: seq<Byte>, before: Picture, was: Picture, now: Picture, q: nat, i: Byte)
    requires |palette| == 1024 && 4 * q + 3 < |before| && |before| == |was| == |now|
    requires now[4 * q..4 * q + 4] == was[4 * q..4 * q + 4] && Coloured(palette, before, was, q, i)
    ensures Coloured(palette, before, now, q, i)
  {
    var a, b := now[4 * q..4 * q + 4], was[4 * q..4 * q + 4];
    assert a[0] == b[0] && a[1] == b[1] && a[2] == b[2] && a[3] == b[3];
  }

  // ---- decoding ----

  function AtMost(q: nat, n: nat): (r: nat)
    ensures r <= n
  {
    if q < n then q else n
  }

  /** Passes over the sub-blocks from `from` on. */
  method SkipBlocks(s: seq<Byte>, from: nat, ghost q: nat) returns (pos: nat)
    requires from == AtMost(q, |s|)
    ensures pos == AtMost(AfterBlocks(s, q), |s|)
  {
    pos := from;
    ghost var p: nat := q;
    while pos < |s| && s[pos] != 0
      invariant pos == AtMost(p, |s|) && AfterBlocks(s, p) == AfterBlocks(s, q)
      decreases |s| - pos
    {
      var len: nat := s[pos];
      p := p + 1 + len;
      pos := AtMost(pos + 1 + len, |s|);
    }
    if pos < |s| { pos := pos + 1; }
  }

  lemma BeginIs(cs: nat)
    ensures Begin(cs, false).width == cs + 1 && !Begin(cs, false).cleared
  {
  }

  lemma AtMostSum(q: nat, len: nat, n: nat)
    ensures AtMost(q, n) <= n && AtMost(AtMost(q, n) + len, n) == AtMost(q + len, n)
  {
  }

  lemma BlocksStep(s: seq<Byte>, q: nat)
    ensures AfterBlocks(s, q) == if ByteAt(s, q) == 0 then q + 1 else AfterBlocks(s, q + 1 + ByteAt(s, q))
  {
  }

  lemma AtMostIs(q: nat, n: nat)
    ensures q <= n ==> AtMost(q, n) == q
  {
  }

  lemma RootsDoneNone(codes: seq<Entry>)
    requires |codes| == TABLE_SIZE
    ensures RootsDone(codes, 0)
  {
  }

  lemma RootsDoneNext(codes: seq<Entry>, n: nat)
    requires RootsDone(codes, n) && n < TABLE_SIZE
    ensures RootsDone(codes[n := Entry(-1, n % 256, n % 256)], n + 1)
  {
  }

  lemma RootsFit(cs: nat)
    requires cs <= 12
    ensures Shl(1, cs) == Clear(cs) && Clear(cs) + 2 <= TABLE_SIZE && Pow2(cs + 1) > 0 && Shl(1, cs + 1) == Pow2(cs + 1)
  {
    Pow2Monotone(cs, 12);
    Pow2Monotone(0, cs + 1);
    Twelve();
  }

  lemma EntryAt(cs: nat, codes: seq<Entry>, dict: seq<Str>, c: nat)
    requires TableFor(cs, codes, dict) && c < |dict| && !Special(cs, c)
    ensures |codes| == TABLE_SIZE && |dict| <= TABLE_SIZE && -1 <= codes[c].prefix < c
    ensures codes[c].prefix >= 0 ==>
              !Special(cs, codes[c].prefix) && dict[c] == dict[codes[c].prefix] + [codes[c].suffix]
    ensures codes[c].prefix < 0 ==> dict[c] == [codes[c].suffix]
    ensures dict[c] != [] && dict[c][0] == codes[c].first
  {
    assert EntryFor(cs, codes, dict, c);
  }

  /** The variables of the decoding loop agree with the state of the standard's decoder. */
  ghost predicate Decoding(cs: nat, st: Lzw, codes: seq<Entry>, avail: nat, oldcode: int) {
    && TableFor(cs, codes, st.dict) && Sane(cs, st) && avail == |st.dict| && st.width > 0
    && (oldcode < 0 ==> oldcode == -1 && st.prev.None?)
    && (oldcode >= 0 ==> oldcode < |st.dict| && !Special(cs, oldcode) && st.prev == Some(st.dict[oldcode]))
  }

  lemma DecodingBegins(cs: nat, cleared: bool, codes: seq<Entry>)
    requires TableFor(cs, codes, Roots(cs))
    ensures Decoding(cs, Begin(cs, cleared), codes, Clear(cs) + 2, -1)
  {
    BeginSane(cs, cleared);
  }

  lemma DecodingIs(cs: nat, st: Lzw, codes: seq<Entry>, avail: nat, oldcode: int)
    requires Decoding(cs, st, codes, avail, oldcode)
    ensures TableFor(cs, codes, st.dict) && Sane(cs, st) && Dictionary(cs, st.dict) && |codes| == TABLE_SIZE
    ensures Clear(cs) + 2 <= avail == |st.dict| <= TABLE_SIZE && st.width > 0
    ensures oldcode < 0 ==> oldcode == -1 && st.prev.None?
    ensures oldcode >= 0 ==> oldcode < |st.dict| && !Special(cs, oldcode) && st.prev == Some(st.dict[oldcode])
                             && st.prev.value != []
  {
    hide EntryFor, Dictionary, InDict;
  }

  /** What one code does when there is a previous one. */
  lemma Extends(cs: nat, st: Lzw, code: nat, w: Str)
    requires Sane(cs, st) && st.cleared && st.prev.Some? && code <= |st.dict| && !Special(cs, code)
    requires st.prev.value != []
    requires w == if code < |st.dict| then st.dict[code] else st.prev.value + st.prev.value[..1]
    ensures w != []
    ensures |st.dict| >= TABLE_SIZE ==> Decode(cs, TABLE_SIZE, st, code) == TooMany
    ensures |st.dict| < TABLE_SIZE ==>
              Decode(cs, TABLE_SIZE, st, code).Next?
              && Decode(cs, TABLE_SIZE, st, code).st.dict == st.dict + [st.prev.value + w[..1]]
  {
    if code < |st.dict| { StringAt(cs, st.dict, code); }
  }

  lemma CodesBegin(s: seq<Byte>, p: nat, data: seq<Byte>, outcome: Outcome)
    requires data == Rest(s, p + 1, 0) && outcome == Indices(s, p, TABLE_SIZE)
    ensures outcome == Codes(ByteAt(s, p), TABLE_SIZE, data, 0, Begin(ByteAt(s, p), false), [])
    ensures Begin(ByteAt(s, p), false).width == ByteAt(s, p) as nat + 1 && !Begin(ByteAt(s, p), false).cleared
  {
  }

  lemma CodesEnd(cs: nat, data: seq<Byte>, at: nat, st: Lzw, out: Str)
    requires at + st.width > 8 * |data|
    ensures Codes(cs, TABLE_SIZE, data, at, st, out) == Finished(out)
  {
  }

  lemma CodesStep(cs: nat, data: seq<Byte>, at: nat, st: Lzw, out: Str)
    requires st.width > 0 && at + st.width <= 8 * |data|
    ensures Codes(cs, TABLE_SIZE, data, at, st, out) ==
            match Decode(cs, TABLE_SIZE, st, Field(data, at, st.width))
            case Next(st', emitted) => Codes(cs, TABLE_SIZE, data, at + st.width, st', out + emitted)
            case End => Finished(out)
            case Illegal => Broken
            case TooMany => Overfull
  {
  }

  lemma FeedingRange(s: seq<Byte>, data: seq<Byte>, at: nat, buffered: nat, bits: nat, q: nat, len: nat)
    requires Feeding(s, data, at, buffered, bits, q, len)
    ensures at + buffered <= 8 * |data|
  {
  }

  lemma DecodeCases(cs: nat, st: Lzw, code: nat, clear: nat)
    requires clear == Clear(cs) && Clear(cs) + 2 <= |st.dict|
    ensures Special(cs, code) <==> code == clear || code == clear + 1
    ensures code == clear ==> Decode(cs, TABLE_SIZE, st, code) == Next(Begin(cs, true), [])
    ensures code == clear + 1 ==> Decode(cs, TABLE_SIZE, st, code) == End
    ensures !Special(cs, code) && !st.cleared ==> Decode(cs, TABLE_SIZE, st, code) == Illegal
    ensures !Special(cs, code) && code > |st.dict| ==> Decode(cs, TABLE_SIZE, st, code) == Illegal
    ensures !Special(cs, code) && code == |st.dict| && st.prev.None? ==> Decode(cs, TABLE_SIZE, st, code) == Illegal
    ensures !Special(cs, code) && st.cleared && st.prev.None? && code < |st.dict| ==>
              Decode(cs, TABLE_SIZE, st, code).Next? && Decode(cs, TABLE_SIZE, st, code).st.dict == st.dict
    ensures Begin(cs, true).width == cs + 1 && Begin(cs, true).cleared
  {
  }

  /** After a code that is not special. */
  lemma DecodedCode(cs: nat, st: Lzw, code: nat, codes: seq<Entry>)
    requires Sane(cs, st) && !Special(cs, code) && st.width > 0 && Decode(cs, TABLE_SIZE, st, code).Next?
    requires TableFor(cs, codes, Decode(cs, TABLE_SIZE, st, code).st.dict)
    ensures var r := Decode(cs, TABLE_SIZE, st, code);
            && code < |r.st.dict| && r.emitted == r.st.dict[code] && r.st.cleared
            && r.st.width == Wider(|r.st.dict|, st.width)
            && Decoding(cs, r.st, codes, |r.st.dict|, code)
  {
    hide Sane, TableFor, Decode;
    SaneIs(cs, st, code);
    DecodeSane(cs, TABLE_SIZE, st, code);
    DecodedShape(cs, st, code);
  }

  lemma SaneIs(cs: nat, st: Lzw, code: nat)
    requires Sane(cs, st) && !Special(cs, code)
    ensures st.prev.Some? ==> st.prev.value != []
    ensures code < |st.dict| ==> st.dict[code] != []
  {
    if code < |st.dict| { StringAt(cs, st.dict, code); }
  }

  lemma DecodedShape(cs: nat, st: Lzw, code: nat)
    requires !Special(cs, code) && st.width > 0 && Decode(cs, TABLE_SIZE, st, code).Next?
    requires st.prev.Some? ==> st.prev.value != []
    requires code < |st.dict| ==> st.dict[code] != []
    ensures var r := Decode(cs, TABLE_SIZE, st, code);
            && code < |r.st.dict| && r.emitted == r.st.dict[code] && r.st.cleared && r.st.prev == Some(r.emitted)
            && r.st.width == Wider(|r.st.dict|, st.width)
  {
    hide Wider;
  }


  /** The test on the mask is the rule for the width. */
  lemma WidthStep(n: nat, width: nat)
    requires n > 0
    ensures Pow2(width) > 0 && (And(n, Pow2(width) - 1) == 0 && n <= 0x0FFF <==> Wider(n, width) == width + 1)
    ensures Wider(n, width) == width || Wider(n, width) == width + 1
    ensures width <= 13 ==> Wider(n, width) <= 13
    ensures Shl(1, width + 1) == Pow2(width + 1) > 0
  {
    AndMask(n, width);
    AndMask(n, width + 1);
    if width == 13 && n < 4096 {
      Pow2Monotone(12, 13);
      Twelve();
      LowBound(n, 13);
    }
  }
}

/**
The image blocks of a GIF file around their raster data: colour tables, the transparent colour of a control extension,
the image descriptor, and the background of the first frame. Here the colours are those of the file.
 */
module GifImage {
  import opened Arithmetic
  import opened Bits
  import opened Gif
  import opened GifFrame
  import opened LsbStream
  import opened LzwSpec
  import opened Wrappers

  /** Two bytes, the low one first. */
  function Word(s: seq<Byte>, at: nat): nat {
    ByteAt(s, at) + 256 * ByteAt(s, at + 1)
  }

  /** The number of entries of a colour table: the low three bits of its flags say how many bits their numbers have,
      less one. */
  function Entries(flags: Byte): (n: nat)
    ensures 2 <= n <= 256
  {
    Pow2Monotone(1, flags % 8 + 1);
    Pow2Monotone(flags % 8 + 1, 8);
    Powers();
    Pow2(flags % 8 + 1)
  }

  /** Entry `i` of a palette is that of the table at `at`, and opaque unless it is colour `clear`. */
  ghost predicate Entered(pal: seq<Byte>, s: seq<Byte>, at: nat, i: nat, clear: int) {
    && 4 * i + 3 < |pal|
    && pal[4 * i + 2] == ByteAt(s, at + 3 * i) && pal[4 * i + 1] == ByteAt(s, at + 3 * i + 1)
    && pal[4 * i] == ByteAt(s, at + 3 * i + 2) && pal[4 * i + 3] == if i == clear then 0 else 255
  }

  /** The palette holds the `n` colours at `at`, and all but colour `clear` are opaque. */
  ghost predicate TableEntered(pal: seq<Byte>, s: seq<Byte>, at: nat, n: nat, clear: int) {
    |pal| == 1024 && forall i: nat :: i < n ==> Entered(pal, s, at, i, clear)
  }

  /** The four bytes of pixel `p`. */
  ghost predicate PixelIs(out: Picture, p: nat, red: Byte, green: Byte, blue: Byte, opacity: Byte) {
    && 4 * p + 3 < |out| && out[4 * p] == red && out[4 * p + 1] == green && out[4 * p + 2] == blue
    && out[4 * p + 3] == opacity
  }

  ghost predicate PixelSame(before: Picture, after: Picture, p: nat) {
    4 * p + 3 < |before| == |after| && after[4 * p..4 * p + 4] == before[4 * p..4 * p + 4]
  }

  /** Pixel `p` after the indices `indices` have been drawn: colour `i` of the table, its bytes in the order of the
      file, and nothing for the transparent colour or if the turn of the pixel does not come. */
  ghost predicate ColourShown(f: Frame, s: seq<Byte>, table: nat, n: nat, clear: int, indices: seq<Byte>,
      before: Picture, after: Picture, p: nat)
  {
    match Turn(f, p)
    case Some(k) =>
      if k >= |indices| then PixelSame(before, after, p)
      else
        var i: nat := indices[k];
        i < n ==> if i == clear then PixelSame(before, after, p)
                  else PixelIs(after, p, ByteAt(s, table + 3 * i), ByteAt(s, table + 3 * i + 1),
                               ByteAt(s, table + 3 * i + 2), 255)
    case None => PixelSame(before, after, p)
  }

  /** What drawing with a palette comes to in the colours of the file. */
  lemma DrawnColours(f: Frame, s: seq<Byte>, table: nat, n: nat, clear: int, palette: seq<Byte>, indices: seq<Byte>,
      before: Picture, marks: seq<Byte>, after: Picture, marksAfter: seq<Byte>, p: nat)
    requires |palette| == 1024 && |before| == |after| == 4 * Pixels(f) && |marks| == |marksAfter| == Pixels(f)
    requires TableEntered(palette, s, table, n, clear) && p < Pixels(f)
    requires Drawn(f, palette, before, marks, indices, after, marksAfter)
    ensures ColourShown(f, s, table, n, clear, indices, before, after, p)
    ensures Turn(f, p).Some? && Turn(f, p).value < |indices| ==> marksAfter[p] == 1
    ensures Turn(f, p).None? || Turn(f, p).value >= |indices| ==> marksAfter[p] == marks[p]
  {
    hide Turn, Pixels;
    assert PixelDrawn(f, palette, before, marks, indices, after, marksAfter, p);
    match Turn(f, p)
    case Some(k) =>
      if k < |indices| && indices[k] < n {
        assert Entered(palette, s, table, indices[k], clear);
      }
    case None =>
  }

  // ---- the blocks ----

  /** Whether bytes `p` to `p + 5` are the signature of a GIF file of either version. */
  predicate Signed(s: seq<Byte>, p: nat) {
    && ByteAt(s, p) == 0x47 && ByteAt(s, p + 1) == 0x49 && ByteAt(s, p + 2) == 0x46 && ByteAt(s, p + 3) == 0x38
    && (ByteAt(s, p + 4) == 0x37 || ByteAt(s, p + 4) == 0x39) && ByteAt(s, p + 5) == 0x61
  }

  /** What the image descriptor at `p` says: the rectangle, the order of the rows and where its raster data are. */
  function FrameAt(s: seq<Byte>, p: nat, w: nat, h: nat): Frame {
    Frame(w, h, Word(s, p), Word(s, p + 2), Word(s, p + 4), Word(s, p + 6), ByteAt(s, p + 8) / 64 % 2 == 1)
  }

  predicate Local(s: seq<Byte>, p: nat) {
    ByteAt(s, p + 8) >= 128
  }

  function DataAt(s: seq<Byte>, p: nat): nat {
    p + 9 + if Local(s, p) then 3 * Entries(ByteAt(s, p + 8)) else 0
  }

  /** Changing which colour is clear. */
  lemma ClearChanged(pal: seq<Byte>, after: seq<Byte>, s: seq<Byte>, at: nat, n: nat, was: int, now: int)
    requires TableEntered(pal, s, at, n, was) && |after| == 1024 && was < 256 && now < 256
    requires forall k :: 0 <= k < 1024 ==>
                           after[k] == if now >= 0 && k == 4 * now + 3 then 0
                                       else if was >= 0 && k == 4 * was + 3 then 255 else pal[k]
    requires -1 <= was && -1 <= now
    ensures TableEntered(after, s, at, n, now)
  {
    forall i: nat | i < n ensures Entered(after, s, at, i, now) { assert Entered(pal, s, at, i, was); }
  }

  /** The undrawn pixels of a first frame show colour `bg` of the palette as it stands there, blue first. */
  ghost predicate Background(pal: seq<Byte>, bg: nat, out: Picture, p: nat) {
    4 * bg + 3 < |pal| && PixelIs(out, p, pal[4 * bg], pal[4 * bg + 1], pal[4 * bg + 2], 255)
  }

  class GifFile {
    const s: seq<Byte>
    var pos: nat
    var w: nat
    var h: nat
    var flags: Byte
    var bgindex: Byte
    var transparent: int
    var eflags: Byte
    const pal: array<Byte>
    const lpal: array<Byte>
    /** Where the global colour table begins. */
    ghost var table: nat

    constructor (input: seq<Byte>)
      ensures s == input && pos == 0 && fresh(pal) && fresh(lpal) && Palettes()
    {
      s, pos, w, h, flags, bgindex, transparent, eflags, table := input, 0, 0, 0, 0, 0, -1, 0, 0;
      pal := new Byte[1024](_ => 0);
      lpal := new Byte[1024](_ => 0);
    }

    ghost predicate Palettes() {
      pal.Length == 1024 && lpal.Length == 1024 && pal != lpal
    }

    /** The global palette is the file's table, clear where the last control extension said so. */
    ghost predicate Valid()
      reads this, pal
    {
      && Palettes() && pos <= |s| && -1 <= transparent < 256 && (eflags % 2 == 1 <==> transparent >= 0)
      && (flags >= 128 ==> TableEntered(pal[..], s, table, Entries(flags), transparent))
    }

    method Get8(ghost q: nat) returns (b: Byte)
      requires pos == AtMost(q, |s|)
      modifies this`pos
      ensures b == ByteAt(s, q) && pos == AtMost(q + 1, |s|)
    {
      if pos >= |s| { return 0; }
      b := s[pos];
      pos := pos + 1;
    }

    method Get16(ghost q: nat) returns (v: nat)
      requires pos == AtMost(q, |s|)
      modifies this`pos
      ensures v == Word(s, q) && pos == AtMost(q + 2, |s|)
    {
      var lo := Get8(q);
      var hi := Get8(q + 1);
      v := lo as nat + 256 * hi as nat;
    }

    method Skip(n: nat, ghost q: nat)
      requires pos == AtMost(q, |s|)
      modifies this`pos
      ensures pos == AtMost(q + n, |s|)
    {
      pos := AtMost(pos + n, |s|);
    }

    /** Reads a colour table, red first, into a palette, blue first. */
    method ParseColourTable(p: array<Byte>, n: nat, transp: int, ghost q: nat)
      requires p.Length == 1024 && n <= 256 && pos == AtMost(q, |s|)
      modifies this`pos, p
      ensures TableEntered(p[..], s, q, n, transp) && pos == AtMost(q + 3 * n, |s|)
      ensures p[4 * n..] == old(p[4 * n..])
    {
      for i := 0 to n
        invariant pos == AtMost(q + 3 * i, |s|) && TableEntered(p[..], s, q, i, transp)
        invariant p[4 * n..] == old(p[4 * n..])
      {
        ghost var before := p[..];
        var red := Get8(q + 3 * i);
        var green := Get8(q + 3 * i + 1);
        var blue := Get8(q + 3 * i + 2);
        p[4 * i + 2] := red;
        p[4 * i + 1] := green;
        p[4 * i] := blue;
        p[4 * i + 3] := if transp == i then 0 else 255;
        forall k: nat | k < i + 1 ensures Entered(p[..], s, q, k, transp) {
          if k < i { assert Entered(before, s, q, k, transp); }
        }
      }
    }

    /** Reads what a GIF file begins with. */
    method Header() returns (ok: bool)
      requires Palettes() && pos <= |s|
      modifies this, pal
      ensures ok <==> Signed(s, old(pos))
      ensures ok ==> Valid() && transparent == -1 && table == old(pos) + 13
                     && w == Word(s, old(pos) + 6) && h == Word(s, old(pos) + 8)
                     && flags == ByteAt(s, old(pos) + 10) && bgindex == ByteAt(s, old(pos) + 11)
                     && pos == AtMost(table + if flags >= 128 then 3 * Entries(flags) else 0, |s|)
    {
      hide ByteAt, Entries, TableEntered, Word, AtMost, Signed, Valid;
      ghost var q := pos;
      AtMostIs(q, |s|);
      ok := Signature(q);
      if !ok { return; }
      w := Get16(q + 6);
      h := Get16(q + 8);
      flags := Get8(q + 10);
      bgindex := Get8(q + 11);
      var ratio := Get8(q + 12);
      transparent, eflags, table := -1, 0, q + 13;
      if flags >= 128 { ParseColourTable(pal, Entries(flags), -1, q + 13); }
      ValidWhole();
    }

    method Signature(ghost q: nat) returns (ok: bool)
      requires pos == AtMost(q, |s|)
      modifies this`pos
      ensures (ok <==> Signed(s, q)) && (ok ==> pos == AtMost(q + 6, |s|))
    {
      hide ByteAt;
      var a := Get8(q);
      if a != 0x47 { return false; }
      a := Get8(q + 1);
      if a != 0x49 { return false; }
      a := Get8(q + 2);
      if a != 0x46 { return false; }
      a := Get8(q + 3);
      if a != 0x38 { return false; }
      a := Get8(q + 4);
      if a != 0x37 && a != 0x39 { return false; }
      a := Get8(q + 5);
      ok := a == 0x61;
    }

    /** Reads an extension. A control extension says which colour is clear, and nothing else changes. */
    method Extension()
      requires Valid()
      modifies this`pos, this`transparent, this`eflags, pal
      ensures Valid()
      ensures var q := old(pos);
              if ByteAt(s, q) == 0xF9 && ByteAt(s, q + 1) == 4 then
                && eflags == ByteAt(s, q + 2)
                && transparent == (if ByteAt(s, q + 2) % 2 == 1 then ByteAt(s, q + 5) as int else -1)
                && pos == AtMost(AfterBlocks(s, q + 6), |s|)
              else
                && eflags == old(eflags) && transparent == old(transparent) && pal[..] == old(pal[..])
                && pos == AtMost(if ByteAt(s, q) == 0xF9 then q + 2 + ByteAt(s, q + 1) else AfterBlocks(s, q + 1), |s|)
    {
      ghost var q := pos;
      var ext := Get8(q);
      q := q + 1;
      if ext == 0xF9 {
        var len := Get8(q);
        if len != 4 {
          Skip(len, q + 1);
          return;
        }
        SetClear(q + 1);
        q := q + 5;
      }
      pos := SkipBlocks(s, pos, q);
    }

    /** The body of a control extension. */
    method SetClear(ghost q: nat)
      requires Valid() && pos == AtMost(q, |s|)
      modifies this`pos, this`transparent, this`eflags, pal
      ensures Valid() && pos == AtMost(q + 4, |s|) && eflags == ByteAt(s, q)
      ensures transparent == if ByteAt(s, q) % 2 == 1 then ByteAt(s, q + 3) as int else -1
    {
      ghost var before, was := pal[..], transparent;
      eflags := Get8(q);
      var delay := Get16(q + 1);
      if transparent >= 0 { pal[4 * transparent + 3] := 255; }
      if eflags % 2 == 1 {
        var t := Get8(q + 3);
        transparent := t;
        pal[4 * transparent + 3] := 0;
      } else {
        Skip(1, q + 3);
        transparent := -1;
      }
      if flags >= 128 { ClearChanged(before, pal[..], s, table, Entries(flags), was, transparent); }
    }

    /** The table of an image: its own, or that of the file. */
    method ColoursFor(lflags: Byte, ghost q: nat) returns (ok: bool, colours: seq<Byte>)
      requires Valid() && pos == AtMost(q + 9, |s|) && lflags == ByteAt(s, q + 8)
      modifies this`pos, lpal
      ensures Valid() && pos == AtMost(if Local(s, q) then DataAt(s, q) else q + 9, |s|)
      ensures ok <==> Local(s, q) || flags >= 128
      ensures ok ==> |colours| == 1024
      ensures ok ==> TableEntered(colours, s, if Local(s, q) then q + 9 else table,
                                  Entries(if Local(s, q) then lflags else flags), transparent)
    {
      if lflags >= 128 {
        var transp := if eflags % 2 == 1 then transparent else -1;
        ParseColourTable(lpal, Entries(lflags), transp, q + 9);
        return true, lpal[..];
      }
      if flags >= 128 { return true, pal[..]; }
      return false, [];
    }

    /** Gives the pixels that have not been drawn the background, which is made opaque first. */
    method FillBackground(out: array<Byte>, history: array<Byte>, n: nat)
      requires Palettes() && out != pal && out != lpal && history != pal && history != out
      requires out.Length == 4 * n && history.Length == n
      modifies pal, out
      ensures forall p: nat :: p < n ==>
                if history[p] == 0 then Background(old(pal[..]), bgindex, out[..], p)
                else PixelSame(old(out[..]), out[..], p)
      ensures forall k :: 0 <= k < 1024 && k != 4 * bgindex + 3 ==> pal[k] == old(pal[k])
      ensures pal[4 * bgindex + 3] == 255 || pal[4 * bgindex + 3] == old(pal[4 * bgindex + 3])
    {
      ghost var before, colours := out[..], pal[..];
      for pi := 0 to n
        invariant forall p: nat :: p < pi ==>
                    if history[p] == 0 then Background(colours, bgindex, out[..], p) else PixelSame(before, out[..], p)
        invariant forall k :: 4 * pi <= k < 4 * n ==> out[k] == before[k]
        invariant forall k :: 0 <= k < 1024 && k != 4 * bgindex + 3 ==> pal[k] == colours[k]
        invariant pal[4 * bgindex + 3] == 255 || pal[4 * bgindex + 3] == colours[4 * bgindex + 3]
      {
        ghost var was := out[..];
        if history[pi] == 0 {
          pal[4 * bgindex + 3] := 255;
          for k := 0 to 4
            invariant forall e :: 0 <= e < 4 * n ==>
                        out[e] == if 4 * pi <= e < 4 * pi + k then pal[4 * bgindex + e - 4 * pi] else was[e]
            modifies out
          {
            out[4 * pi + k] := pal[4 * bgindex + k];
          }
        }
        PixelsBefore(colours, bgindex, before, was, out[..], history[..], pi);
      }
    }

    /** Reads an image. Every pixel whose turn comes shows the colour of its index in the file's table, unless that
        colour is clear; on the first frame the others show the background, if there is one. */
    method ImageBlock(out: array<Byte>, history: array<Byte>, first: bool) returns (ok: bool, ghost indices: seq<Byte>)
      requires Valid() && out != history && out != pal && out != lpal && history != pal && history != lpal
      requires out.Length == 4 * (w * h) && history.Length == w * h && forall p :: 0 <= p < w * h ==> history[p] == 0
      modifies this`pos, pal, lpal, out, history
      ensures var q := old(pos);
              var f := FrameAt(s, q, w, h);
              ok <==> f.x + f.w <= w && f.y + f.h <= h && (Local(s, q) || flags >= 128)
                      && ByteAt(s, DataAt(s, q)) <= 12 && !CrowdedImage(s, DataAt(s, q), TABLE_SIZE)
                      && StandardIndices(s, DataAt(s, q)).Finished?
      ensures ok ==> StandardIndices(s, DataAt(s, old(pos))) == Finished(indices)
      ensures ok ==> pos == AtMost(AfterBlocks(s, DataAt(s, old(pos)) + 1), |s|)
      ensures ok ==> forall p: nat :: p < w * h ==>
                var q := old(pos);
                var f := FrameAt(s, q, w, h);
                var n := Entries(if Local(s, q) then ByteAt(s, q + 8) else flags);
                if first && bgindex > 0 && (Turn(f, p).None? || Turn(f, p).value >= |indices|)
                then Background(old(pal[..]), bgindex, out[..], p)
                else ColourShown(f, s, if Local(s, q) then q + 9 else table, n, transparent, indices, old(out[..]),
                                 out[..], p)
      ensures !first || bgindex == 0 || transparent != bgindex ==> Valid()
    {
      hide *;
      ghost var q := pos;
      ghost var f := FrameAt(s, q, w, h);
      ok, indices := false, [];
      ValidParts();
      AtMostIs(pos, |s|);
      var x := Get16(q);
      var y := Get16(q + 2);
      var w' := Get16(q + 4);
      var h' := Get16(q + 6);
      FrameIs(s, q, w, h);
      ValidWhole();
      if x + w' > w || y + h' > h { return; }
      var lflags := Get8(q + 8);
      var colours;
      ok, colours := ColoursFor(lflags, q);
      ValidParts();
      if !ok { return; }
      ghost var n, tab := Entries(if Local(s, q) then lflags else flags), if Local(s, q) then q + 9 else table;
      ghost var global, before, marks := pal[..], out[..], history[..];
      DataIs(s, q);
      ok := DrawImage(x, y, w', h', lflags / 64 % 2 == 1, out, history, colours, DataAt(s, q));
      ValidWhole();
      if !ok { return; }
      indices := StandardIndices(s, DataAt(s, q)).indices;
      ghost var after := out[..];
      AllShown(f, s, tab, n, transparent, colours, indices, before, marks, after, history[..]);
      if first && bgindex > 0 {
        FillBackground(out, history, w * h);
        FilledShown(f, s, tab, n, transparent, indices, before, after, out[..], history[..], global, bgindex);
        if flags >= 128 && transparent != bgindex {
          OpaqueStays(global, pal[..], s, table, Entries(flags), transparent, bgindex);
        }
        if transparent != bgindex { ValidWhole(); }
      }
    }

    /** The raster data of an image. */
    method DrawImage(x: nat, y: nat, w': nat, h': nat, interlaced: bool, out: array<Byte>, history: array<Byte>,
        colours: seq<Byte>, ghost at: nat) returns (ok: bool)
      requires |colours| == 1024 && out != history && pos == AtMost(at, |s|)
      requires out.Length == 4 * (w * h) && history.Length == w * h && x + w' <= w && y + h' <= h
      modifies this`pos, out, history
      ensures pos <= |s|
      ensures ok <==> ByteAt(s, at) <= 12 && !CrowdedImage(s, at, TABLE_SIZE) && StandardIndices(s, at).Finished?
      ensures ok ==> pos == AtMost(AfterBlocks(s, at + 1), |s|)
      ensures ok ==> Drawn(Frame(w, h, x, y, w', h', interlaced), colours, old(out[..]), old(history[..]),
                           StandardIndices(s, at).indices, out[..], history[..])
    {
      hide *;
      PixelsIs(Frame(w, h, x, y, w', h', interlaced));
      var d := new Decoder(s, pos, w, h, out, history, colours);
      AtEnd(s, pos, at);
      ok := d.Image(w, h, x, y, w', h', interlaced);
      pos := d.pos;
    }

    lemma ValidParts()
      requires Valid()
      ensures Palettes() && |pal[..]| == 1024
      ensures pos <= |s| && -1 <= transparent < 256 && (eflags % 2 == 1 <==> transparent >= 0)
      ensures flags >= 128 ==> TableEntered(pal[..], s, table, Entries(flags), transparent)
    {
    }

    lemma ValidWhole()
      requires Palettes() && pos <= |s| && -1 <= transparent < 256 && (eflags % 2 == 1 <==> transparent >= 0)
      requires flags >= 128 ==> TableEntered(pal[..], s, table, Entries(flags), transparent)
      ensures Valid()
    {
    }
  }

  lemma PixelsIs(f: Frame)
    ensures Pixels(f) == f.pw * f.ph
  {
  }

  /** Beyond the end there are only zeros. */
  lemma AtEnd(s: seq<Byte>, pos: nat, at: nat)
    requires pos == AtMost(at, |s|)
    ensures pos <= |s| && ByteAt(s, pos) == ByteAt(s, at)
    ensures StandardIndices(s, pos) == StandardIndices(s, at)
    ensures CrowdedImage(s, pos, TABLE_SIZE) == CrowdedImage(s, at, TABLE_SIZE)
    ensures AtMost(AfterBlocks(s, pos + 1), |s|) == AtMost(AfterBlocks(s, at + 1), |s|)
  {
    hide StandardCodes, Crowded, Begin, Clear;
    if at > |s| { assert Rest(s, pos + 1, 0) == Rest(s, at + 1, 0) == []; }
  }

  lemma DataIs(s: seq<Byte>, p: nat)
    ensures DataAt(s, p) == if Local(s, p) then DataAt(s, p) else p + 9
    ensures Local(s, p) <==> ByteAt(s, p + 8) >= 128
  {
  }

  lemma AllShown(f: Frame, s: seq<Byte>, table: nat, n: nat, clear: int, palette: seq<Byte>, indices: seq<Byte>,
      before: Picture, marks: seq<Byte>, after: Picture, marksAfter: seq<Byte>)
    requires |palette| == 1024 && |before| == |after| == 4 * Pixels(f) && |marks| == |marksAfter| == Pixels(f)
    requires TableEntered(palette, s, table, n, clear) && forall p :: 0 <= p < Pixels(f) ==> marks[p] == 0
    requires Drawn(f, palette, before, marks, indices, after, marksAfter)
    ensures forall p: nat :: p < Pixels(f) ==> ColourShown(f, s, table, n, clear, indices, before, after, p)
    ensures forall p: nat :: p < Pixels(f) ==>
                               (marksAfter[p] == 0 <==> Turn(f, p).None? || Turn(f, p).value >= |indices|)
  {
    hide *;
    forall p: nat | p < Pixels(f)
      ensures ColourShown(f, s, table, n, clear, indices, before, after, p)
      ensures marksAfter[p] == 0 <==> Turn(f, p).None? || Turn(f, p).value >= |indices|
    {
      DrawnColours(f, s, table, n, clear, palette, indices, before, marks, after, marksAfter, p);
    }
  }

  /** The background changes nothing about the pixels that have been drawn. */
  lemma FilledShown(f: Frame, s: seq<Byte>, table: nat, n: nat, clear: int, indices: seq<Byte>, before: Picture,
      after: Picture, final: Picture, marks: seq<Byte>, pal: seq<Byte>, bg: nat)
    requires |before| == |after| == |final| == 4 * Pixels(f) && |marks| == Pixels(f)
    requires forall p: nat :: p < Pixels(f) ==> ColourShown(f, s, table, n, clear, indices, before, after, p)
    requires forall p: nat :: p < Pixels(f) ==>
                                (marks[p] == 0 <==> Turn(f, p).None? || Turn(f, p).value >= |indices|)
    requires forall p: nat :: p < Pixels(f) ==>
               if marks[p] == 0 then Background(pal, bg, final, p) else PixelSame(after, final, p)
    ensures forall p: nat :: p < Pixels(f) ==>
              if Turn(f, p).None? || Turn(f, p).value >= |indices| then Background(pal, bg, final, p)
              else ColourShown(f, s, table, n, clear, indices, before, final, p)
  {
    hide *;
    forall p: nat | p < Pixels(f)
      ensures if Turn(f, p).None? || Turn(f, p).value >= |indices| then Background(pal, bg, final, p)
              else ColourShown(f, s, table, n, clear, indices, before, final, p)
    {
      if marks[p] != 0 { ShownStays(f, s, table, n, clear, indices, before, after, final, p); }
    }
  }

  lemma ShownStays(f: Frame, s: seq<Byte>, table: nat, n: nat, clear: int, indices: seq<Byte>, before: Picture,
      after: Picture, final: Picture, p: nat)
    requires |before| == |after| == |final| && PixelSame(after, final, p)
    requires ColourShown(f, s, table, n, clear, indices, before, after, p)
    ensures ColourShown(f, s, table, n, clear, indices, before, final, p)
  {
    hide Turn;
    var a, b := after[4 * p..4 * p + 4], final[4 * p..4 * p + 4];
    assert a[0] == b[0] && a[1] == b[1] && a[2] == b[2] && a[3] == b[3];
  }

  /** Making a colour opaque that is so in the table changes nothing. */
  lemma OpaqueStays(pal: seq<Byte>, after: seq<Byte>, s: seq<Byte>, at: nat, n: nat, clear: int, bg: nat)
    requires TableEntered(pal, s, at, n, clear) && |after| == 1024 && bg < 256 && clear != bg
    requires forall k :: 0 <= k < 1024 && k != 4 * bg + 3 ==> after[k] == pal[k]
    requires after[4 * bg + 3] == 255 || after[4 * bg + 3] == pal[4 * bg + 3]
    ensures TableEntered(after, s, at, n, clear)
  {
    forall i: nat | i < n ensures Entered(after, s, at, i, clear) { assert Entered(pal, s, at, i, clear); }
  }

  /** The pixel in column `col` and row `row` of a rectangle at column `f.x` and row `f.y` is drawn row by row, or, if
      the rows are interlaced, as the rank of its row says. */
  lemma PixelInOrder(f: Frame, row: nat, col: nat)
    requires f.x + f.w <= f.pw && row < f.h && col < f.w
    ensures Turn(f, (f.y + row) * f.pw + (f.x + col))
            == Some((if f.interlaced then Rank(true, f.h, row) else row) * f.w + col)
  {
    DivMod(f.y + row, f.x + col, f.pw);
  }

  /** The background of a first frame is not the colour of the file, but that with red and blue exchanged: the palette
      holds colours blue first, and is copied as it is. */
  lemma BackgroundExchanged(pal: seq<Byte>, s: seq<Byte>, at: nat, n: nat, clear: int, bg: nat, out: Picture, p: nat)
    requires TableEntered(pal, s, at, n, clear) && bg < n && Background(pal, bg, out, p)
    ensures PixelIs(out, p, ByteAt(s, at + 3 * bg + 2), ByteAt(s, at + 3 * bg + 1), ByteAt(s, at + 3 * bg), 255)
    ensures PixelIs(out, p, ByteAt(s, at + 3 * bg), ByteAt(s, at + 3 * bg + 1), ByteAt(s, at + 3 * bg + 2), 255)
            <==> ByteAt(s, at + 3 * bg) == ByteAt(s, at + 3 * bg + 2)
  {
    assert Entered(pal, s, at, bg, clear);
  }

  lemma FrameIs(s: seq<Byte>, p: nat, w: nat, h: nat)
    ensures var f := FrameAt(s, p, w, h);
            && f == Frame(w, h, Word(s, p), Word(s, p + 2), Word(s, p + 4), Word(s, p + 6),
                          ByteAt(s, p + 8) / 64 % 2 == 1)
            && Pixels(f) == w * h
  {
  }

  /** One pixel more is right, and those before it still are. */
  lemma PixelsBefore(pal: seq<Byte>, bg: nat, before: Picture, was: Picture, now: Picture, marks: seq<Byte>, pi: nat)
    requires |before| == |was| == |now| && 4 * pi + 3 < |now| && pi < |marks|
    requires forall k :: 0 <= k < |now| && (k < 4 * pi || k >= 4 * pi + 4) ==> now[k] == was[k]
    requires forall p: nat :: p < pi ==>
               if marks[p] == 0 then Background(pal, bg, was, p) else PixelSame(before, was, p)
    requires if marks[pi] == 0 then Background(pal, bg, now, pi) else PixelSame(before, now, pi)
    ensures forall p: nat :: p < pi + 1 ==>
              if marks[p] == 0 then Background(pal, bg, now, p) else PixelSame(before, now, p)
  {
    forall p: nat | p < pi ensures if marks[p] == 0 then Background(pal, bg, now, p) else PixelSame(before, now, p) {
      if marks[p] != 0 {
        assert PixelSame(before, was, p);
        assert now[4 * p..4 * p + 4] == was[4 * p..4 * p + 4];
      }
    }
  }
}

/**
From inflated bytes to pixels in the PNG decoder of 3rd_party/imageHelper/stb_image.h: rows are unfiltered
in a buffer of two rows that take turns, their samples are spread out, and the passes of an interlaced image
are scattered into the final one.
 */
module Png {
  import opened Arithmetic
  import opened Bits
  import opened PngSpec

  // ---- filters ----

  /** The decoder's predictor. */
  function Paeth(a: int, b: int, c: int): int {
    var thresh := c * 3 - (a + b);
    var lo := if a < b then a else b;
    var hi := if a < b then b else a;
    var t0 := if hi <= thresh then lo else c;
    if thresh <= lo then hi else t0
  }

  /** It is the predictor of the standard, on all integers. */
  lemma PaethIsPredictor(a: int, b: int, c: int)
    ensures Paeth(a, b, c) == PaethPredictor(a, b, c)
  {
  }

  const NONE: nat := 0
  const SUB: nat := 1
  const UP: nat := 2
  const AVG: nat := 3
  const PAETH: nat := 4
  const AVG_FIRST: nat := 5

  /** The filter that is used instead for the first row. */
  function FirstRowFilter(t: nat): nat {
    if t == UP then NONE else if t == AVG then AVG_FIRST else if t == PAETH then SUB else t
  }

  /** The first bytes of a row have been reconstructed. */
  ghost predicate Partial(t: nat, raw: Row, prior: Row, bpp: nat, row: Row) {
    && |row| <= |raw| == |prior|
    && forall k :: 0 <= k < |row| ==>
         row[k] == (raw[k] + Predicted(t, Left(row, bpp, k), prior[k], Left(prior, bpp, k))) % 256
  }

  lemma PartialNone(t: nat, raw: Row, prior: Row, bpp: nat)
    requires |raw| == |prior|
    ensures Partial(t, raw, prior, bpp, [])
  {
  }

  lemma PartialAll(t: nat, raw: Row, prior: Row, bpp: nat, row: Row)
    requires Partial(t, raw, prior, bpp, row) && |row| == |raw|
    ensures Reconstructed(t, raw, prior, bpp, row)
  {
    hide Predicted, Left;
  }

  lemma PartialNext(t: nat, raw: Row, prior: Row, bpp: nat, row: Row, b: Byte)
    requires bpp > 0 && Partial(t, raw, prior, bpp, row) && |row| < |raw| && |raw| == |prior|
    requires b == (raw[|row|] + Predicted(t, Left(row, bpp, |row|), prior[|row|], Left(prior, bpp, |row|))) % 256
    ensures Partial(t, raw, prior, bpp, row + [b])
  {
    hide Predicted;
    forall k | 0 <= k <= |row| ensures Left(row + [b], bpp, k) == Left(row, bpp, k) {}
  }

  /** The filter `t` of the decoder, applied below `prior`. */
  ghost predicate Applied(t: nat, raw: Row, prior: Row, bpp: nat, row: Row) {
    if t == AVG_FIRST then Reconstructed(AVG, raw, seq(|raw|, _ => 0 as Byte), bpp, row)
    else Reconstructed(t, raw, prior, bpp, row)
  }

  /** The filters of the first row never look at the row above, and do what the real ones do below zeros. */
  lemma FirstRowSame(t: nat, raw: Row, prior: Row, bpp: nat, row: Row)
    requires t <= 4 && |prior| == |raw| && Applied(FirstRowFilter(t), raw, prior, bpp, row)
    ensures Reconstructed(t, raw, seq(|raw|, _ => 0 as Byte), bpp, row)
  {
    hide Predicted, Left;
    var zeros: Row := seq(|raw|, _ => 0 as Byte);
    forall k | 0 <= k < |row|
      ensures row[k] == (raw[k] + Predicted(t, Left(row, bpp, k), zeros[k], Left(zeros, bpp, k))) % 256
    {
      LeftOfZeros(|raw|, bpp, k);
      PredictedFirst(t, Left(row, bpp, k));
      PredictedAside(FirstRowFilter(t), Left(row, bpp, k), prior[k], Left(prior, bpp, k));
      PredictedFirst(AVG, Left(row, bpp, k));
    }
  }

  lemma LeftOfZeros(n: nat, bpp: nat, k: nat)
    ensures Left(seq(n, _ => 0 as Byte), bpp, k) == 0
  {
  }

  lemma PredictedFirst(t: nat, a: Byte)
    requires t <= 4
    ensures Predicted(t, a, 0, 0) == if t == SUB || t == PAETH then a else if t == AVG then a / 2 else 0
  {
  }

  lemma PredictedAside(t: nat, a: Byte, b: Byte, c: Byte)
    ensures t == NONE ==> Predicted(t, a, b, c) == 0
    ensures t == SUB ==> Predicted(t, a, b, c) == a
  {
  }

  /** The left neighbours at position `k` of the row that is being built in the buffer. */
  lemma Neighbours(row: Row, bpp: nat, k: nat)
    requires bpp > 0 && k == |row|
    ensures Left(row, bpp, k) == if k < bpp then 0 else row[k - bpp]
  {
  }

  /** One byte more in a row of the buffer. */
  lemma RowGrows(before: seq<Byte>, after: seq<Byte>, cur: nat, prior: nat, n: nat, k: nat, b: Byte)
    requires cur + n <= |before| && prior + n <= |before| && k < n && (cur + n <= prior || prior + n <= cur)
    requires after == before[cur + k := b]
    ensures after[cur..cur + k + 1] == before[cur..cur + k] + [b]
    ensures after[prior..prior + n] == before[prior..prior + n]
  {
  }

  /** The byte that filter `t` adds at position `k`. */
  method Prediction(buf: array<Byte>, cur: nat, prior: nat, k: nat, bpp: nat, filter: nat,
      ghost n: nat) returns (p: nat)
    requires bpp > 0 && filter <= 5 && k < n && cur + n <= buf.Length && prior + n <= buf.Length
    ensures filter != AVG_FIRST ==>
              p == Predicted(filter, Left(buf[cur..cur + k], bpp, k), buf[prior + k],
                             Left(buf[prior..prior + n], bpp, k))
    ensures filter == AVG_FIRST ==> p == Predicted(AVG, Left(buf[cur..cur + k], bpp, k), 0, 0)
  {
    Neighbours(buf[cur..cur + k], bpp, k);
    if filter == NONE {
      p := 0;
    } else if filter == SUB {
      p := if k < bpp then 0 else buf[cur + k - bpp];
    } else if filter == UP {
      p := buf[prior + k];
    } else if filter == AVG {
      var sum: nat := buf[prior + k] as nat + if k < bpp then 0 else buf[cur + k - bpp];
      p := sum / 2;
    } else if filter == PAETH {
      PaethCorner(buf[prior + k]);
      if k < bpp {
        p := buf[prior + k];
      } else {
        PaethIsPredictor(buf[cur + k - bpp], buf[prior + k], buf[prior + k - bpp]);
        PaethNatural(buf[cur + k - bpp], buf[prior + k], buf[prior + k - bpp]);
        p := Paeth(buf[cur + k - bpp], buf[prior + k], buf[prior + k - bpp]);
      }
    } else {
      p := if k < bpp then 0 else buf[cur + k - bpp] / 2;
    }
  }

  lemma PaethCorner(b: Byte)
    ensures PaethPredictor(0, b, 0) == b
  {
  }

  lemma PaethNatural(a: Byte, b: Byte, c: Byte)
    ensures 0 <= Paeth(a, b, c) < 256
  {
  }

  /** Reconstructs one row in the buffer; the row above it stays as it is. */
  method UnfilterRow(buf: array<Byte>, cur: nat, prior: nat, raw: Row, bpp: nat, filter: nat)
    requires bpp > 0 && filter <= 5 && cur + |raw| <= buf.Length && prior + |raw| <= buf.Length
    requires cur + |raw| <= prior || prior + |raw| <= cur
    modifies buf
    ensures Applied(filter, raw, old(buf[prior..prior + |raw|]), bpp, buf[cur..cur + |raw|])
    ensures buf[prior..prior + |raw|] == old(buf[prior..prior + |raw|])
  {
    hide *;
    ghost var above := buf[prior..prior + |raw|];
    ghost var t, over: Row := filter, above;
    if filter == AVG_FIRST { t, over := AVG, seq(|raw|, _ => 0 as Byte); }
    PartialNone(t, raw, over, bpp);
    assert buf[cur..cur] == [];
    for k := 0 to |raw|
      invariant buf[prior..prior + |raw|] == above && Partial(t, raw, over, bpp, buf[cur..cur + k])
    {
      var p := Prediction(buf, cur, prior, k, bpp, filter, |raw|);
      ghost var before := buf[..];
      assert before[cur..cur + k] == buf[cur..cur + k] && before[prior..prior + |raw|] == above;
      assert buf[prior + k] == above[k];
      OverFirst(over, bpp, k, filter);
      PartialNext(t, raw, over, bpp, before[cur..cur + k], (raw[k] + p) % 256);
      buf[cur + k] := (raw[k] + p) % 256;
      RowGrows(before, buf[..], cur, prior, |raw|, k, (raw[k] + p) % 256);
      assert buf[cur..cur + k + 1] == buf[..][cur..cur + k + 1]
      && buf[prior..prior + |raw|] == buf[..][prior..prior + |raw|];
    }
    PartialAll(t, raw, over, bpp, buf[cur..cur + |raw|]);
    AppliedIs(filter, raw, above, bpp, buf[cur..cur + |raw|]);
  }

  lemma OverFirst(over: Row, bpp: nat, k: nat, filter: nat)
    requires k < |over| && (filter == AVG_FIRST ==> over == seq(|over|, _ => 0 as Byte))
    ensures filter == AVG_FIRST ==> over[k] == 0 && Left(over, bpp, k) == 0
  {
  }

  lemma AppliedIs(t: nat, raw: Row, prior: Row, bpp: nat, row: Row)
    requires if t == AVG_FIRST then Reconstructed(AVG, raw, seq(|raw|, _ => 0 as Byte), bpp, row)
             else Reconstructed(t, raw, prior, bpp, row)
    ensures Applied(t, raw, prior, bpp, row)
  {
    hide Reconstructed;
  }

  // ---- samples ----

  /** How much a grey sample is scaled. */
  function DepthScale(depth: nat): nat {
    if depth == 1 then 0xff else if depth == 2 then 0x55 else if depth == 4 then 0x11 else if depth == 8 then 0x01
    else 0
  }

  /** What is left of a byte after `m` of its bits have been shifted out at the top. */
  function Shifted(b: Byte, m: nat): nat {
    Low(Shl(b, m), 8)
  }

  lemma ShiftedDigits(b: Byte, m: nat) returns (s: seq<bool>)
    requires m <= 8
    ensures |s| == 8 && b == LsbVal(s) && Shifted(b, m) == LsbVal(Zeros(m) + s[..8 - m])
  {
    Powers();
    s := Digits(b, 8);
    LowBound(b, 8);
    ShlDigits(s, m);
    LsbValSplit(Zeros(m) + s, 8);
    assert (Zeros(m) + s)[..8] == Zeros(m) + s[..8 - m];
  }

  /** The top bits of what is left are the next sample. */
  lemma TopBits(b: Byte, m: nat, depth: nat)
    requires m + depth <= 8
    ensures Shr(Shifted(b, m), 8 - depth) == Low(Shr(b, 8 - depth - m), depth)
  {
    hide LsbVal, Shl, Shr, Low, Shifted;
    var s := ShiftedDigits(b, m);
    var w := Zeros(m) + s[..8 - m];
    LsbValSplit(w, 8 - depth);
    LsbValSplit(s, 8 - depth - m);
    LsbValSplit(s[8 - depth - m..], depth);
    assert w[8 - depth..] == s[8 - depth - m..][..depth];
  }

  /** Shifting out one more sample. */
  lemma ShiftedNext(b: Byte, m: nat, depth: nat)
    requires m + depth <= 8
    ensures Low(Shl(Shifted(b, m), depth), 8) == Shifted(b, m + depth)
  {
    var s := ShiftedDigits(b, m);
    var t := ShiftedDigits(b, m + depth);
    LsbValInjective(s, t);
    var w := Zeros(m) + s[..8 - m];
    ShlDigits(w, depth);
    LsbValSplit(Zeros(depth) + w, 8);
    assert (Zeros(depth) + w)[..8] == Zeros(m + depth) + s[..8 - m - depth];
  }

  lemma SamplesNext(row: Row, i: nat, depth: nat, grey: bool)
    ensures Samples(row, i + 1, depth, grey) == Samples(row, i, depth, grey) + [Shown(row, depth, grey, i)]
  {
  }

  /** The next packed sample, at position `r` of byte `j`. */
  lemma NextSample(row: Row, depth: nat, grey: bool, k: nat, j: nat, r: nat)
    requires depth == 1 || depth == 2 || depth == 4
    requires j < |row| && (r + 1) * depth <= 8
    requires j == (if depth == 4 then k / 2 else if depth == 2 then k / 4 else k / 8)
    requires r == (if depth == 4 then k % 2 else if depth == 2 then k % 4 else k % 8)
    ensures (if grey then DepthScale(depth) else 1) * Shr(Shifted(row[j], r * depth), 8 - depth)
            == Shown(row, depth, grey, k)
    ensures Low(Shl(Shifted(row[j], r * depth), depth), 8) == Shifted(row[j], (r + 1) * depth)
  {
    hide Shifted, Shl, Shr, Low;
    TopBits(row[j], r * depth, depth);
    ShiftedNext(row[j], r * depth, depth);
    assert r * depth + depth == (r + 1) * depth;
  }

  lemma WholeByte(b: Byte)
    ensures Shifted(b, 0) == b
  {
    Powers();
    LowBound(b, 8);
  }

  /** Spreads out samples of 4 bits. */
  method ExpandNibbles(row: Row, out: array<nat>, dest: nat, nsmp: nat, scale: nat, ghost grey: bool)
    requires dest + nsmp <= out.Length && 4 * nsmp <= 8 * |row| && scale == if grey then DepthScale(4) else 1
    modifies out
    ensures out[dest..dest + nsmp] == Samples(row, nsmp, 4, grey)
    ensures forall k :: 0 <= k < dest || dest + nsmp <= k < out.Length ==> out[k] == old(out[k])
  {
    hide Samples, Shown, Shifted, Shl, Shr, Low;
    var inp, inb: nat := 0, 0;
    for i := 0 to nsmp
      invariant out[dest..dest + i] == Samples(row, i, 4, grey)
      invariant inp == (i + 1) / 2 && (i % 2 != 0 ==> inb == Shifted(row[i / 2], i % 2 * 4))
      invariant forall k :: 0 <= k < dest || dest + nsmp <= k < out.Length ==> out[k] == old(out[k])
    {
      if i % 2 == 0 {
        inb := row[inp];
        inp := inp + 1;
        WholeByte(inb);
      }
      NextSample(row, 4, grey, i, i / 2, i % 2);
      SamplesNext(row, i, 4, grey);
      out[dest + i] := scale * Shr(inb, 4);
      inb := Low(Shl(inb, 4), 8);
    }
  }

  /** Spreads out samples of 2 bits. */
  method ExpandPairs(row: Row, out: array<nat>, dest: nat, nsmp: nat, scale: nat, ghost grey: bool)
    requires dest + nsmp <= out.Length && 2 * nsmp <= 8 * |row| && scale == if grey then DepthScale(2) else 1
    modifies out
    ensures out[dest..dest + nsmp] == Samples(row, nsmp, 2, grey)
    ensures forall k :: 0 <= k < dest || dest + nsmp <= k < out.Length ==> out[k] == old(out[k])
  {
    hide Samples, Shown, Shifted, Shl, Shr, Low;
    var inp, inb: nat := 0, 0;
    for i := 0 to nsmp
      invariant out[dest..dest + i] == Samples(row, i, 2, grey)
      invariant inp == (i + 3) / 4 && (i % 4 != 0 ==> inb == Shifted(row[i / 4], i % 4 * 2))
      invariant forall k :: 0 <= k < dest || dest + nsmp <= k < out.Length ==> out[k] == old(out[k])
    {
      if i % 4 == 0 {
        inb := row[inp];
        inp := inp + 1;
        WholeByte(inb);
      }
      NextSample(row, 2, grey, i, i / 4, i % 4);
      SamplesNext(row, i, 2, grey);
      out[dest + i] := scale * Shr(inb, 6);
      inb := Low(Shl(inb, 2), 8);
    }
  }

  /** Spreads out samples of one bit. */
  method ExpandBits(row: Row, out: array<nat>, dest: nat, nsmp: nat, scale: nat, ghost grey: bool)
    requires dest + nsmp <= out.Length && nsmp <= 8 * |row| && scale == if grey then DepthScale(1) else 1
    modifies out
    ensures out[dest..dest + nsmp] == Samples(row, nsmp, 1, grey)
    ensures forall k :: 0 <= k < dest || dest + nsmp <= k < out.Length ==> out[k] == old(out[k])
  {
    hide Samples, Shown, Shifted, Shl, Shr, Low;
    var inp, inb: nat := 0, 0;
    for i := 0 to nsmp
      invariant out[dest..dest + i] == Samples(row, i, 1, grey)
      invariant inp == (i + 7) / 8 && (i % 8 != 0 ==> inb == Shifted(row[i / 8], i % 8 * 1))
      invariant forall k :: 0 <= k < dest || dest + nsmp <= k < out.Length ==> out[k] == old(out[k])
    {
      if i % 8 == 0 {
        inb := row[inp];
        inp := inp + 1;
        WholeByte(inb);
      }
      NextSample(row, 1, grey, i, i / 8, i % 8);
      SamplesNext(row, i, 1, grey);
      out[dest + i] := scale * Shr(inb, 7);
      inb := Low(Shl(inb, 1), 8);
    }
  }

  // ---- alpha ----

  lemma SpreadGrey(s: seq<nat>, x: nat, alpha: nat, i: nat)
    requires |s| == x && i < x
    ensures |Spread(s, x, 1, alpha)| == 2 * x && Spread(s, x, 1, alpha)[2 * i] == s[i]
    ensures Spread(s, x, 1, alpha)[2 * i + 1] == alpha
  {
  }

  lemma SpreadColour(s: seq<nat>, x: nat, alpha: nat, i: nat)
    requires |s| == 3 * x && i < x
    ensures var r := Spread(s, x, 3, alpha);
            && |r| == 4 * x && r[4 * i] == s[3 * i] && r[4 * i + 1] == s[3 * i + 1]
            && r[4 * i + 2] == s[3 * i + 2] && r[4 * i + 3] == alpha
  {
  }

  /** Everything is as before but the `n` samples from `at` on. */
  ghost predicate Outside(now: seq<nat>, before: seq<nat>, at: nat, n: nat) {
    |now| == |before| && forall k :: 0 <= k < |now| && (k < at || k >= at + n) ==> now[k] == before[k]
  }

  /** Samples `lo` to `hi` of `r` are in the output from `dest` on. */
  ghost predicate Filled(out: seq<nat>, dest: nat, r: seq<nat>, lo: nat, hi: nat) {
    hi <= |r| && dest + |r| <= |out| && forall k :: lo <= k < hi ==> out[dest + k] == r[k]
  }

  lemma FilledNone(out: seq<nat>, dest: nat, r: seq<nat>, k: nat)
    requires k <= |r| && dest + |r| <= |out|
    ensures Filled(out, dest, r, k, k) && Outside(out, out, dest, |r|)
  {
  }

  lemma FilledAll(out: seq<nat>, before: seq<nat>, dest: nat, r: seq<nat>)
    requires Filled(out, dest, r, 0, |r|) && Outside(out, before, dest, |r|)
    ensures out[dest..dest + |r|] == r
    ensures forall k :: 0 <= k < dest || dest + |r| <= k < |out| ==> k < |before| && out[k] == before[k]
  {
  }

  /** `n` samples before the ones that are there, or after them. */
  lemma FilledMore(out: seq<nat>, next: seq<nat>, before: seq<nat>, dest: nat, r: seq<nat>, lo: nat, hi: nat, at: nat,
      n: nat)
    requires Filled(out, dest, r, lo, hi) && Outside(out, before, dest, |r|) && Outside(next, out, dest + at, n)
    requires at + n <= |r| && (at + n == lo || at == hi) && Filled(next, dest, r, at, at + n)
    ensures Filled(next, dest, r, if at < lo then at else lo, if at < lo then hi else at + n)
    ensures Outside(next, before, dest, |r|)
  {
  }

  lemma GreyFilled(out: seq<nat>, dest: nat, s: seq<nat>, x: nat, alpha: nat, i: nat)
    requires |s| == x && i < x && dest + 2 * x <= |out| && out[dest + 2 * i] == s[i] && out[dest + 2 * i + 1] == alpha
    ensures Filled(out, dest, Spread(s, x, 1, alpha), 2 * i, 2 * i + 2)
  {
    SpreadGrey(s, x, alpha, i);
  }

  lemma ColourFilled(out: seq<nat>, dest: nat, s: seq<nat>, x: nat, alpha: nat, i: nat)
    requires |s| == 3 * x && i < x && dest + 4 * x <= |out|
    requires out[dest + 4 * i] == s[3 * i] && out[dest + 4 * i + 1] == s[3 * i + 1]
    requires out[dest + 4 * i + 2] == s[3 * i + 2] && out[dest + 4 * i + 3] == alpha
    ensures Filled(out, dest, Spread(s, x, 3, alpha), 4 * i, 4 * i + 4)
  {
    hide Spread;
    SpreadColour(s, x, alpha, i);
  }

  /** A grey pixel and its alpha. */
  method PutGrey(out: array<nat>, dest: nat, v: nat, alpha: nat)
    requires dest + 2 <= out.Length
    modifies out
    ensures out[dest] == v && out[dest + 1] == alpha && Outside(out[..], old(out[..]), dest, 2)
  {
    out[dest + 1] := alpha;
    out[dest] := v;
  }

  /** A pixel of three channels and its alpha. */
  method PutColour(out: array<nat>, dest: nat, v0: nat, v1: nat, v2: nat, alpha: nat)
    requires dest + 4 <= out.Length
    modifies out
    ensures out[dest] == v0 && out[dest + 1] == v1 && out[dest + 2] == v2 && out[dest + 3] == alpha
    ensures Outside(out[..], old(out[..]), dest, 4)
  {
    out[dest + 3] := alpha;
    out[dest + 2] := v2;
    out[dest + 1] := v1;
    out[dest] := v0;
  }

  /** The samples that have not been moved yet. */
  ghost predicate Unmoved(out: seq<nat>, dest: nat, s: seq<nat>, n: nat) {
    n <= |s| && dest + |s| <= |out| && forall k :: 0 <= k < n ==> out[dest + k] == s[k]
  }

  lemma UnmovedAll(out: seq<nat>, dest: nat, n: nat)
    requires dest + n <= |out|
    ensures Unmoved(out, dest, out[dest..dest + n], n)
  {
  }

  lemma UnmovedLess(out: seq<nat>, next: seq<nat>, dest: nat, s: seq<nat>, n: nat, at: nat, m: nat)
    requires Unmoved(out, dest, s, n) && Outside(next, out, dest + at, m)
    ensures forall k :: 0 <= k <= n && k <= at ==> Unmoved(next, dest, s, k)
    ensures forall k :: 0 <= k < n ==> out[dest + k] == s[k]
  {
  }

  /** Adds an opaque alpha sample after every pixel of a row that is in the output already, from the last pixel to
      the first, so that no sample is overwritten before it has been moved. */
  method AlphaExpandInPlace(out: array<nat>, dest: nat, x: nat, imgN: nat)
    requires (imgN == 1 || imgN == 3) && dest + x * (imgN + 1) <= out.Length
    modifies out
    ensures out[dest..dest + x * (imgN + 1)] == Spread(old(out[dest..dest + x * imgN]), x, imgN, 255)
    ensures forall k :: 0 <= k < dest || dest + x * (imgN + 1) <= k < out.Length ==> out[k] == old(out[k])
  {
    if imgN == 1 {
      AlphaAfterGrey(out, dest, x);
    } else {
      AlphaAfterColour(out, dest, x);
    }
  }

  method AlphaAfterGrey(out: array<nat>, dest: nat, x: nat)
    requires dest + 2 * x <= out.Length
    modifies out
    ensures out[dest..dest + 2 * x] == Spread(old(out[dest..dest + x]), x, 1, 255)
    ensures forall k :: 0 <= k < dest || dest + 2 * x <= k < out.Length ==> out[k] == old(out[k])
  {
    hide *;
    ghost var before := out[..];
    ghost var s := out[dest..dest + x];
    ghost var r := Spread(s, x, 1, 255);
    assert before[dest..dest + x] == s;
    FilledNone(before, dest, r, 2 * x);
    UnmovedAll(before, dest, x);
    for i := x downto 0
      invariant Filled(out[..], dest, r, 2 * i, 2 * x) && Outside(out[..], before, dest, |r|)
      invariant Unmoved(out[..], dest, s, i)
    {
      ghost var was := out[..];
      OutsideSame(was, dest + 2 * i, 2);
      UnmovedLess(was, was, dest, s, i + 1, 2 * i, 2);
      PutGrey(out, dest + 2 * i, out[dest + i], 255);
      GreyFilled(out[..], dest, s, x, 255, i);
      FilledMore(was, out[..], before, dest, r, 2 * i + 2, 2 * x, 2 * i, 2);
      UnmovedLess(was, out[..], dest, s, i + 1, 2 * i, 2);
    }
    FilledAll(out[..], before, dest, r);
    assert out[dest..dest + |r|] == out[..][dest..dest + |r|];
  }

  method AlphaAfterColour(out: array<nat>, dest: nat, x: nat)
    requires dest + 4 * x <= out.Length
    modifies out
    ensures out[dest..dest + 4 * x] == Spread(old(out[dest..dest + 3 * x]), x, 3, 255)
    ensures forall k :: 0 <= k < dest || dest + 4 * x <= k < out.Length ==> out[k] == old(out[k])
  {
    hide *;
    ghost var before := out[..];
    ghost var s := out[dest..dest + 3 * x];
    ghost var r := Spread(s, x, 3, 255);
    assert before[dest..dest + 3 * x] == s;
    FilledNone(before, dest, r, 4 * x);
    UnmovedAll(before, dest, 3 * x);
    for i := x downto 0
      invariant Filled(out[..], dest, r, 4 * i, 4 * x) && Outside(out[..], before, dest, |r|)
      invariant Unmoved(out[..], dest, s, 3 * i)
    {
      ghost var was := out[..];
      OutsideSame(was, dest + 4 * i, 4);
      UnmovedLess(was, was, dest, s, 3 * i + 3, 4 * i, 4);
      PutColour(out, dest + 4 * i, out[dest + (3 * i)], out[dest + (3 * i + 1)], out[dest + (3 * i + 2)], 255);
      ColourFilled(out[..], dest, s, x, 255, i);
      FilledMore(was, out[..], before, dest, r, 4 * i + 4, 4 * x, 4 * i, 4);
      UnmovedLess(was, out[..], dest, s, 3 * i + 3, 4 * i, 4);
    }
    FilledAll(out[..], before, dest, r);
    assert out[dest..dest + |r|] == out[..][dest..dest + |r|];
  }

  lemma OutsideSame(s: seq<nat>, at: nat, n: nat)
    ensures Outside(s, s, at, n)
  {
  }

  // ---- rows of 8 and 16 bits ----

  method CopyBytes(row: Row, out: array<nat>, dest: nat, nsmp: nat, ghost grey: bool)
    requires dest + nsmp <= out.Length && nsmp <= |row|
    modifies out
    ensures out[dest..dest + nsmp] == Samples(row, nsmp, 8, grey)
    ensures forall k :: 0 <= k < dest || dest + nsmp <= k < out.Length ==> out[k] == old(out[k])
  {
    forall k | 0 <= k < nsmp { out[dest + k] := row[k]; }
  }

  /** The sixteen bits of sample `k`, high byte first. */
  method CopyWords(row: Row, out: array<nat>, dest: nat, nsmp: nat, ghost grey: bool)
    requires dest + nsmp <= out.Length && 2 * nsmp <= |row|
    modifies out
    ensures out[dest..dest + nsmp] == Samples(row, nsmp, 16, grey)
    ensures forall k :: 0 <= k < dest || dest + nsmp <= k < out.Length ==> out[k] == old(out[k])
  {
    for i := 0 to nsmp
      invariant out[dest..dest + i] == Samples(row, i, 16, grey)
      invariant forall k :: 0 <= k < dest || dest + nsmp <= k < out.Length ==> out[k] == old(out[k])
    {
      SamplesNext(row, i, 16, grey);
      out[dest + i] := row[2 * i] as nat * 256 + row[2 * i + 1];
      assert out[dest..dest + (i + 1)] == out[dest..dest + i] + [out[dest + i]];
    }
  }

  lemma SamplesAre(row: Row, n: nat, depth: nat, grey: bool, k: nat)
    requires k < n
    ensures depth == 8 && k < |row| ==> Samples(row, n, depth, grey)[k] == row[k]
    ensures depth == 16 ==> Samples(row, n, depth, grey)[k] == Word(row, k)
  {
  }

  /** Adds an opaque alpha sample after every pixel of a row of bytes. */
  method AlphaExpandBytes(row: Row, out: array<nat>, dest: nat, x: nat, imgN: nat, ghost grey: bool)
    requires (imgN == 1 || imgN == 3) && dest + x * (imgN + 1) <= out.Length && x * imgN <= |row|
    modifies out
    ensures out[dest..dest + x * (imgN + 1)] == Spread(Samples(row, x * imgN, 8, grey), x, imgN, 255)
    ensures forall k :: 0 <= k < dest || dest + x * (imgN + 1) <= k < out.Length ==> out[k] == old(out[k])
  {
    hide *;
    ghost var before := out[..];
    ghost var s := Samples(row, x * imgN, 8, grey);
    ghost var r := Spread(s, x, imgN, 255);
    FilledNone(before, dest, r, x * (imgN + 1));
    if imgN == 1 {
      for i := x downto 0
        invariant Filled(out[..], dest, r, 2 * i, 2 * x) && Outside(out[..], before, dest, |r|)
      {
        ghost var was := out[..];
        SamplesAre(row, x, 8, grey, i);
        PutGrey(out, dest + 2 * i, row[i], 255);
        GreyFilled(out[..], dest, s, x, 255, i);
        FilledMore(was, out[..], before, dest, r, 2 * i + 2, 2 * x, 2 * i, 2);
      }
    } else {
      for i := x downto 0
        invariant Filled(out[..], dest, r, 4 * i, 4 * x) && Outside(out[..], before, dest, |r|)
      {
        ghost var was := out[..];
        SamplesAre(row, x * 3, 8, grey, 3 * i);
        SamplesAre(row, x * 3, 8, grey, 3 * i + 1);
        SamplesAre(row, x * 3, 8, grey, 3 * i + 2);
        PutColour(out, dest + 4 * i, row[3 * i], row[3 * i + 1], row[3 * i + 2], 255);
        ColourFilled(out[..], dest, s, x, 255, i);
        FilledMore(was, out[..], before, dest, r, 4 * i + 4, 4 * x, 4 * i, 4);
      }
    }
    FilledAll(out[..], before, dest, r);
    assert out[dest..dest + |r|] == out[..][dest..dest + |r|];
  }

  /** The same for 16 bits, from the first pixel to the last. */
  method AlphaExpandWords(row: Row, out: array<nat>, dest: nat, x: nat, imgN: nat, ghost grey: bool)
    requires (imgN == 1 || imgN == 3) && dest + x * (imgN + 1) <= out.Length && 2 * (x * imgN) <= |row|
    modifies out
    ensures out[dest..dest + x * (imgN + 1)] == Spread(Samples(row, x * imgN, 16, grey), x, imgN, 0xFFFF)
    ensures forall k :: 0 <= k < dest || dest + x * (imgN + 1) <= k < out.Length ==> out[k] == old(out[k])
  {
    hide *;
    ghost var before := out[..];
    ghost var s := Samples(row, x * imgN, 16, grey);
    ghost var r := Spread(s, x, imgN, 0xFFFF);
    FilledNone(before, dest, r, 0);
    if imgN == 1 {
      for i := 0 to x
        invariant Filled(out[..], dest, r, 0, 2 * i) && Outside(out[..], before, dest, |r|)
      {
        ghost var was := out[..];
        SamplesAre(row, x, 16, grey, i);
        PutGrey(out, dest + 2 * i, Word(row, i), 0xFFFF);
        GreyFilled(out[..], dest, s, x, 0xFFFF, i);
        FilledMore(was, out[..], before, dest, r, 0, 2 * i, 2 * i, 2);
      }
    } else {
      for i := 0 to x
        invariant Filled(out[..], dest, r, 0, 4 * i) && Outside(out[..], before, dest, |r|)
      {
        ghost var was := out[..];
        SamplesAre(row, x * 3, 16, grey, 3 * i);
        SamplesAre(row, x * 3, 16, grey, 3 * i + 1);
        SamplesAre(row, x * 3, 16, grey, 3 * i + 2);
        PutColour(out, dest + 4 * i, Word(row, 3 * i), Word(row, 3 * i + 1), Word(row, 3 * i + 2), 0xFFFF);
        ColourFilled(out[..], dest, s, x, 0xFFFF, i);
        FilledMore(was, out[..], before, dest, r, 0, 4 * i, 4 * i, 4);
      }
    }
    FilledAll(out[..], before, dest, r);
    assert out[dest..dest + |r|] == out[..][dest..dest + |r|];
  }

  /** Two bytes of a row as one number. */
  function Word(row: Row, k: nat): nat {
    if 2 * k + 1 < |row| then row[2 * k] as nat * 256 + row[2 * k + 1] else 0
  }

  // ---- one image ----

  predicate Wanted(imgN: nat, outN: nat) {
    outN == imgN || (outN == imgN + 1 && (imgN == 1 || imgN == 3))
  }

  predicate Depth(depth: nat) {
    depth == 1 || depth == 2 || depth == 4 || depth == 8 || depth == 16
  }

  lemma ShownRowIs(row: Row, x: nat, imgN: nat, outN: nat, depth: nat, grey: bool)
    requires Wanted(imgN, outN)
    ensures imgN == outN ==> ShownRow(row, x, imgN, outN, depth, grey) == Samples(row, x * imgN, depth, grey)
    ensures imgN != outN ==> (imgN == 1 || imgN == 3) && outN == imgN + 1 && x * imgN <= x * outN
                             && ShownRow(row, x, imgN, outN, depth, grey)
                                == Spread(Samples(row, x * imgN, depth, grey), x, imgN, if depth == 16 then 0xFFFF
                                          else 255)
  {
    hide Samples, Spread;
  }

  /** Puts out the samples of a row that has less than a byte for each. */
  method ExpandPacked(row: Row, out: array<nat>, dest: nat, nsmp: nat, depth: nat, grey: bool)
    requires Depth(depth) && depth < 8 && dest + nsmp <= out.Length && depth * nsmp <= 8 * |row|
    modifies out
    ensures out[dest..dest + nsmp] == Samples(row, nsmp, depth, grey)
    ensures forall k :: 0 <= k < dest || dest + nsmp <= k < out.Length ==> out[k] == old(out[k])
  {
    hide Samples;
    var scale := if grey then DepthScale(depth) else 1;
    if depth == 4 {
      ExpandNibbles(row, out, dest, nsmp, scale, grey);
    } else if depth == 2 {
      ExpandPairs(row, out, dest, nsmp, scale, grey);
    } else {
      ExpandBits(row, out, dest, nsmp, scale, grey);
    }
  }

  /** Puts out the samples of one row. */
  method ExpandRow(row: Row, out: array<nat>, dest: nat, x: nat, imgN: nat, outN: nat, depth: nat, grey: bool)
    requires Wanted(imgN, outN) && Depth(depth) && dest + x * outN <= out.Length && depth * (x * imgN) <= 8 * |row|
    modifies out
    ensures out[dest..dest + x * outN] == ShownRow(row, x, imgN, outN, depth, grey)
    ensures forall k :: 0 <= k < dest || dest + x * outN <= k < out.Length ==> out[k] == old(out[k])
  {
    hide *;
    ShownRowIs(row, x, imgN, outN, depth, grey);
    DepthIs(depth);
    var nsmp := x * imgN;
    if depth < 8 {
      ExpandPacked(row, out, dest, nsmp, depth, grey);
      if imgN != outN { AlphaExpandInPlace(out, dest, x, imgN); }
    } else if depth == 8 {
      if imgN == outN {
        CopyBytes(row, out, dest, nsmp, grey);
      } else {
        AlphaExpandBytes(row, out, dest, x, imgN, grey);
      }
    } else {
      if imgN == outN {
        CopyWords(row, out, dest, nsmp, grey);
      } else {
        AlphaExpandWords(row, out, dest, x, imgN, grey);
      }
    }
  }

  lemma DepthIs(depth: nat)
    requires Depth(depth)
    ensures depth < 8 || depth == 8 || depth == 16
  {
  }

  lemma RowBytesFit(imgN: nat, x: nat, depth: nat)
    ensures depth * (x * imgN) <= 8 * RowBytes(imgN, x, depth)
    ensures depth == 8 ==> RowBytes(imgN, x, depth) == imgN * x
    ensures depth == 16 ==> RowBytes(imgN, x, depth) == 2 * (imgN * x)
  {
    assert imgN * x * depth == depth * (x * imgN);
    if depth == 8 { assert imgN * x * 8 == 8 * (imgN * x); }
    if depth == 16 { assert imgN * x * 16 == 16 * (imgN * x); }
  }

  /** The decoder's state before row `j`: the row above is in its half of the buffer, and what has been decoded so far
      is shown. */
  ghost predicate RowsSoFar(raw: seq<Byte>, n: nat, bpp: nat, rows: seq<Row>, buf: seq<Byte>, out: seq<nat>,
                            x: nat, imgN: nat, outN: nat, depth: nat, grey: bool)
  {
    && Wanted(imgN, outN) && |buf| == 2 * n
    && ImageRows(raw, n, bpp, rows) && ImageShown(out, rows, x, imgN, outN, depth, grey)
    && (rows != [] ==> |rows[|rows| - 1]| == n && buf[Half(|rows| + 1, n)..Half(|rows| + 1, n) + n] == rows[|rows| - 1])
    && forall i: nat :: i < |rows| ==> TypeOf(raw, n, i) <= 4
  }

  /** The half of the buffer for row `j`. */
  function Half(j: nat, n: nat): (h: nat)
    ensures h + n <= 2 * n
  {
    if j % 2 == 1 then n else 0
  }

  lemma RowsNone(raw: seq<Byte>, n: nat, bpp: nat, buf: seq<Byte>, out: seq<nat>, x: nat, imgN: nat, outN: nat,
      depth: nat, grey: bool)
    requires Wanted(imgN, outN) && |buf| == 2 * n
    ensures RowsSoFar(raw, n, bpp, [], buf, out, x, imgN, outN, depth, grey)
  {
  }

  /** The reconstruction of one more row, in the other half of the buffer. */
  lemma RowsUnfiltered(raw: seq<Byte>, n: nat, bpp: nat, rows: seq<Row>, before: seq<Byte>, row: Row, filter: nat)
    requires |before| == 2 * n && |RawRow(raw, n, |rows|)| == n && TypeOf(raw, n, |rows|) <= 4
    requires rows != [] ==> before[Half(|rows| + 1, n)..Half(|rows| + 1, n) + n] == rows[|rows| - 1]
    requires filter == if rows == [] then FirstRowFilter(TypeOf(raw, n, 0)) else TypeOf(raw, n, |rows|)
    requires Applied(filter, RawRow(raw, n, |rows|), before[Half(|rows| + 1, n)..Half(|rows| + 1, n) + n], bpp, row)
    ensures Reconstructed(TypeOf(raw, n, |rows|), RawRow(raw, n, |rows|), Above(rows, |rows|, n), bpp, row)
    ensures |row| == n
  {
    hide Reconstructed, RawRow, TypeOf;
    var prior := before[Half(|rows| + 1, n)..Half(|rows| + 1, n) + n];
    if rows == [] {
      FirstRowSame(TypeOf(raw, n, 0), RawRow(raw, n, 0), prior, bpp, row);
    }
    ReconstructedSize(TypeOf(raw, n, |rows|), RawRow(raw, n, |rows|), Above(rows, |rows|, n), bpp, row);
  }

  lemma ReconstructedSize(t: nat, raw: Row, prior: Row, bpp: nat, row: Row)
    requires Reconstructed(t, raw, prior, bpp, row)
    ensures |row| == |raw|
  {
  }

  lemma ImageRowsMore(raw: seq<Byte>, n: nat, bpp: nat, rows: seq<Row>, row: Row)
    requires ImageRows(raw, n, bpp, rows)
    requires Reconstructed(TypeOf(raw, n, |rows|), RawRow(raw, n, |rows|), Above(rows, |rows|, n), bpp, row)
    ensures ImageRows(raw, n, bpp, rows + [row])
  {
    hide Reconstructed, RawRow, TypeOf, Above;
    var more := rows + [row];
    forall j: nat | j < |more|
      ensures Reconstructed(TypeOf(raw, n, j), RawRow(raw, n, j), Above(more, j, n), bpp, more[j])
    {
      assert more[..j] == rows[..j];
      AboveSame(more, rows, j, n);
      assert j < |rows| ==> more[j] == rows[j];
    }
  }

  lemma ImageShownMore(out: seq<nat>, next: seq<nat>, rows: seq<Row>, row: Row, x: nat, imgN: nat, outN: nat,
      depth: nat, grey: bool)
    requires Wanted(imgN, outN) && ImageShown(out, rows, x, imgN, outN, depth, grey)
    requires |next| == |out| && x * outN * |rows| + x * outN <= |out|
    requires next[x * outN * |rows|..x * outN * |rows| + x * outN] == ShownRow(row, x, imgN, outN, depth, grey)
    requires forall k :: 0 <= k < x * outN * |rows| ==> next[k] == out[k]
    ensures ImageShown(next, rows + [row], x, imgN, outN, depth, grey)
  {
    hide ShownRow;
    var stride := x * outN;
    forall j: nat | j < |rows| ensures RowShown(next, j, rows[j], x, imgN, outN, depth, grey) {
      assert RowShown(out, j, rows[j], x, imgN, outN, depth, grey);
      Strides(stride, j, |rows|);
      assert next[stride * j..stride * j + stride] == out[stride * j..stride * j + stride];
    }
    assert RowShown(next, |rows|, row, x, imgN, outN, depth, grey);
  }

  lemma Strides(stride: nat, j: nat, k: nat)
    requires j < k
    ensures stride * j + stride <= stride * k
  {
    MulMonotone(j + 1, k, stride);
    assert stride * (j + 1) == stride * j + stride;
    assert stride * k == k * stride && stride * (j + 1) == (j + 1) * stride;
  }

  /** Decodes row `j`, whose bytes begin at `at`, if its filter type exists. */
  method DecodeRow(raw: seq<Byte>, at: nat, j: nat, n: nat, bpp: nat, filterBuf: array<Byte>, out: array<nat>,
      dest: nat, x: nat, imgN: nat, outN: nat, depth: nat, grey: bool, ghost rows: seq<Row>)
    returns (ok: bool, ghost row: Row)
    requires filterBuf.Length == 2 * n && bpp > 0 && Depth(depth) && depth * (x * imgN) <= 8 * n
    requires RowsSoFar(raw, n, bpp, rows, filterBuf[..], out[..], x, imgN, outN, depth, grey)
    requires |rows| == j && at + 1 + n <= |raw| && TypeOf(raw, n, j) == raw[at]
    requires RawRow(raw, n, j) == raw[at + 1..at + 1 + n]
    requires dest == x * outN * j && dest + x * outN <= out.Length
    modifies filterBuf, out
    ensures ok <==> TypeOf(raw, n, j) <= 4
    ensures ok ==> RowsSoFar(raw, n, bpp, rows + [row], filterBuf[..], out[..], x, imgN, outN, depth, grey)
  {
    hide *;
    RowsAre(raw, n, bpp, rows, filterBuf[..], out[..], x, imgN, outN, depth, grey);
    var cur, prior := Half(j, n), Half(j + 1, n);
    HalvesApart(j, n);
    var filter: nat := raw[at];
    row := [];
    if filter > 4 { return false, row; }
    if j == 0 { filter := FirstRowFilter(filter); }
    FilterBound(raw[at]);
    ghost var before, shown := filterBuf[..], out[..];
    assert before[prior..prior + n] == filterBuf[prior..prior + n];
    UnfilterRow(filterBuf, cur, prior, raw[at + 1..at + 1 + n], bpp, filter);
    row := filterBuf[cur..cur + n];
    RowsUnfiltered(raw, n, bpp, rows, before, row, filter);
    ExpandRow(filterBuf[cur..cur + n], out, dest, x, imgN, outN, depth, grey);
    ImageRowsMore(raw, n, bpp, rows, row);
    assert out[..][dest..dest + x * outN] == out[dest..dest + x * outN];
    ImageShownMore(shown, out[..], rows, row, x, imgN, outN, depth, grey);
    assert filterBuf[..][cur..cur + n] == row;
    RowsMore(raw, n, bpp, rows, row, filterBuf[..], out[..], x, imgN, outN, depth, grey);
    ok := true;
  }

  /** Decodes an image without interlacing; refuses exactly the data that are too short or have a filter type that does
      not exist. */
  method CreateImageRaw(raw: seq<Byte>, imgN: nat, outN: nat, x: nat, y: nat, depth: nat, grey: bool)
    returns (ok: bool, out: array<nat>, ghost rows: seq<Row>)
    requires Wanted(imgN, outN) && imgN > 0 && Depth(depth) && x > 0
    ensures ok <==> !Undecodable(raw, imgN, x, y, depth)
    ensures ok ==> Decoded(raw, imgN, outN, x, y, depth, grey, rows, out[..])
    ensures fresh(out)
  {
    hide *;
    var n := RowBytes(imgN, x, depth);
    BppPositive(imgN, depth);
    RowBytesFit(imgN, x, depth);
    out := new nat[x * outN * y];
    rows := [];
    UndecodableIs(raw, imgN, x, y, depth);
    if |raw| < (n + 1) * y { return false, out, rows; }
    ok, rows := DecodeRows(raw, n, Bpp(imgN, depth), out, x, y, imgN, outN, depth, grey);
    if ok { DecodedIs(raw, imgN, outN, x, y, depth, grey, rows, out[..]); }
  }

  /** Decodes the rows from the first to the last. */
  method DecodeRows(raw: seq<Byte>, n: nat, bpp: nat, out: array<nat>, x: nat, y: nat, imgN: nat, outN: nat,
      depth: nat, grey: bool)
    returns (ok: bool, ghost rows: seq<Row>)
    requires Wanted(imgN, outN) && Depth(depth) && bpp > 0 && depth * (x * imgN) <= 8 * n
    requires |raw| >= (n + 1) * y && out.Length == x * outN * y
    modifies out
    ensures ok <==> forall j: nat :: j < y ==> TypeOf(raw, n, j) <= 4
    ensures ok ==> |rows| == y && ImageRows(raw, n, bpp, rows) && ImageShown(out[..], rows, x, imgN, outN, depth, grey)
  {
    hide *;
    rows := [];
    var filterBuf := new Byte[2 * n];
    RowsNone(raw, n, bpp, filterBuf[..], out[..], x, imgN, outN, depth, grey);
    for j := 0 to y
      invariant |rows| == j && RowsSoFar(raw, n, bpp, rows, filterBuf[..], out[..], x, imgN, outN, depth, grey)
    {
      RowPlace(raw, n, j, y);
      Strides(x * outN, j, y);
      ghost var row;
      ok, row := DecodeRow(raw, (n + 1) * j, j, n, bpp, filterBuf, out, x * outN * j, x, imgN, outN, depth, grey, rows);
      if !ok { return; }
      rows := rows + [row];
    }
    RowsAre(raw, n, bpp, rows, filterBuf[..], out[..], x, imgN, outN, depth, grey);
    ok := true;
  }

  lemma BppPositive(imgN: nat, depth: nat)
    requires imgN > 0
    ensures Bpp(imgN, depth) > 0
  {
  }

  lemma UndecodableIs(raw: seq<Byte>, imgN: nat, x: nat, y: nat, depth: nat)
    ensures |raw| < (RowBytes(imgN, x, depth) + 1) * y ==> Undecodable(raw, imgN, x, y, depth)
    ensures forall j: nat :: j < y && TypeOf(raw, RowBytes(imgN, x, depth), j) > 4 ==>
                               Undecodable(raw, imgN, x, y, depth)
  {
  }

  lemma RowPlace(raw: seq<Byte>, n: nat, j: nat, y: nat)
    requires j < y && |raw| >= (n + 1) * y
    ensures (n + 1) * j + 1 + n <= |raw| && TypeOf(raw, n, j) == raw[(n + 1) * j]
    ensures RawRow(raw, n, j) == raw[(n + 1) * j + 1..(n + 1) * j + 1 + n]
  {
    RowSpace(n, j);
    RowsFit(n, j + 1, y);
  }

  lemma FilterBound(t: nat)
    ensures t <= 4 ==> FirstRowFilter(t) <= 5
  {
  }

  lemma HalvesApart(j: nat, n: nat)
    ensures Half(j, n) + n <= Half(j + 1, n) || Half(j + 1, n) + n <= Half(j, n)
    ensures Half(j + 2, n) == Half(j, n)
  {
  }

  lemma RowsAre(raw: seq<Byte>, n: nat, bpp: nat, rows: seq<Row>, buf: seq<Byte>, out: seq<nat>,
                x: nat, imgN: nat, outN: nat, depth: nat, grey: bool)
    requires RowsSoFar(raw, n, bpp, rows, buf, out, x, imgN, outN, depth, grey)
    ensures Wanted(imgN, outN) && |buf| == 2 * n
    ensures ImageRows(raw, n, bpp, rows) && ImageShown(out, rows, x, imgN, outN, depth, grey)
    ensures rows != [] ==> buf[Half(|rows| + 1, n)..Half(|rows| + 1, n) + n] == rows[|rows| - 1]
    ensures forall i: nat :: i < |rows| ==> TypeOf(raw, n, i) <= 4
  {
    hide ImageRows, ImageShown, Wanted, TypeOf;
  }

  lemma RowsMore(raw: seq<Byte>, n: nat, bpp: nat, rows: seq<Row>, row: Row, buf: seq<Byte>, out: seq<nat>,
                 x: nat, imgN: nat, outN: nat, depth: nat, grey: bool)
    requires Wanted(imgN, outN) && |buf| == 2 * n && |row| == n
    requires ImageRows(raw, n, bpp, rows + [row]) && ImageShown(out, rows + [row], x, imgN, outN, depth, grey)
    requires buf[Half(|rows|, n)..Half(|rows|, n) + n] == row && TypeOf(raw, n, |rows|) <= 4
    requires forall i: nat :: i < |rows| ==> TypeOf(raw, n, i) <= 4
    ensures RowsSoFar(raw, n, bpp, rows + [row], buf, out, x, imgN, outN, depth, grey)
  {
    hide ImageRows, ImageShown, Wanted, TypeOf;
    HalvesApart(|rows|, n);
  }

  lemma DecodedIs(raw: seq<Byte>, imgN: nat, outN: nat, x: nat, y: nat, depth: nat, grey: bool, rows: seq<Row>,
      out: seq<nat>)
    requires Wanted(imgN, outN) && |rows| == y && |out| == x * outN * y
    requires |raw| >= (RowBytes(imgN, x, depth) + 1) * y
    requires ImageRows(raw, RowBytes(imgN, x, depth), Bpp(imgN, depth), rows)
    requires ImageShown(out, rows, x, imgN, outN, depth, grey)
    requires forall i: nat :: i < |rows| ==> TypeOf(raw, RowBytes(imgN, x, depth), i) <= 4
    ensures Decoded(raw, imgN, outN, x, y, depth, grey, rows, out) && !Undecodable(raw, imgN, x, y, depth)
  {
    hide ImageRows, ImageShown;
  }
}

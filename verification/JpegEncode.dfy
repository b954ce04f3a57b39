/**
Blocks as an encoder writes them (sections F.1.2.1 and F.1.2.2 of ITU-T T.81), and that decoding gives them back: every
coefficient at its own place, times the quantizer of that place.
 */
module JpegEncode {
  import opened Bits
  import opened CanonicalCode
  import opened Jpeg
  import opened JpegHuffman
  import opened JpegStream
  import opened Wrappers

  // ---- bits ----

  /** The `n` low digits of `x`, the most significant first. */
  function BitsOf(x: nat, n: nat): (b: seq<bool>)
    ensures |b| == n
  {
    Reversed(Digits(x, n))
  }

  lemma BitsOfValue(x: nat, n: nat)
    requires x < Pow2(n)
    ensures MsbVal(BitsOf(x, n)) == x
  {
    MsbValReversed(Digits(x, n));
    LowBound(x, n);
  }

  /** How many bits a value takes: the number of its category in table F.1. */
  function Size(v: int): (s: nat)
    ensures v == 0 <==> s == 0
    decreases if v < 0 then -v else v
  {
    if v == 0 then 0 else 1 + Size(if v < 0 then -(-v / 2) else v / 2)
  }

  lemma {:induction false} SizeBound(v: int)
    ensures v > 0 ==> Pow2(Size(v) - 1) <= v < Pow2(Size(v))
    ensures v < 0 ==> Pow2(Size(v) - 1) <= -v < Pow2(Size(v))
    decreases if v < 0 then -v else v
  {
    if v > 1 { SizeBound(v / 2); }
    if v < -1 { SizeBound(-(-v / 2)); }
  }

  /** A positive value as it is, and a negative one less one, in as many bits as it takes. */
  function ValueBits(v: int): (b: seq<bool>)
    ensures |b| == Size(v)
  {
    SizeBound(v);
    if v >= 0 then BitsOf(v, Size(v)) else BitsOf(Pow2(Size(v)) - 1 + v, Size(v))
  }

  lemma SizePositive(v: int)
    requires v != 0
    ensures Size(v) > 0
  {
  }

  lemma PowerNext(n: nat)
    requires n > 0
    ensures Pow2(n) == 2 * Pow2(n - 1)
  {
  }

  /** Extending the bits gives back the value. */
  lemma ExtendBack(v: int)
    requires v != 0
    ensures Extend(MsbVal(ValueBits(v)), Size(v)) == v
  {
    hide Pow2, MsbVal, BitsOf, Size;
    SizeBound(v);
    SizePositive(v);
    PowerNext(Size(v));
    BitsOfValue(if v >= 0 then v else Pow2(Size(v)) - 1 + v, Size(v));
  }

  // ---- codes ----

  /** Symbol number `n` has a code of at most sixteen bits. */
  predicate HasCode(lens: seq<nat>, n: nat) {
    n < |lens| && 0 < lens[n] <= LONGEST && CodeOf(lens, n) < Pow2(lens[n])
  }

  /** The code of a symbol value, if there is one. */
  ghost function CodeBits(lens: seq<nat>, values: ValueRow, rs: nat): Option<seq<bool>> {
    if n: nat :| n < 256 && HasCode(lens, n) && values[n] == rs then Some(BitsOf(CodeOf(lens, n), lens[n])) else None
  }

  /** The scan has these bits, before the marker. */
  ghost predicate HasBits(c: Scan, at: nat, bits: seq<bool>) {
    Window(c, at, |bits|) == bits && Available(c, at + |bits|)
  }

  lemma HasBoth(c: Scan, at: nat, u: seq<bool>, v: seq<bool>)
    requires HasBits(c, at, u + v)
    ensures HasBits(c, at, u) && HasBits(c, at + |u|, v)
  {
    hide Available, CodedBit;
    WindowSplit(c, at, |u| + |v|, |u|);
    assert (u + v)[..|u|] == u && (u + v)[|u|..] == v;
    AvailableBefore(c, at + |u|, at + |u| + |v|);
  }

  /** A code is read as its symbol. */
  lemma CodeRead(lens: seq<nat>, values: ValueRow, rs: nat, c: Scan, at: nat)
    requires CodeBits(lens, values, rs).Some? && HasBits(c, at, CodeBits(lens, values, rs).value)
    ensures var f := Expected(lens, Window(c, at, LONGEST));
            f.Some? && f.value.n < 256 && values[f.value.n] == rs && f.value.bits == |CodeBits(lens, values, rs).value|
  {
    hide Available, CodedBit, Window, BitsOf;
    var bits := CodeBits(lens, values, rs).value;
    var n: nat :| n < 256 && HasCode(lens, n) && values[n] == rs && bits == BitsOf(CodeOf(lens, n), lens[n]);
    BitsOfValue(CodeOf(lens, n), lens[n]);
    WindowSplit(c, at, LONGEST, lens[n]);
    DecodeUnique(lens, Window(c, at, LONGEST), n);
  }

  // ---- the places of the coefficients ----

  /** The number of a place in the zigzag order (figure A.6). */
  function NumberAt(z: Index): nat {
    match z
    case 0 => 0 case 1 => 1 case 2 => 5 case 3 => 6 case 4 => 14 case 5 => 15 case 6 => 27 case 7 => 28
    case 8 => 2 case 9 => 4 case 10 => 7 case 11 => 13 case 12 => 16 case 13 => 26 case 14 => 29 case 15 => 42
    case 16 => 3 case 17 => 8 case 18 => 12 case 19 => 17 case 20 => 25 case 21 => 30 case 22 => 41 case 23 => 43
    case 24 => 9 case 25 => 11 case 26 => 18 case 27 => 24 case 28 => 31 case 29 => 40 case 30 => 44 case 31 => 53
    case 32 => 10 case 33 => 19 case 34 => 23 case 35 => 32 case 36 => 39 case 37 => 45 case 38 => 52 case 39 => 54
    case 40 => 20 case 41 => 22 case 42 => 33 case 43 => 38 case 44 => 46 case 45 => 51 case 46 => 55 case 47 => 60
    case 48 => 21 case 49 => 34 case 50 => 37 case 51 => 47 case 52 => 50 case 53 => 56 case 54 => 59 case 55 => 61
    case 56 => 35 case 57 => 36 case 58 => 48 case 59 => 49 case 60 => 57 case 61 => 58 case 62 => 62 case _ => 63
  }

  lemma NumbersBack(k: nat)
    requires k < 64
    ensures NumberAt(Unzigzag(k)) == k
  {
    if k < 22 { FirstBack(k); } else if k < 43 { MiddleBack(k); } else { LastBack(k); }
  }

  lemma FirstBack(k: nat)
    requires k < 22
    ensures NumberAt(Unzigzag(k)) == k
  {
  }

  lemma MiddleBack(k: nat)
    requires 22 <= k < 43
    ensures NumberAt(Unzigzag(k)) == k
  {
  }

  lemma LastBack(k: nat)
    requires 43 <= k < 64
    ensures NumberAt(Unzigzag(k)) == k
  {
  }

  // ---- the AC coefficients (F.1.2.2) ----

  /** The number of the first coefficient from `k` on that is not zero, or 64. */
  function NextNonZero(v: seq<int>, k: nat): (j: nat)
    requires |v| == 64 && k <= 64
    ensures k <= j <= 64 && (j < 64 ==> v[j] != 0) && forall i :: k <= i < j ==> v[i] == 0
    decreases 64 - k
  {
    if k == 64 || v[k] != 0 then k else NextNonZero(v, k + 1)
  }

  ghost function Both(a: Option<seq<bool>>, b: Option<seq<bool>>): Option<seq<bool>> {
    if a.Some? && b.Some? then Some(a.value + b.value) else None
  }

  /** The coefficients from `k` on: the end of the block if all are zero; a run of sixteen zeros; or the run before the
      next one that is not, with the size of that, and its value. There are none if a code is missing. */
  ghost function AcBits(lens: seq<nat>, values: ValueRow, v: seq<int>, k: nat): Option<seq<bool>>
    requires |v| == 64 && k <= 64
    decreases 64 - k
  {
    var j := NextNonZero(v, k);
    if k == 64 then Some([])
    else if j == 64 then CodeBits(lens, values, 0)
    else if j - k >= 16 then Both(CodeBits(lens, values, 0xF0), AcBits(lens, values, v, k + 16))
    else if Size(v[j]) > 15 then None
    else Both(Both(CodeBits(lens, values, 16 * (j - k) + Size(v[j])), Some(ValueBits(v[j]))),
              AcBits(lens, values, v, j + 1))
  }

  /** `out` has the coefficients from `k` on at their places, times their quantizers, and is `data` elsewhere. */
  ghost predicate AcPlaced(v: seq<int>, k: nat, dequant: seq<nat>, data: seq<int>, out: seq<int>)
    requires |v| == |dequant| == |data| == 64
  {
    && |out| == 64
    && forall z: Index :: out[z] == if NumberAt(z) >= k && v[NumberAt(z)] != 0
                                    then Short(v[NumberAt(z)] * dequant[z]) else data[z]
  }

  lemma NumbersBelow(z: Index)
    ensures NumberAt(z) < 64 && Unzigzag(NumberAt(z)) == z
  {
    if z < 32 { } else { }
  }

  lemma ValueRead(c: Scan, at: nat, x: int)
    requires x != 0 && HasBits(c, at, ValueBits(x))
    ensures Size(x) > 0 && Extend(MsbVal(Window(c, at, Size(x))), Size(x)) == x && Available(c, at + Size(x))
  {
    hide ValueBits, Window, Available;
    ExtendBack(x);
  }

  lemma CoefficientRead(lens: seq<nat>, values: ValueRow, run: nat, x: int, c: Scan, at: nat, bits: seq<bool>)
    requires |lens| <= 256 && run < 16 && x != 0 && Size(x) <= 15
    requires CodeBits(lens, values, 16 * run + Size(x)) == Some(bits) && HasBits(c, at, bits + ValueBits(x))
    ensures NextAc(lens, values, c, at) == Done(at + |bits| + Size(x), Coefficient(run, x))
  {
    hide ValueBits, Window, Available, CodeBits, Decode, Extend, HasBits;
    HasBoth(c, at, bits, ValueBits(x));
    CodeRead(lens, values, 16 * run + Size(x), c, at);
    ValueRead(c, at + |bits|, x);
  }

  lemma ControlRead(lens: seq<nat>, values: ValueRow, rs: nat, c: Scan, at: nat, bits: seq<bool>)
    requires |lens| <= 256 && (rs == 0 || rs == 0xF0)
    requires CodeBits(lens, values, rs) == Some(bits) && HasBits(c, at, bits)
    ensures NextAc(lens, values, c, at) == Done(at + |bits|, if rs == 0xF0 then ZeroRun else EndOfBlock)
  {
    hide Window, CodeBits, Decode, Extend;
    CodeRead(lens, values, rs, c, at);
  }

  /** Decoding gives back the AC coefficients from `k` on. */
  lemma {:induction false} AcBack(lens: seq<nat>, values: ValueRow, dequant: seq<nat>, v: seq<int>, c: Scan, at: nat,
      k: nat, data: seq<int>) returns (out: seq<int>)
    requires |lens| <= 256 && |v| == |data| == |dequant| == 64 && k <= 64
    requires AcBits(lens, values, v, k).Some? && HasBits(c, at, AcBits(lens, values, v, k).value)
    ensures AcPart(lens, values, dequant, c, at, k, data) == Done(at + |AcBits(lens, values, v, k).value|, out)
    ensures AcPlaced(v, k, dequant, data, out)
    decreases 64 - k
  {
    hide NextAc, CodeBits, HasBits, Placed, ValueBits, AcPlaced, AcPart, Size;
    var bits := AcBits(lens, values, v, k).value;
    var j := NextNonZero(v, k);
    if k == 64 {
      AcOver(lens, values, dequant, c, at, k, data);
      out := data;
      NonePlaced(v, k, dequant, data);
    } else {
      AcStep(lens, values, dequant, c, at, k, data);
      if j == 64 {
        ControlRead(lens, values, 0, c, at, bits);
        out := data;
        NonePlaced(v, k, dequant, data);
      } else if j - k >= 16 {
        var first, rest := CodeBits(lens, values, 0xF0).value, AcBits(lens, values, v, k + 16).value;
        HasBoth(c, at, first, rest);
        ControlRead(lens, values, 0xF0, c, at, first);
        out := AcBack(lens, values, dequant, v, c, at + |first|, k + 16, data);
        SkipPlaced(v, k, k + 16, dequant, data, out);
      } else {
        var n := NextValue(lens, values, v, c, at, k, j);
        out := AcBack(lens, values, dequant, v, c, at + n, j + 1, Placed(data, dequant, j, v[j]));
        OnePlaced(v, k, j, dequant, data, out);
      }
    }
  }

  /** The next coefficient takes `n` bits, and those of the others follow. */
  lemma NextValue(lens: seq<nat>, values: ValueRow, v: seq<int>, c: Scan, at: nat, k: nat, j: nat) returns (n: nat)
    requires |lens| <= 256 && |v| == 64 && k <= j < 64 && j == NextNonZero(v, k) && j - k < 16
    requires AcBits(lens, values, v, k).Some? && HasBits(c, at, AcBits(lens, values, v, k).value)
    ensures NextAc(lens, values, c, at) == Done(at + n, Coefficient(j - k, v[j]))
    ensures AcBits(lens, values, v, j + 1).Some? && HasBits(c, at + n, AcBits(lens, values, v, j + 1).value)
    ensures n + |AcBits(lens, values, v, j + 1).value| == |AcBits(lens, values, v, k).value|
  {
    hide NextAc, CodeBits, HasBits, ValueBits, Size;
    var first := CodeBits(lens, values, 16 * (j - k) + Size(v[j])).value;
    HasBoth(c, at, first + ValueBits(v[j]), AcBits(lens, values, v, j + 1).value);
    CoefficientRead(lens, values, j - k, v[j], c, at, first);
    n := |first| + Size(v[j]);
  }

  lemma NonePlaced(v: seq<int>, k: nat, dequant: seq<nat>, data: seq<int>)
    requires |v| == |data| == |dequant| == 64 && k <= 64 && NextNonZero(v, k) == 64
    ensures AcPlaced(v, k, dequant, data, data)
  {
  }

  lemma SkipPlaced(v: seq<int>, k: nat, m: nat, dequant: seq<nat>, data: seq<int>, out: seq<int>)
    requires |v| == |data| == |dequant| == 64 && k <= 64 && k <= m <= NextNonZero(v, k)
    requires AcPlaced(v, m, dequant, data, out)
    ensures AcPlaced(v, k, dequant, data, out)
  {
    hide NumberAt;
  }

  lemma OnePlaced(v: seq<int>, k: nat, j: nat, dequant: seq<nat>, data: seq<int>, out: seq<int>)
    requires |v| == |data| == |dequant| == 64 && k <= j < 64 && j == NextNonZero(v, k)
    requires AcPlaced(v, j + 1, dequant, Placed(data, dequant, j, v[j]), out)
    ensures AcPlaced(v, k, dequant, data, out)
  {
    hide NumberAt, Unzigzag, Short;
    NumbersBack(j);
    forall z: Index ensures NumberAt(z) == j ==> z == Unzigzag(j) { NumbersBelow(z); }
  }

  // ---- blocks (F.1.2.1) ----

  /** The difference of the DC coefficient: its size, and its value. */
  ghost function DcBits(lens: seq<nat>, values: ValueRow, diff: int): Option<seq<bool>> {
    if Size(diff) > 15 then None else Both(CodeBits(lens, values, Size(diff)), Some(ValueBits(diff)))
  }

  /** A block of coefficients in zigzag order, after one whose DC coefficient is `pred`. */
  ghost function BlockBits(dc: seq<nat>, dcValues: ValueRow, ac: seq<nat>, acValues: ValueRow, pred: int,
      v: seq<int>): Option<seq<bool>>
    requires |v| == 64
  {
    Both(DcBits(dc, dcValues, v[0] - pred), AcBits(ac, acValues, v, 1))
  }

  lemma DcBack(lens: seq<nat>, values: ValueRow, diff: int, c: Scan, at: nat)
    requires |lens| <= 256 && DcBits(lens, values, diff).Some? && HasBits(c, at, DcBits(lens, values, diff).value)
    ensures DcPart(lens, values, c, at) == Done(at + |DcBits(lens, values, diff).value|, diff)
  {
    hide ValueBits, Window, Available, CodeBits, Decode, Extend, HasBits;
    var bits := CodeBits(lens, values, Size(diff)).value;
    HasBoth(c, at, bits, ValueBits(diff));
    CodeRead(lens, values, Size(diff), c, at);
    if diff != 0 {
      ValueRead(c, at + |bits|, diff);
    } else {
      NoBits(c, at + |bits|, ValueBits(diff));
    }
  }

  lemma NoBits(c: Scan, at: nat, bits: seq<bool>)
    requires HasBits(c, at, bits) && bits == []
    ensures Available(c, at)
  {
  }

  /** What is put out for the coefficients: each times the quantizer of its place, as a short. */
  ghost predicate Dequantized(v: seq<int>, dequant: seq<nat>, out: seq<int>)
    requires |v| == |dequant| == 64
  {
    |out| == 64 && forall z: Index :: NumberAt(z) < 64 && out[z] == Short(v[NumberAt(z)] * dequant[z])
  }

  /** A block that stands in the scan is decoded to its coefficients times their quantizers, at their places; it is
      refused exactly if the DC coefficient is no int, or is no short when it is multiplied. */
  lemma BlockBack(dc: seq<nat>, dcValues: ValueRow, ac: seq<nat>, acValues: ValueRow, dequant: seq<nat>, pred: int,
      v: seq<int>, c: Scan, at: nat) returns (out: seq<int>)
    requires |dc| <= 256 && |ac| <= 256 && |v| == |dequant| == 64
    requires BlockBits(dc, dcValues, ac, acValues, pred, v).Some?
    requires HasBits(c, at, BlockBits(dc, dcValues, ac, acValues, pred, v).value)
    ensures var block := Block(dc, dcValues, ac, acValues, dequant, pred, c, at);
            if INT_MIN <= v[0] <= INT_MAX && -0x8000 <= v[0] * dequant[0] <= 0x7FFF
            then block == Done(at + |BlockBits(dc, dcValues, ac, acValues, pred, v).value|, out)
                 && Dequantized(v, dequant, out)
            else block == Corrupt
  {
    hide HasBits, DcBits, AcBits, DcPart, AcPart, AcPlaced, Dequantized, Short;
    var first, rest := DcBits(dc, dcValues, v[0] - pred).value, AcBits(ac, acValues, v, 1).value;
    HasBoth(c, at, first, rest);
    DcBack(dc, dcValues, v[0] - pred, c, at);
    assert pred + (v[0] - pred) == v[0];
    var data := Zeros64()[0 := v[0] * dequant[0]];
    out := AcBack(ac, acValues, dequant, v, c, at + |first|, 1, data);
    if -0x8000 <= v[0] * dequant[0] <= 0x7FFF { AllPlaced(v, dequant, data, out); }
  }

  lemma AllPlaced(v: seq<int>, dequant: seq<nat>, data: seq<int>, out: seq<int>)
    requires |v| == |dequant| == 64 && -0x8000 <= v[0] * dequant[0] <= 0x7FFF
    requires data == Zeros64()[0 := v[0] * dequant[0]] && AcPlaced(v, 1, dequant, data, out)
    ensures Dequantized(v, dequant, out)
  {
    hide NumberAt;
    NumbersBack(0);
    forall z: Index
      ensures NumberAt(z) < 64 && out[z] == Short(v[NumberAt(z)] * dequant[z])
    {
      NumbersBelow(z);
      ShortIs(v[0] * dequant[0]);
      if NumberAt(z) == 0 { assert z == Unzigzag(0) == 0; } else { ZeroTimes(v[NumberAt(z)], dequant[z]); }
    }
  }

  lemma ZeroTimes(x: int, d: nat)
    ensures x == 0 ==> Short(x * d) == 0
  {
  }

  /** A number that is a short is kept, and every other is off by a multiple of 65536. */
  lemma ShortIs(x: int)
    ensures -0x8000 <= Short(x) <= 0x7FFF && (Short(x) - x) % 0x10000 == 0
    ensures -0x8000 <= x <= 0x7FFF ==> Short(x) == x
  {
  }

  // ---- bytes ----

  /** Whole bytes of bits, the first bit of each the most significant. */
  function PackBits(bits: seq<bool>): (data: seq<Byte>)
    requires |bits| % 8 == 0
    ensures |data| == |bits| / 8
    decreases |bits|
  {
    if bits == [] then []
    else
      MsbValBound(bits[..8]);
      Powers();
      [MsbVal(bits[..8])] + PackBits(bits[8..])
  }

  lemma {:induction false} PackedAt(bits: seq<bool>, k: nat)
    requires |bits| % 8 == 0 && 8 * k + 8 <= |bits|
    ensures PackBits(bits)[k] == MsbVal(bits[8 * k..8 * k + 8])
    decreases k
  {
    if k > 0 {
      PackedAt(bits[8..], k - 1);
      assert bits[8..][8 * (k - 1)..8 * (k - 1) + 8] == bits[8 * k..8 * k + 8];
    }
  }

  lemma BitOf(w: seq<bool>, i: nat)
    requires |w| == 8 && i < 8
    ensures Shr(MsbVal(w), 7 - i) % 2 == 1 <==> w[i]
  {
    MsbValPrefix(w, i + 1);
    assert w[..i + 1][..i] == w[..i];
  }

  /** The file of an encoder: something before, the bytes of the bits with stuffed zeros, and a marker. */
  function FileOf(before: seq<Byte>, bits: seq<bool>, fill: nat, code: Byte, rest: seq<Byte>): seq<Byte>
    requires |bits| % 8 == 0
  {
    before + Stuffed(PackBits(bits)) + MarkerWith(fill, code, rest)
  }

  /** A scan that has been written so has the bits in order. */
  lemma WrittenBits(before: seq<Byte>, bits: seq<bool>, fill: nat, code: Byte, rest: seq<Byte>, at: nat, n: nat)
    requires |bits| % 8 == 0 && code != 0 && code != 0xFF && at + n <= |bits|
    ensures HasBits(Scan(FileOf(before, bits, fill, code, rest), |before|), at, bits[at..at + n])
  {
    hide Stuffed, MarkerWith, PlaceAt, CodedByte, MsbVal, Shr;
    var c := Scan(FileOf(before, bits, fill, code, rest), |before|);
    forall i: nat | i < |bits| ensures CodedBit(c, i) == bits[i] {
      StuffingInverts(before, PackBits(bits), fill, code, rest, i / 8);
      PackedAt(bits, i / 8);
      BitOf(bits[8 * (i / 8)..8 * (i / 8) + 8], i % 8);
    }
    assert Window(c, at, n) == bits[at..at + n];
    StuffingInverts(before, PackBits(bits), fill, code, rest, (at + n + 7) / 8);
  }

  /** So a block is decoded from the bytes of a file in which its bits stand at bit `at` of the scan. */
  lemma BlockFromFile(dc: seq<nat>, dcValues: ValueRow, ac: seq<nat>, acValues: ValueRow, dequant: seq<nat>, pred: int,
      v: seq<int>, before: seq<Byte>, bits: seq<bool>, fill: nat, code: Byte, rest: seq<Byte>, at: nat)
    returns (out: seq<int>)
    requires |dc| <= 256 && |ac| <= 256 && |v| == |dequant| == 64
    requires |bits| % 8 == 0 && code != 0 && code != 0xFF
    requires var b := BlockBits(dc, dcValues, ac, acValues, pred, v);
             b.Some? && at + |b.value| <= |bits| && bits[at..at + |b.value|] == b.value
    ensures var c := Scan(FileOf(before, bits, fill, code, rest), |before|);
            var block := Block(dc, dcValues, ac, acValues, dequant, pred, c, at);
            if INT_MIN <= v[0] <= INT_MAX && -0x8000 <= v[0] * dequant[0] <= 0x7FFF
            then block == Done(at + |BlockBits(dc, dcValues, ac, acValues, pred, v).value|, out)
                 && Dequantized(v, dequant, out)
            else block == Corrupt
  {
    hide BlockBits, HasBits, Block, FileOf, Dequantized;
    var n := |BlockBits(dc, dcValues, ac, acValues, pred, v).value|;
    WrittenBits(before, bits, fill, code, rest, at, n);
    out := BlockBack(dc, dcValues, ac, acValues, dequant, pred, v,
                     Scan(FileOf(before, bits, fill, code, rest), |before|), at);
  }

  // ---- a code of Annex K ----

  /** How many codes of each length table K.3 has, for differences of luminance. */
  const LUMINANCE_DC: seq<nat> := [0, 1, 5, 1, 1, 1, 1, 1, 1, 0, 0, 0, 0, 0, 0, 0]

  const LENGTHS: seq<nat> := [2, 3, 3, 3, 3, 3, 4, 5, 6, 7, 8, 9]

  /** And the codes that it has. */
  const WORDS: seq<nat> := [0x0, 0x2, 0x3, 0x4, 0x5, 0x6, 0xE, 0x1E, 0x3E, 0x7E, 0xFE, 0x1FE]

  lemma LuminanceLengths()
    ensures Sizes(LUMINANCE_DC, 16) == LENGTHS
  {
    assert Sizes(LUMINANCE_DC, 3) == [2, 3, 3, 3, 3, 3];
    assert Sizes(LUMINANCE_DC, 6) == [2, 3, 3, 3, 3, 3, 4, 5, 6];
    assert Sizes(LUMINANCE_DC, 9) == LENGTHS;
    assert Sizes(LUMINANCE_DC, 12) == LENGTHS;
    assert Sizes(LUMINANCE_DC, 16) == LENGTHS;
  }

  /** How many of the first `n` codes have `l` bits. */
  lemma {:induction false} LuminanceCounts(n: nat, l: nat)
    requires n <= 12
    ensures Count(LENGTHS[..n], l) == if l == 2 then (if n < 1 then n else 1)
                                      else if l == 3 then (if n < 1 then 0 else if n < 6 then n - 1 else 5)
                                      else if 4 <= l <= 9 && n > l + 2 then 1 else 0
  {
    if n > 0 {
      LuminanceCounts(n - 1, l);
      CountStep(LENGTHS, n - 1, l);
    }
  }

  /** The numbers that follow the last codes of each length. */
  const ENDS: seq<nat> := [0, 0, 1, 7, 15, 31, 63, 127, 255, 511]

  lemma {:induction false} LuminanceEnds(l: nat)
    requires l <= 9
    ensures EndCode(LENGTHS, l) == ENDS[l]
  {
    if l > 0 {
      LuminanceEnds(l - 1);
      LuminanceCounts(12, l);
      assert LENGTHS[..12] == LENGTHS;
      EndIs(LENGTHS, l);
    }
  }

  lemma EndIs(lens: seq<nat>, l: nat)
    requires l > 0
    ensures EndCode(lens, l) == FirstCode(lens, l) + Count(lens, l) && FirstCode(lens, l) == 2 * EndCode(lens, l - 1)
  {
  }

  lemma LuminanceCode(n: nat)
    requires n < 12
    ensures |Sizes(LUMINANCE_DC, 16)| == 12 && Sizes(LUMINANCE_DC, 16)[n] == LENGTHS[n]
    ensures CodeOf(Sizes(LUMINANCE_DC, 16), n) == WORDS[n]
  {
    hide Sizes, Count, EndCode, FirstCode;
    LuminanceLengths();
    var l := LENGTHS[n];
    LuminanceCounts(n, l);
    LuminanceEnds(l - 1);
    EndIs(LENGTHS, l);
  }
}

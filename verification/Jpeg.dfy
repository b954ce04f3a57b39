/**
The entropy decoder for the baseline JPEG blocks of 3rd_party/imageHelper/stb_image.h, against sections
F.2.2.1 to F.2.2.5 of ITU-T T.81.
 */
module Jpeg {
  import opened Bits
  import opened CanonicalCode
  import opened JpegHuffman
  import opened JpegStream
  import opened Wrappers
  import LsbStream

  // ---- RECEIVE and EXTEND ----

  /** The value that `t` bits stand for (figure F.12). */
  function Extend(v: nat, t: nat): int
    requires t > 0
  {
    if v < Pow2(t - 1) then v + 1 - Pow2(t) else v
  }

  const JBIAS: seq<int> :=
    [0, -1, -3, -7, -15, -31, -63, -127, -255, -511, -1023, -2047, -4095, -8191, -16383, -32767]

  lemma {:induction false} Bias(n: nat)
    requires n < 16
    ensures JBIAS[n] == 1 - Pow2(n)
  {
    if n > 0 { Bias(n - 1); }
  }

  /** The first of `n` bits tells whether `Extend` changes their value. */
  lemma SignBit(w: seq<bool>)
    requires w != []
    ensures MsbVal(w[..1]) <= 1 && (MsbVal(w[..1]) == 0 <==> MsbVal(w) < Pow2(|w| - 1))
  {
    MsbValPrefix(w, 1);
    ShrBelow(MsbVal(w), 1, |w| - 1);
    assert w[..1][..0] == [];
  }

  /** The conversion of an `int` to a `short`. */
  function Short(x: int): int {
    (x + 0x8000) % 0x10000 - 0x8000
  }

  // ---- the combined table for short codes and small values ----

  /** The nine bits of a number. */
  function NineBits(x: nat): (w: seq<bool>)
    ensures |w| == FAST_BITS
  {
    Reversed(Digits(x, FAST_BITS))
  }

  lemma NineBitsOf(w: seq<bool>)
    requires |w| == FAST_BITS
    ensures NineBits(MsbVal(w)) == w && MsbVal(w) < FAST_SIZE
  {
    hide MsbVal, LsbVal, Digits, Pow2;
    Powers();
    MsbValBound(w);
    NineBitsValue(MsbVal(w));
    MsbValInjective(NineBits(MsbVal(w)), w);
  }

  lemma NineBitsValue(x: nat)
    requires x < FAST_SIZE
    ensures MsbVal(NineBits(x)) == x
  {
    hide MsbVal, LsbVal, Digits, Pow2, Low;
    Powers();
    LowBound(x, FAST_BITS);
    MsbValReversed(Digits(x, FAST_BITS));
  }

  /** An entry holds a value, the run of zeros before it and the number of bits of both code and value. */
  function Packed(value: int, run: nat, bits: nat): int {
    256 * value + 16 * run + bits
  }

  /** The entry for nine bits: what they begin with if that is a code and all the bits of a value from -128 to 127. */
  ghost function AcEntry(lens: seq<nat>, values: ValueRow, w: seq<bool>): int
    requires |w| == FAST_BITS && |lens| <= 256
  {
    var d := Decode(lens, w);
    if d.None? || d.value == NOT_FAST then 0
    else
      var len, s := lens[d.value], values[d.value] % 16;
      if s == 0 || len + s > FAST_BITS then 0
      else
        var v := Extend(MsbVal(w[len..len + s]), s);
        if -128 <= v <= 127 then Packed(v, values[d.value] / 16, len + s) else 0
  }

  /** A non-zero entry is the decoded symbol followed by the received and extended value: run, value and bits taken. */
  lemma AcEntryMeans(lens: seq<nat>, values: ValueRow, w: seq<bool>) returns (f: Found, s: nat)
    requires |w| == LONGEST && |lens| <= 256 && AcEntry(lens, values, w[..FAST_BITS]) != 0
    ensures Expected(lens, w) == Some(f) && f.n < |lens| && s == values[f.n] % 16 > 0 && f.bits + s <= FAST_BITS
    ensures var r := AcEntry(lens, values, w[..FAST_BITS]);
            && r % 16 == f.bits + s
            && r / 16 % 16 == values[f.n] / 16
            && r / 256 == Extend(MsbVal(w[f.bits..f.bits + s]), s)
  {
    var v := w[..FAST_BITS];
    var n := Decode(lens, v).value;
    f, s := Found(n, lens[n]), values[n] % 16;
    assert v[..lens[n]] == w[..lens[n]];
    DecodeUnique(lens, w, n);
    assert v[f.bits..f.bits + s] == w[f.bits..f.bits + s];
    Unpack(Extend(MsbVal(w[f.bits..f.bits + s]), s), values[n] / 16, f.bits + s);
  }

  lemma Unpack(value: int, run: nat, bits: nat)
    requires run < 16 && bits < 16
    ensures var r := Packed(value, run, bits); r % 16 == bits && r / 16 % 16 == run && r / 256 == value
    ensures -128 <= value <= 127 ==> Short(Packed(value, run, bits)) == Packed(value, run, bits)
  {
    var r := Packed(value, run, bits);
    assert r == 16 * (16 * value + run) + bits;
  }

  /** What the direct table says about nine bits. */
  lemma FastDecodes(fast: FastRow, lens: seq<nat>, x: nat)
    requires x < FAST_SIZE && |lens| <= 256 && FastFor(fast, lens, |lens|)
    ensures var d := Decode(lens, NineBits(x));
            if fast[x] < NOT_FAST then d == Some(fast[x]) && fast[x] < |lens| else d.None? || d.value == NOT_FAST
  {
    var w := NineBits(x);
    assert w[..FAST_BITS] == w;
    NineBitsValue(x);
    assert FastAt(fast[x], lens, |lens|, x);
    if fast[x] < NOT_FAST {
      FastMatchIsMatch(lens, w, fast[x]);
      DecodeUnique(lens, w, fast[x]);
    } else if Decode(lens, w).Some? {
      FastMatchIsMatch(lens, w, Decode(lens, w).value);
    }
  }

  /** Shifting the code out of nine bits and all but the next `s` of the others. */
  lemma Magnitude(x: nat, len: nat, s: nat)
    requires x < FAST_SIZE && len + s <= FAST_BITS
    ensures Shr(Low(Shl(x, len), FAST_BITS), FAST_BITS - s) == MsbVal(NineBits(x)[len..len + s])
  {
    hide MsbVal, NineBits, Shl, Shr, Low;
    var w := NineBits(x);
    var u, v := w[..len], w[len..];
    NineBitsValue(x);
    assert u + v == w;
    ShiftOut(u, v);
    MsbValPrefix(v + Zeros(len), s);
    assert (v + Zeros(len))[..s] == w[len..len + s];
  }

  /** The combined table has the entry of every nine bits. */
  ghost predicate AcFor(fac: seq<int>, lens: seq<nat>, values: ValueRow) {
    |lens| <= 256 && |fac| == FAST_SIZE && forall x: nat :: x < FAST_SIZE ==>
              fac[x] == AcEntry(lens, values, NineBits(x))
  }

  /** The combined table, built from the direct table. */
  method BuildFastAc(h: Table, ghost lens: seq<nat>) returns (fac: seq<int>)
    requires h.For(lens)
    ensures AcFor(fac, lens, h.values)
  {
    hide NineBits, Decode, Shl, Shr, Low, Pow2, MsbVal, Short, Packed, FastFor, CodesFor, EndsFor;
    fac := seq(FAST_SIZE, _ => 0);
    for i := 0 to FAST_SIZE
      invariant |fac| == FAST_SIZE
      invariant forall x: nat :: x < i ==> fac[x] == AcEntry(lens, h.values, NineBits(x))
    {
      var fast := h.fast[i];
      fac := fac[i := 0];
      FastDecodes(h.fast, lens, i);
      if fast < NOT_FAST {
        var rs := h.values[fast];
        var run, magbits, len := rs / 16 % 16, rs % 16, h.size[fast];
        if magbits > 0 && len + magbits <= FAST_BITS {
          Magnitude(i, len, magbits);
          var k: int := Shr(Low(Shl(i, len), FAST_BITS), FAST_BITS - magbits);
          if k < Pow2(magbits - 1) { k := k + 1 - Pow2(magbits); }
          if -128 <= k <= 127 {
            Unpack(k, run, len + magbits);
            fac := fac[i := Short(Packed(k, run, len + magbits))];
          }
        }
      }
    }
  }

  // ---- one block (F.2.2.1 and F.2.2.2) ----

  const INT_MAX: int := 0x7FFF_FFFF
  const INT_MIN: int := -0x8000_0000

  /** Division in C. */
  function Quotient(a: int, b: int): int
    requires b != 0
  {
    if (a >= 0) == (b > 0) then Abs(a) / Abs(b) else -(Abs(a) / Abs(b))
  }

  function Abs(a: int): nat {
    if a < 0 then -a else a
  }

  predicate AddIntsValid(a: int, b: int) {
    if (a >= 0) != (b >= 0) then true
    else if a < 0 && b < 0 then a >= INT_MIN - b
    else a <= INT_MAX - b
  }

  predicate Mul2ShortsValid(a: int, b: int) {
    if b == 0 || b == -1 then true
    else if (a >= 0) == (b >= 0) then a <= Quotient(0x7FFF, b)
    else if b < 0 then a <= Quotient(-0x8000, b)
    else a >= Quotient(-0x8000, b)
  }

  /** The sum of two ints is refused exactly if it is none. */
  lemma SumFits(a: int, b: int)
    requires INT_MIN <= a <= INT_MAX && INT_MIN <= b <= INT_MAX
    ensures AddIntsValid(a, b) <==> INT_MIN <= a + b <= INT_MAX
  {
  }

  /** A product with a quantizer, which is not negative, is refused exactly if it is no short. */
  lemma ProductFits(a: int, b: nat)
    ensures Mul2ShortsValid(a, b) <==> -0x8000 <= a * b <= 0x7FFF
  {
    if b > 0 {
      Floor(Abs(a), b, 0x7FFF);
      Floor(Abs(a), b, 0x8000);
      assert a < 0 ==> a * b == -(Abs(a) * b);
    }
  }

  lemma Floor(a: nat, b: nat, m: nat)
    requires b > 0
    ensures a <= m / b <==> a * b <= m
  {
    var q := m / b;
    assert m == q * b + m % b;
    if a <= q {
      MulLe(a, q, b);
    } else {
      MulLe(q + 1, a, b);
    }
  }

  lemma {:induction false} MulLe(x: nat, y: nat, b: nat)
    requires x <= y
    ensures x * b <= y * b
  {
    if b > 0 { MulLe(x, y, b - 1); }
  }

  /** For which numbers the test of a product is right: for a negative second one, only if the first is not negative, or
      is the one that just fits. */
  lemma ProductTest(a: int, b: int)
    ensures (Mul2ShortsValid(a, b) <==> -0x8000 <= a * b <= 0x7FFF)
            <==> (b >= 0 || (b == -1 && -0x7FFF <= a <= 0x8000) || (b < -1 && (a >= 0 || a == -(0x7FFF / -b))))
  {
    if b >= 0 {
      ProductFits(a, b);
    } else {
      Floor(Abs(a), -b, 0x7FFF);
      Floor(Abs(a), -b, 0x8000);
      assert a >= 0 ==> a * b == -(Abs(a) * -b);
      assert a < 0 ==> a * b == Abs(a) * -b;
    }
  }

  type Index = z: nat | z < 64

  /** Where coefficient `k` of the zigzag order belongs; the last place for all beyond the last. */
  function Unzigzag(k: nat): Index {
    match k
    case 0 => 0 case 1 => 1 case 2 => 8 case 3 => 16 case 4 => 9 case 5 => 2 case 6 => 3 case 7 => 10
    case 8 => 17 case 9 => 24 case 10 => 32 case 11 => 25 case 12 => 18 case 13 => 11 case 14 => 4 case 15 => 5
    case 16 => 12 case 17 => 19 case 18 => 26 case 19 => 33 case 20 => 40 case 21 => 48 case 22 => 41 case 23 => 34
    case 24 => 27 case 25 => 20 case 26 => 13 case 27 => 6 case 28 => 7 case 29 => 14 case 30 => 21 case 31 => 28
    case 32 => 35 case 33 => 42 case 34 => 49 case 35 => 56 case 36 => 57 case 37 => 50 case 38 => 43 case 39 => 36
    case 40 => 29 case 41 => 22 case 42 => 15 case 43 => 23 case 44 => 30 case 45 => 37 case 46 => 44 case 47 => 51
    case 48 => 58 case 49 => 59 case 50 => 52 case 51 => 45 case 52 => 38 case 53 => 31 case 54 => 39 case 55 => 46
    case 56 => 53 case 57 => 60 case 58 => 61 case 59 => 54 case 60 => 47 case 61 => 55 case 62 => 62 case 63 => 63
    case _ => 63
  }

  /** The next place on the walk along the diagonals, up and down by turns (figure A.6). */
  function Walk(z: Index): Index {
    var x, y := z % 8, z / 8;
    if (x + y) % 2 == 0 then
      if x == 7 then (if y < 7 then z + 8 else z) else if y == 0 then z + 1 else z - 7
    else
      if y == 7 then (if x < 7 then z + 1 else z) else if x == 0 then z + 8 else z + 7
  }

  lemma FirstSteps(k: nat)
    requires k < 21
    ensures Unzigzag(k + 1) == Walk(Unzigzag(k))
  {
  }

  lemma MiddleSteps(k: nat)
    requires 21 <= k < 42
    ensures Unzigzag(k + 1) == Walk(Unzigzag(k))
  {
  }

  lemma LastSteps(k: nat)
    requires k >= 42
    ensures Unzigzag(k + 1) == Walk(Unzigzag(k))
  {
  }

  /** The table follows the walk from the first place, and stays in the last. */
  lemma ZigzagOrder(k: nat)
    ensures Unzigzag(0) == 0 && Unzigzag(k + 1) == Walk(Unzigzag(k))
    ensures k >= 63 ==> Unzigzag(k) == 63
  {
    hide Walk;
    if k < 21 { FirstSteps(k); }
    else if k < 42 { MiddleSteps(k); }
    else { LastSteps(k); }
  }

  /** What is decoded and where it ends; or that the scan is corrupt, or has too few bits. */
  datatype Outcome<T> = Done(at: nat, value: T) | Corrupt | RanOut

  /** The difference of a DC coefficient from the one before: the symbol is the number of its bits. */
  ghost function DcPart(lens: seq<nat>, values: ValueRow, c: Scan, at: nat): Outcome<int>
    requires |lens| <= 256
  {
    var f := Expected(lens, Window(c, at, LONGEST));
    if f.None? then Corrupt
    else
      var t, value := values[f.value.n] as nat, at + f.value.bits;
      if !Available(c, value + t) then RanOut
      else if t > 15 then Corrupt
      else Done(value + t, if t == 0 then 0 else Extend(MsbVal(Window(c, value, t)), t))
  }

  datatype AcSymbol = Coefficient(run: nat, value: int) | ZeroRun | EndOfBlock

  /** A symbol of the AC part: a run of zeros in its high half and the number of bits of a value in its low half. */
  ghost function NextAc(lens: seq<nat>, values: ValueRow, c: Scan, at: nat): (r: Outcome<AcSymbol>)
    requires |lens| <= 256
    ensures r.Done? && r.value.Coefficient? ==> r.value.run < 16
  {
    var f := Expected(lens, Window(c, at, LONGEST));
    if f.None? then Corrupt
    else
      var rs, value := values[f.value.n] as nat, at + f.value.bits;
      var s := rs % 16;
      if !Available(c, value + s) then RanOut
      else if s > 0 then Done(value + s, Coefficient(rs / 16, Extend(MsbVal(Window(c, value, s)), s)))
      else Done(value, if rs == 0xF0 then ZeroRun else EndOfBlock)
  }

  /** Coefficient `k` of a block. */
  function Placed(data: seq<int>, dequant: seq<nat>, k: nat, value: int): (r: seq<int>)
    requires |data| == |dequant| == 64 && k < 79
    ensures |r| == 64
  {
    data[Unzigzag(k) := Short(value * dequant[Unzigzag(k)])]
  }

  /** The AC coefficients from `k` on. */
  ghost function AcPart(lens: seq<nat>, values: ValueRow, dequant: seq<nat>, c: Scan, at: nat, k: nat,
      data: seq<int>): Outcome<seq<int>>
    requires |lens| <= 256 && |data| == |dequant| == 64
    decreases 64 - k
  {
    if k >= 64 then Done(at, data)
    else
      match NextAc(lens, values, c, at)
      case Corrupt => Corrupt
      case RanOut => RanOut
      case Done(next, EndOfBlock) => Done(next, data)
      case Done(next, ZeroRun) => AcPart(lens, values, dequant, c, next, k + 16, data)
      case Done(next, Coefficient(run, value)) =>
        AcPart(lens, values, dequant, c, next, k + run + 1, Placed(data, dequant, k + run, value))
  }

  function Zeros64(): (r: seq<int>)
    ensures |r| == 64
  {
    seq(64, _ => 0)
  }

  /** A block: the dequantized DC coefficient and the AC coefficients. */
  ghost function Block(dc: seq<nat>, dcValues: ValueRow, ac: seq<nat>, acValues: ValueRow, dequant: seq<nat>,
      pred: int, c: Scan, at: nat): Outcome<seq<int>>
    requires |dc| <= 256 && |ac| <= 256 && |dequant| == 64
  {
    match DcPart(dc, dcValues, c, at)
    case Corrupt => Corrupt
    case RanOut => RanOut
    case Done(next, diff) =>
      if !(INT_MIN <= pred + diff <= INT_MAX) || !(-0x8000 <= (pred + diff) * dequant[0] <= 0x7FFF) then Corrupt
      else AcPart(ac, acValues, dequant, c, next, 1, Zeros64()[0 := (pred + diff) * dequant[0]])
  }

  /** What a decoder that returns `ok` with these results may make of an outcome: if the bits run out, anything. */
  ghost predicate Meets<T>(o: Outcome<T>, ok: bool, at: nat, value: T) {
    match o
    case Done(end, v) => ok && at == end && value == v
    case Corrupt => !ok
    case RanOut => true
  }

  // ---- and beyond the marker ----

  /** What a reader gets, and how it is left; or that it fails. */
  datatype Result<T> = Read(reader: Reader, value: T) | Failed

  /** The symbol of the next code; the reader fails if it does not have all bits of the code. */
  ghost function ReadSymbol(lens: seq<nat>, c: Scan, r: Reader): Result<Found> {
    var q, f := Asked(c, r, LONGEST), Expected(lens, Window(c, r.at, LONGEST));
    if f.None? || f.value.bits > q.bits then Failed else Read(Take(q, f.value.bits), f.value)
  }

  /** The value of the next `n` bits; 0, and nothing is taken, if the reader does not have them. */
  ghost function ReadValue(c: Scan, r: Reader, n: nat): (Reader, int)
    requires 0 < n < 16
  {
    var q := Asked(c, r, n);
    if q.bits < n then (q, 0) else (Take(q, n), Extend(MsbVal(Window(c, r.at, n)), n))
  }

  /** Before every symbol the reader is asked for bits twice, so it has enough even if the marker comes up. */
  ghost function ReadDc(lens: seq<nat>, values: ValueRow, c: Scan, r: Reader): Result<int>
    requires |lens| <= 256
  {
    match ReadSymbol(lens, c, Asked(c, r, LONGEST))
    case Failed => Failed
    case Read(q, f) =>
      var t := values[f.n] as nat;
      if t > 15 then Failed
      else if t == 0 then Read(q, 0)
      else
        var v := ReadValue(c, q, t);
        Read(v.0, v.1)
  }

  /** Where the combined table has a value with its code, it is used before bits are asked for again. */
  ghost function ReadSymbolAc(lens: seq<nat>, values: ValueRow, c: Scan, r: Reader): (s: Result<AcSymbol>)
    requires |lens| <= 256
    ensures s.Read? && s.value.Coefficient? ==> s.value.run < 16
  {
    var q, e := Asked(c, r, LONGEST), AcEntry(lens, values, Window(c, r.at, FAST_BITS));
    if e == 0 then ReadSlowAc(lens, values, c, q)
    else if e % 16 > q.bits then Failed
    else Read(Take(q, e % 16), Coefficient(e / 16 % 16, e / 256))
  }

  ghost function ReadSlowAc(lens: seq<nat>, values: ValueRow, c: Scan, r: Reader): (s: Result<AcSymbol>)
    requires |lens| <= 256
    ensures s.Read? && s.value.Coefficient? ==> s.value.run < 16
  {
    match ReadSymbol(lens, c, r)
    case Failed => Failed
    case Read(q, f) =>
      var rs := values[f.n] as nat;
      if rs % 16 == 0 then Read(q, if rs == 0xF0 then ZeroRun else EndOfBlock)
      else
        var v := ReadValue(c, q, rs % 16);
        Read(v.0, Coefficient(rs / 16, v.1))
  }

  ghost function ReadAcPart(lens: seq<nat>, values: ValueRow, dequant: seq<nat>, c: Scan, r: Reader, k: nat,
      data: seq<int>): Result<seq<int>>
    requires |lens| <= 256 && |data| == |dequant| == 64
    decreases 64 - k
  {
    if k >= 64 then Read(r, data)
    else
      match ReadSymbolAc(lens, values, c, r)
      case Failed => Failed
      case Read(q, EndOfBlock) => Read(q, data)
      case Read(q, ZeroRun) => ReadAcPart(lens, values, dequant, c, q, k + 16, data)
      case Read(q, Coefficient(run, value)) =>
        ReadAcPart(lens, values, dequant, c, q, k + run + 1, Placed(data, dequant, k + run, value))
  }

  ghost function ReadBlock(dc: seq<nat>, dcValues: ValueRow, ac: seq<nat>, acValues: ValueRow, dequant: seq<nat>,
      pred: int, c: Scan, r: Reader): Result<seq<int>>
    requires |dc| <= 256 && |ac| <= 256 && |dequant| == 64
  {
    match ReadDc(dc, dcValues, c, r)
    case Failed => Failed
    case Read(q, diff) =>
      if !(INT_MIN <= pred + diff <= INT_MAX) || !(-0x8000 <= (pred + diff) * dequant[0] <= 0x7FFF) then Failed
      else ReadAcPart(ac, acValues, dequant, c, q, 1, Zeros64()[0 := (pred + diff) * dequant[0]])
  }

  ghost predicate Gives<T>(r: Result<T>, ok: bool, reader: Reader, value: T) {
    if ok then r == Read(reader, value) else r == Failed
  }

  lemma ReadAcStep(lens: seq<nat>, values: ValueRow, dequant: seq<nat>, c: Scan, r: Reader, k: nat, data: seq<int>)
    requires |lens| <= 256 && |data| == |dequant| == 64 && k < 64
    ensures var whole, step := ReadAcPart(lens, values, dequant, c, r, k, data), ReadSymbolAc(lens, values, c, r);
            && (step.Failed? ==> whole == Failed)
            && (step.Read? && step.value.EndOfBlock? ==> whole == Read(step.reader, data))
            && (step.Read? && step.value.ZeroRun? ==>
                  whole == ReadAcPart(lens, values, dequant, c, step.reader, k + 16, data))
            && (step.Read? && step.value.Coefficient? ==>
                  var run := k + step.value.run;
                  && run < 79
                  && whole == ReadAcPart(lens, values, dequant, c, step.reader, run + 1,
                                         Placed(data, dequant, run, step.value.value)))
  {
    hide ReadSymbolAc, Placed;
  }

  lemma ReadAcOver(lens: seq<nat>, values: ValueRow, dequant: seq<nat>, c: Scan, r: Reader, k: nat, data: seq<int>)
    requires |lens| <= 256 && |data| == |dequant| == 64 && k >= 64
    ensures ReadAcPart(lens, values, dequant, c, r, k, data) == Read(r, data)
  {
  }

  /** The table's entry is that of the bits. */
  lemma EntryOf(fac: seq<int>, lens: seq<nat>, values: ValueRow, c: Scan, at: nat, x: nat)
    requires AcFor(fac, lens, values) && x == MsbVal(Window(c, at, LONGEST)[..FAST_BITS]) && x < FAST_SIZE
    ensures fac[x] == AcEntry(lens, values, Window(c, at, FAST_BITS))
  {
    hide AcEntry, NineBits, MsbVal;
    NineBitsOf(Window(c, at, LONGEST)[..FAST_BITS]);
    WindowSplit(c, at, LONGEST, FAST_BITS);
  }

  lemma ReadDcIs(lens: seq<nat>, values: ValueRow, c: Scan, r: Reader)
    requires |lens| <= 256
    ensures var q, f := Asked(c, Asked(c, r, LONGEST), LONGEST), Expected(lens, Window(c, r.at, LONGEST));
            if f.None? || f.value.bits > q.bits || values[f.value.n] > 15 then ReadDc(lens, values, c, r) == Failed
            else
              var t, taken := values[f.value.n] as nat, Take(q, f.value.bits);
              ReadDc(lens, values, c, r)
              == if t == 0 then Read(taken, 0)
                 else Read(ReadValue(c, taken, t).0, ReadValue(c, taken, t).1)
  {
    hide Decode, ReadValue, Asked, Window;
  }

  /** So a difference is refused for what the bits are, never for want of bits. */
  lemma ReadDcFails(lens: seq<nat>, values: ValueRow, c: Scan, r: Reader)
    requires |lens| <= 256
    ensures ReadDc(lens, values, c, r) == Failed
            <==> var f := Expected(lens, Window(c, r.at, LONGEST)); f.None? || values[f.value.n] > 15
  {
    hide Asked, ReadDc, Window, Decode;
    AskedTwice(c, r, LONGEST);
    ReadDcIs(lens, values, c, r);
  }

  lemma ReadSlowIs(lens: seq<nat>, values: ValueRow, c: Scan, r: Reader)
    requires |lens| <= 256
    ensures var q, f := Asked(c, r, LONGEST), Expected(lens, Window(c, r.at, LONGEST));
            if f.None? || f.value.bits > q.bits then ReadSlowAc(lens, values, c, r) == Failed
            else
              var rs, taken := values[f.value.n] as nat, Take(q, f.value.bits);
              ReadSlowAc(lens, values, c, r)
              == if rs % 16 == 0 then Read(taken, if rs == 0xF0 then ZeroRun else EndOfBlock)
                 else Read(ReadValue(c, taken, rs % 16).0, Coefficient(rs / 16, ReadValue(c, taken, rs % 16).1))
  {
    hide Decode, ReadValue, Asked, Window;
  }

  lemma ReadBlockOf(dc: seq<nat>, dcValues: ValueRow, ac: seq<nat>, acValues: ValueRow, dequant: seq<nat>, pred: int,
      c: Scan, r: Reader, ok: bool, q: Reader, diff: int)
    requires |dc| <= 256 && |ac| <= 256 && |dequant| == 64
    requires Gives(ReadDc(dc, dcValues, c, r), ok, q, diff)
    ensures var block, sum := ReadBlock(dc, dcValues, ac, acValues, dequant, pred, c, r), pred + diff;
            if !ok || !(INT_MIN <= sum <= INT_MAX) || !(-0x8000 <= sum * dequant[0] <= 0x7FFF) then block == Failed
            else block == ReadAcPart(ac, acValues, dequant, c, q, 1, Zeros64()[0 := sum * dequant[0]])
  {
    hide ReadAcPart, ReadDc;
  }

  /** What is left of a block after its difference. */
  lemma BlockOf(dc: seq<nat>, dcValues: ValueRow, ac: seq<nat>, acValues: ValueRow, dequant: seq<nat>, pred: int,
      c: Scan, at: nat, ok: bool, next: nat, diff: int)
    requires |dc| <= 256 && |ac| <= 256 && |dequant| == 64
    requires Meets(DcPart(dc, dcValues, c, at), ok, next, diff)
    ensures var block, sum := Block(dc, dcValues, ac, acValues, dequant, pred, c, at), pred + diff;
            || block.RanOut?
            || (if !ok || !(INT_MIN <= sum <= INT_MAX) || !(-0x8000 <= sum * dequant[0] <= 0x7FFF) then block.Corrupt?
                else block == AcPart(ac, acValues, dequant, c, next, 1, Zeros64()[0 := sum * dequant[0]]))
  {
    hide AcPart, DcPart;
  }

  /** A non-zero entry of the combined table gives the next symbol and its value. */
  lemma FastStep(fac: seq<int>, lens: seq<nat>, values: ValueRow, c: Scan, at: nat, x: nat)
    requires AcFor(fac, lens, values) && x == MsbVal(Window(c, at, LONGEST)[..FAST_BITS]) && x < FAST_SIZE
    requires fac[x] != 0
    ensures fac[x] % 16 <= FAST_BITS
    ensures var end := at + fac[x] % 16;
            NextAc(lens, values, c, at)
            == if Available(c, end) then Done(end, Coefficient(fac[x] / 16 % 16, fac[x] / 256)) else RanOut
  {
    hide AcEntry, NineBits, Extend, Available, MsbVal, Decode;
    var w := Window(c, at, LONGEST);
    NineBitsOf(w[..FAST_BITS]);
    var f, s := AcEntryMeans(lens, values, w);
    assert w[f.bits..f.bits + s] == Window(c, at + f.bits, s);
  }

  lemma AcStep(lens: seq<nat>, values: ValueRow, dequant: seq<nat>, c: Scan, at: nat, k: nat, data: seq<int>)
    requires |lens| <= 256 && |data| == |dequant| == 64 && k < 64
    ensures var whole, step := AcPart(lens, values, dequant, c, at, k, data), NextAc(lens, values, c, at);
            && (step.Corrupt? ==> whole == Corrupt)
            && (step.RanOut? ==> whole == RanOut)
            && (step.Done? && step.value.EndOfBlock? ==> whole == Done(step.at, data))
            && (step.Done? && step.value.ZeroRun? ==> whole == AcPart(lens, values, dequant, c, step.at, k + 16, data))
            && (step.Done? && step.value.Coefficient? ==>
                  var run := k + step.value.run;
                  && run < 79
                  && whole == AcPart(lens, values, dequant, c, step.at, run + 1,
                                     Placed(data, dequant, run, step.value.value)))
  {
    hide NextAc, Placed;
  }

  lemma AcSize(fac: seq<int>, lens: seq<nat>, values: ValueRow)
    requires AcFor(fac, lens, values)
    ensures |fac| == FAST_SIZE
  {
  }

  lemma AcOver(lens: seq<nat>, values: ValueRow, dequant: seq<nat>, c: Scan, at: nat, k: nat, data: seq<int>)
    requires |lens| <= 256 && |data| == |dequant| == 64 && k >= 64
    ensures AcPart(lens, values, dequant, c, at, k, data) == Done(at, data)
  {
  }

  lemma NoStep(lens: seq<nat>, values: ValueRow, c: Scan, at: nat)
    requires |lens| <= 256 && Expected(lens, Window(c, at, LONGEST)) == None
    ensures NextAc(lens, values, c, at) == Corrupt
  {
  }

  /** The same through the tables for all codes. */
  lemma SlowStep(lens: seq<nat>, values: ValueRow, c: Scan, at: nat, f: Found)
    requires |lens| <= 256 && Expected(lens, Window(c, at, LONGEST)) == Some(f)
    ensures f.n < 256
    ensures var rs, value := values[f.n] as nat, at + f.bits;
            var s := rs % 16;
            && (!Available(c, value) || !Available(c, value + s) ==> NextAc(lens, values, c, at) == RanOut)
            && (NextAc(lens, values, c, at) == RanOut
                || NextAc(lens, values, c, at)
                   == if s > 0 then Done(value + s, Coefficient(rs / 16, Extend(MsbVal(Window(c, value, s)), s)))
                      else Done(value, if rs == 0xF0 then ZeroRun else EndOfBlock))
  {
    hide Available, Extend, MsbVal, Decode;
    var value, s := at + f.bits, values[f.n] % 16;
    if Available(c, value + s) { AvailableBefore(c, value, value + s); }
  }

  // ---- the reader ----

  const BMASK: seq<nat> :=
    [0, 1, 3, 7, 15, 31, 63, 127, 255, 511, 1023, 2047, 4095, 8191, 16383, 32767, 65535]

  lemma {:induction false} Mask(x: nat, n: nat)
    requires n <= 16
    ensures BMASK[n] == Pow2(n) - 1 && And(x, BMASK[n]) == Low(x, n)
  {
    AndMask(x, n);
    MaskValue(n);
  }

  lemma {:induction false} MaskValue(n: nat)
    requires n <= 16
    ensures BMASK[n] == Pow2(n) - 1
  {
    if n > 0 { MaskValue(n - 1); }
  }

  class Decoder {
    const bytes: seq<Byte>
    var pos: nat
    var codeBuffer: nat
    var codeBits: int
    var marker: Byte
    var nomore: bool
    /** The scan that is read, and how many of its bits have been taken. */
    ghost var scan: Scan
    ghost var at: nat
    /** The last DC coefficient of each component. */
    var dcPred: seq<int>

    constructor (s: seq<Byte>, start: nat)
      ensures Valid() && scan == Scan(s, start) && at == 0
    {
      bytes := s;
      pos := start;
      new;
      Reset();
    }

    /** A new scan, or a new restart interval of one. */
    method Reset()
      modifies this
      ensures Valid() && pos == old(pos) && scan == Scan(bytes, pos) && at == 0 && dcPred == [0, 0, 0, 0]
    {
      codeBits, codeBuffer, nomore, marker := 0, 0, false, 0xFF;
      dcPred := [0, 0, 0, 0];
      scan, at := Scan(bytes, pos), 0;
      StartsEmpty(scan);
    }

    ghost predicate Valid()
      reads this
    {
      scan.bytes == bytes && Filled(scan, codeBuffer, at, codeBits, nomore, pos)
    }

    /** Between two reads. */
    ghost function State(): (r: Reader)
      reads this
      ensures codeBits >= 0 ==> r.bits == codeBits
    {
      Reader(at, if codeBits < 0 then 0 else codeBits, nomore)
    }

    method Get8() returns (b: Byte)
      modifies this`pos
      ensures b == LsbStream.ByteAt(bytes, old(pos)) && pos == After(bytes, old(pos))
    {
      if pos >= |bytes| { return 0; }
      b := bytes[pos];
      pos := pos + 1;
    }

    /** Bytes are added while there is room; a marker ends the scan, and zeros follow. */
    method GrowBuffer()
      requires Valid() && codeBits <= 24
      modifies this`pos, this`codeBuffer, this`codeBits, this`marker, this`nomore
      ensures Valid() && codeBits >= old(codeBits)
      ensures !nomore || old(nomore) ==> codeBits > 24
      ensures old(nomore) ==> nomore
      ensures State() == Grown(scan, old(State()))
    {
      hide Filled, Grown;
      Width(scan, codeBuffer, at, codeBits, nomore, pos);
      ghost var whole := Grown(scan, State());
      var more := true;
      while more
        invariant Valid() && codeBits >= old(codeBits) && nomore == old(nomore)
        invariant more <==> codeBits <= 24
        invariant 0 <= codeBits && whole == if more then Grown(scan, State()) else State()
        decreases more, 24 - codeBits
      {
        ghost var p := pos;
        var b: Byte := 0;
        if !nomore { b := Get8(); }
        if b == 0xFF {
          var c := Get8();
          ghost var q := p + 1;
          while c == 0xFF
            invariant c == LsbStream.ByteAt(bytes, q) && pos == After(bytes, q)
            invariant SkipFill(bytes, q) == SkipFill(bytes, p + 1)
            decreases |bytes| - q
            modifies this`pos
          {
            c := Get8();
            q := q + 1;
          }
          if c != 0 {
            FillStop(scan, codeBuffer, at, codeBits, p, pos);
            GrownEnd(scan, codeBuffer, at, codeBits, p);
            marker := c;
            nomore := true;
            return;
          }
        }
        FillStep(scan, codeBuffer, at, codeBits, nomore, p, b, pos);
        GrownStep(scan, codeBuffer, at, codeBits, nomore, p, pos);
        codeBuffer := Or(codeBuffer, Shl(b, 24 - codeBits));
        codeBits := codeBits + 8;
        more := codeBits <= 24;
      }
    }

    method Consume(s: nat)
      requires Valid() && s <= codeBits
      modifies this`codeBuffer, this`codeBits, this`at
      ensures Valid() && at == old(at) + s && codeBits == old(codeBits) - s
      ensures s <= old(State()).bits && State() == Take(old(State()), s)
    {
      hide Filled, Low, Shl;
      Taken(scan, codeBuffer, at, codeBits, nomore, pos, s);
      codeBuffer := Low(Shl(codeBuffer, s), WIDTH);
      codeBits := codeBits - s;
      at := at + s;
    }

    /** The symbol that the tables give for the next sixteen bits, or -1 if they give none or the bits run out. */
    method HuffDecode(h: Table, ghost lens: seq<nat>) returns (r: int)
      requires Valid() && h.For(lens)
      modifies this`pos, this`codeBuffer, this`codeBits, this`marker, this`nomore, this`at
      ensures var f := h.Reads(Window(scan, old(at), LONGEST));
              && (r >= 0 ==> Valid() && f.Some? && at == old(at) + f.value.bits && f.value.n < 256
                             && r == h.values[f.value.n])
              && (r < 0 ==> f.None? || !Available(scan, old(at) + f.value.bits))
      ensures var f, q := h.Reads(Window(scan, old(at), LONGEST)), Asked(scan, old(State()), LONGEST);
              && (r < 0 <==> f.None? || f.value.bits > q.bits)
              && (r >= 0 ==> State() == Take(q, f.value.bits))
    {
      hide Filled, Holds, PlaceAt, Shr, Shl, Low, And, MsbVal, Window, Available, BMASK,
        Table.Reads, Lookup, FastFor, CodesFor, EndsFor, SizesFor, Prefix, Increasing;
      if codeBits < 16 { GrowBuffer(); }
      Width(scan, codeBuffer, at, codeBits, nomore, pos);
      ghost var w := Window(scan, at, LONGEST);
      Sees(w);
      var c := And(Shr(codeBuffer, WIDTH - FAST_BITS), FAST_SIZE - 1);
      var k: nat := h.fast[c];
      h.ReadsAs(w);
      if k < NOT_FAST {
        h.ShortSize(lens, c);
        var s := h.size[k];
        if s > codeBits {
          Missing(scan, codeBuffer, at, codeBits, pos, s);
          return -1;
        }
        Consume(s);
        return h.values[k];
      }
      var temp := Shr(codeBuffer, 16);
      k := FAST_BITS + 1;
      while temp >= h.maxCode[k]
        invariant k <= LONGEST + 1 && FirstAbove(h.maxCode, temp, k) == FirstAbove(h.maxCode, temp, FAST_BITS + 1)
        decreases LONGEST + 1 - k
        modifies {}
      {
        k := k + 1;
      }
      if k == 17 {
        codeBits := codeBits - 16;
        return -1;
      }
      if k > codeBits {
        Missing(scan, codeBuffer, at, codeBits, pos, k);
        return -1;
      }
      SeesLong(w, k);
      var id := And(Shr(codeBuffer, WIDTH - k), BMASK[k]) + h.delta[k];
      if id < 0 || id >= 256 { return -1; }
      Consume(k);
      r := h.values[id];
    }

    /** The value of the next `n` bits; 0, and nothing is taken, if the bits run out. */
    method ExtendReceive(n: nat) returns (r: int)
      requires Valid() && 0 < n < 16
      modifies this`pos, this`codeBuffer, this`codeBits, this`marker, this`nomore, this`at
      ensures Valid()
      ensures (at == old(at) + n && r == Extend(MsbVal(Window(scan, old(at), n)), n))
              || (at == old(at) && r == 0 && !Available(scan, old(at) + n))
      ensures ReadValue(scan, old(State()), n) == (State(), r)
    {
      hide Filled, Holds, PlaceAt, Shr, Low, And, MsbVal, Window, Available, Rotate, Pow2;
      if codeBits < n { GrowBuffer(); }
      if codeBits < n {
        Missing(scan, codeBuffer, at, codeBits, pos, n);
        return 0;
      }
      Sign(n);
      Width(scan, codeBuffer, at, codeBits, nomore, pos);
      Received(scan, codeBuffer, at, codeBits, nomore, pos, n);
      Bias(n);
      var sgn := Shr(codeBuffer, 31);
      var k := Rotate(codeBuffer, n);
      codeBuffer := k - Low(k, n);
      k := Low(k, n);
      codeBits := codeBits - n;
      at := at + n;
      r := k + if sgn == 0 then JBIAS[n] else 0;
    }

    lemma Sign(n: nat)
      requires Valid() && 0 < n <= codeBits
      ensures Shr(codeBuffer, 31) == 0 <==> MsbVal(Window(scan, at, n)) < Pow2(n - 1)
    {
      hide Filled, Shr, MsbVal, Pow2;
      Width(scan, codeBuffer, at, codeBits, nomore, pos);
      Seen(scan, codeBuffer, at, codeBits, nomore, pos, 1);
      WindowSplit(scan, at, n, 1);
      SignBit(Window(scan, at, n));
    }

    /** Writes coefficient `k`, dequantized, to its place. */
    static method Put(data: array<int>, dequant: seq<nat>, k: nat, value: int)
      requires data.Length == |dequant| == 64 && k < 79
      modifies data
      ensures data[..] == Placed(old(data[..]), dequant, k, value)
    {
      var zig := Unzigzag(k);
      data[zig] := Short(value * dequant[zig]);
    }

    /** The next symbol of the AC part and its value, both at once where the combined table has them. */
    method ReadAc(h: Table, fac: seq<int>, ghost lens: seq<nat>) returns (ok: bool, symbol: AcSymbol)
      requires Valid() && h.For(lens) && AcFor(fac, lens, h.values)
      modifies this`pos, this`codeBuffer, this`codeBits, this`marker, this`nomore, this`at
      ensures ok ==> Valid() && (symbol.Coefficient? ==> symbol.run < 16)
      ensures Safe(lens) ==> Meets(NextAc(lens, h.values, scan, old(at)), ok, at, symbol)
      ensures Safe(lens) ==> Gives(ReadSymbolAc(lens, h.values, scan, old(State())), ok, State(), symbol)
    {
      hide AcFor, Filled, Holds, PlaceAt, Shr, Shl, Low, And, MsbVal, Available, NextAc, Extend,
        Table.Reads, Expected, FastFor, CodesFor, EndsFor, SizesFor, Prefix, Increasing, ReadSlowAc, AcEntry, Asked,
        ReadValue;
      ghost var begin := State();
      if codeBits < 16 { GrowBuffer(); }
      AskedIs(scan, begin, State(), LONGEST);
      ghost var w := Window(scan, at, LONGEST);
      Sees(w);
      Width(scan, codeBuffer, at, codeBits, nomore, pos);
      AcSize(fac, lens, h.values);
      var c := And(Shr(codeBuffer, WIDTH - FAST_BITS), FAST_SIZE - 1);
      InRange(w);
      var r := fac[c];
      EntryOf(fac, lens, h.values, scan, at, c);
      ReadSlowIs(lens, h.values, scan, State());
      if r != 0 {
        FastStep(fac, lens, h.values, scan, at, c);
        var s := r % 16;
        if s > codeBits {
          Missing(scan, codeBuffer, at, codeBits, pos, s);
          return false, EndOfBlock;
        }
        Consume(s);
        return true, Coefficient(r / 16 % 16, r / 256);
      }
      h.ReadsExpected(lens, w);
      if Expected(lens, w).Some? {
        SlowStep(lens, h.values, scan, at, Expected(lens, w).value);
      } else {
        NoStep(lens, h.values, scan, at);
      }
      var rs := HuffDecode(h, lens);
      if rs < 0 { return false, EndOfBlock; }
      var s, run := rs % 16, rs / 16;
      if s == 0 { return true, if rs != 0xF0 then EndOfBlock else ZeroRun; }
      var value := ExtendReceive(s);
      return true, Coefficient(run, value);
    }

    /** The AC coefficients of a block. */
    method DecodeAc(data: array<int>, h: Table, fac: seq<int>, dequant: seq<nat>,
        ghost lens: seq<nat>) returns (ok: bool)
      requires Valid() && h.For(lens) && data.Length == |dequant| == 64
      requires AcFor(fac, lens, h.values)
      modifies this`pos, this`codeBuffer, this`codeBits, this`marker, this`nomore, this`at, data
      ensures ok ==> Valid()
      ensures Safe(lens) ==>
                Meets(AcPart(lens, h.values, dequant, scan, old(at), 1, old(data[..])), ok, at, data[..])
      ensures Safe(lens) ==>
                Gives(ReadAcPart(lens, h.values, dequant, scan, old(State()), 1, old(data[..])), ok, State(), data[..])
    {
      hide AcFor, Filled, NextAc, AcPart, Placed, FastFor, CodesFor, EndsFor, SizesFor, Prefix, Increasing,
      ReadSymbolAc, ReadAcPart;
      ghost var c, values := scan, h.values;
      ghost var read := ReadAcPart(lens, values, dequant, c, State(), 1, data[..]);
      ghost var whole := AcPart(lens, values, dequant, c, at, 1, data[..]);
      var k := 1;
      while k < 64
        invariant Valid() && 1 <= k < 80
        invariant Safe(lens) ==> whole.RanOut? || AcPart(lens, values, dequant, c, at, k, data[..]) == whole
        invariant Safe(lens) ==> ReadAcPart(lens, values, dequant, c, State(), k, data[..]) == read
        decreases 64 - k
      {
        AcStep(lens, values, dequant, c, at, k, data[..]);
        ReadAcStep(lens, values, dequant, c, State(), k, data[..]);
        var symbol;
        ok, symbol := ReadAc(h, fac, lens);
        if !ok { return; }
        match symbol
        case EndOfBlock => break;
        case ZeroRun => k := k + 16;
        case Coefficient(run, value) =>
          k := k + run;
          Put(data, dequant, k, value);
          k := k + 1;
      }
      if k >= 64 {
        AcOver(lens, values, dequant, c, at, k, data[..]);
        ReadAcOver(lens, values, dequant, c, State(), k, data[..]);
      }
      ok := true;
    }

    /** The difference of the DC coefficient of a block. */
    method DecodeDc(h: Table, ghost lens: seq<nat>) returns (ok: bool, diff: int)
      requires Valid() && h.For(lens)
      modifies this`pos, this`codeBuffer, this`codeBits, this`marker, this`nomore, this`at
      ensures ok ==> Valid() && -0x8000 < diff < 0x8000
      ensures Safe(lens) ==> Meets(DcPart(lens, h.values, scan, old(at)), ok, at, diff)
      ensures Safe(lens) ==> Gives(ReadDc(lens, h.values, scan, old(State())), ok, State(), diff)
    {
      hide Filled, Holds, PlaceAt, MsbVal, Available, Extend,
        Table.Reads, FastFor, CodesFor, EndsFor, SizesFor, Prefix, Increasing, Decode, ReadDc, ReadValue, Asked;
      diff := 0;
      ghost var begin := State();
      if codeBits < 16 { GrowBuffer(); }
      AskedIs(scan, begin, State(), LONGEST);
      ReadDcIs(lens, h.values, scan, begin);
      h.ReadsExpected(lens, Window(scan, at, LONGEST));
      ghost var expected := Expected(lens, Window(scan, at, LONGEST));
      var t := HuffDecode(h, lens);
      if t < 0 || t > 15 {
        if expected.Some? { AvailableSooner(scan, old(at) + expected.value.bits, h.values[expected.value.n]); }
        return false, 0;
      }
      if t > 0 {
        ExtendRange(Window(scan, at, t));
        diff := ExtendReceive(t);
      }
      ok := true;
    }

    /** One block of a component: what the scan has for it, and the new prediction. */
    method DecodeBlock(data: array<int>, hdc: Table, hac: Table, fac: seq<int>, b: nat, dequant: seq<nat>,
        ghost dc: seq<nat>, ghost ac: seq<nat>) returns (ok: bool)
      requires Valid() && hdc.For(dc) && hac.For(ac) && data.Length == |dequant| == 64
      requires AcFor(fac, ac, hac.values)
      requires b < |dcPred| && INT_MIN <= dcPred[b] <= INT_MAX
      modifies this`pos, this`codeBuffer, this`codeBits, this`marker, this`nomore, this`at, this`dcPred, data
      ensures ok ==> Valid()
      ensures Safe(dc) && Safe(ac) ==>
                Meets(Block(dc, hdc.values, ac, hac.values, dequant, old(dcPred[b]), scan, old(at)), ok, at, data[..])
      ensures Safe(dc) && Safe(ac) ==>
                Gives(ReadBlock(dc, hdc.values, ac, hac.values, dequant, old(dcPred[b]), scan, old(State())), ok,
                      State(), data[..])
      ensures |dcPred| == |old(dcPred)| && dcPred == old(dcPred)[b := dcPred[b]] && INT_MIN <= dcPred[b] <= INT_MAX
      ensures Safe(dc) ==>
                var d := ReadDc(dc, hdc.values, scan, old(State()));
                dcPred[b] == old(dcPred[b])
                             + if d.Read? && INT_MIN <= old(dcPred[b]) + d.value <= INT_MAX then d.value else 0
      ensures Safe(dc) && ok && DcPart(dc, hdc.values, scan, old(at)).Done? ==>
                dcPred[b] == old(dcPred[b]) + DcPart(dc, hdc.values, scan, old(at)).value
    {
      hide Filled, FastFor, CodesFor, EndsFor, SizesFor, Prefix, Increasing, AddIntsValid, Mul2ShortsValid,
        DcPart, AcPart, Block, AcFor, ReadDc, ReadAcPart, ReadBlock;
      ghost var begin := State();
      var diff;
      ok, diff := DecodeDc(hdc, dc);
      if Safe(dc) { BlockOf(dc, hdc.values, ac, hac.values, dequant, dcPred[b], scan, old(at), ok, at, diff); }
      if Safe(dc) {
        ReadBlockOf(dc, hdc.values, ac, hac.values, dequant, dcPred[b], scan, begin, ok, State(), diff);
      }
      if !ok { return; }
      Clear(data);
      SumFits(dcPred[b], diff);
      if !AddIntsValid(dcPred[b], diff) { return false; }
      var pred := dcPred[b] + diff;
      dcPred := dcPred[b := pred];
      ProductFits(pred, dequant[0]);
      if !Mul2ShortsValid(pred, dequant[0]) { return false; }
      data[0] := Short(pred * dequant[0]);
      assert data[..] == Zeros64()[0 := pred * dequant[0]];
      ok := DecodeAc(data, hac, fac, dequant, ac);
    }

    static method Clear(data: array<int>)
      modifies data
      ensures data[..] == seq(data.Length, _ => 0)
    {
      for i := 0 to data.Length
        invariant forall j :: 0 <= j < i ==> data[j] == 0
      {
        data[i] := 0;
      }
    }

    /** What the decoder sees of the next sixteen bits. */
    lemma Sees(w: seq<bool>)
      requires Valid() && (codeBits >= 16 || nomore) && w == Window(scan, at, LONGEST)
      ensures Shr(codeBuffer, 16) == MsbVal(w) < 0x10000
      ensures And(Shr(codeBuffer, WIDTH - FAST_BITS), FAST_SIZE - 1) == Shr(MsbVal(w), LONGEST - FAST_BITS) < FAST_SIZE
    {
      hide Filled, Shr, Low, And, MsbVal;
      Seen(scan, codeBuffer, at, codeBits, nomore, pos, LONGEST);
      Seen(scan, codeBuffer, at, codeBits, nomore, pos, FAST_BITS);
      WindowSplit(scan, at, LONGEST, FAST_BITS);
      InRange(w);
      Masked(w[..FAST_BITS]);
    }

    lemma SeesLong(w: seq<bool>, k: nat)
      requires Valid() && k <= codeBits && k <= LONGEST && w == Window(scan, at, LONGEST)
      ensures |BMASK| == 17 && And(Shr(codeBuffer, WIDTH - k), BMASK[k]) == Shr(MsbVal(w), LONGEST - k)
    {
      hide Filled, Shr, Low, And, MsbVal;
      Width(scan, codeBuffer, at, codeBits, nomore, pos);
      Seen(scan, codeBuffer, at, codeBits, nomore, pos, k);
      WindowSplit(scan, at, LONGEST, k);
      MsbValPrefix(w, k);
      Masked(w[..k]);
    }
  }

  lemma AvailableSooner(c: Scan, n: nat, more: nat)
    ensures Available(c, n + more) ==> Available(c, n)
  {
    if Available(c, n + more) { AvailableBefore(c, n, n + more); }
  }

  lemma ExtendRange(w: seq<bool>)
    requires 0 < |w| < 16
    ensures -0x8000 < Extend(MsbVal(w), |w|) < 0x8000
  {
    hide MsbVal, Pow2;
    Powers();
    MsbValBound(w);
    Pow2Monotone(|w|, 15);
  }

  lemma StartsEmpty(c: Scan)
    ensures Filled(c, 0, 0, 0, false, c.start)
  {
    assert Padded(c, 0, 0) == [] + Zeros(WIDTH);
    MsbValZeros([], WIDTH);
    ShlMonotone(0, 0, WIDTH);
  }

  lemma Masked(w: seq<bool>)
    requires |w| <= 16
    ensures And(MsbVal(w), BMASK[|w|]) == MsbVal(w)
  {
    hide MsbVal, And, Low, Pow2, BMASK;
    Mask(MsbVal(w), |w|);
    MsbValBound(w);
    LowBound(MsbVal(w), |w|);
  }
}

/**
The entropy-coded bits of a JPEG scan (section F.1.2.3 and figure F.18 of ITU-T T.81): bytes with the most
significant bit first, in which a byte of ones is followed by a stuffed zero, up to the next marker; and the
32-bit buffer through which 3rd_party/imageHelper/stb_image.h reads them.
 */
module JpegStream {
  import opened Bits
  import opened LsbStream

  // ---- bytes ----

  datatype Scan = Scan(bytes: seq<Byte>, start: nat)

  /** What is read next: a data byte, or a marker, after which the scan has no more data. */
  datatype Step = Data(byte: Byte, next: nat) | Marker(code: Byte, next: nat)

  /** Where the reader stands. */
  datatype Place = Reading(pos: nat) | Stopped

  /** Nothing is read beyond the end of the file. */
  function After(s: seq<Byte>, pos: nat): nat {
    if pos < |s| then pos + 1 else pos
  }

  /** The first byte from `pos` that is not a fill byte. */
  function SkipFill(s: seq<Byte>, pos: nat): (r: nat)
    ensures ByteAt(s, r) != 0xFF
    decreases |s| - pos
  {
    if pos < |s| && s[pos] == 0xFF then SkipFill(s, pos + 1) else pos
  }

  function Next(s: seq<Byte>, pos: nat): Step {
    if ByteAt(s, pos) != 0xFF then Data(ByteAt(s, pos), After(s, pos))
    else
      var p := SkipFill(s, pos + 1);
      if ByteAt(s, p) == 0 then Data(0xFF, After(s, p)) else Marker(ByteAt(s, p), After(s, p))
  }

  /** The place after `k` data bytes. */
  function PlaceAt(c: Scan, k: nat): Place {
    if k == 0 then Reading(c.start)
    else
      var p := PlaceAt(c, k - 1);
      if p.Reading? && Next(c.bytes, p.pos).Data? then Reading(Next(c.bytes, p.pos).next) else Stopped
  }

  /** Data byte `k` of the scan; zero from the marker on. */
  function CodedByte(c: Scan, k: nat): Byte {
    var p := PlaceAt(c, k);
    if p.Reading? && Next(c.bytes, p.pos).Data? then Next(c.bytes, p.pos).byte else 0
  }

  /** Bit `i` of the scan. */
  predicate CodedBit(c: Scan, i: nat) {
    Shr(CodedByte(c, i / 8), 7 - i % 8) % 2 == 1
  }

  function Window(c: Scan, at: nat, n: nat): (w: seq<bool>)
    ensures |w| == n
  {
    seq(n, i requires 0 <= i < n => CodedBit(c, at + i))
  }

  /** The first `n` bits lie before the marker. */
  predicate Available(c: Scan, n: nat) {
    PlaceAt(c, (n + 7) / 8).Reading?
  }

  lemma {:induction false} StoppedStays(c: Scan, j: nat, k: nat)
    requires j <= k && PlaceAt(c, j).Stopped?
    ensures PlaceAt(c, k).Stopped?
    decreases k
  {
    if j < k { StoppedStays(c, j, k - 1); }
  }

  lemma AvailableBefore(c: Scan, m: nat, n: nat)
    requires m <= n && Available(c, n)
    ensures Available(c, m)
  {
    if PlaceAt(c, (m + 7) / 8).Stopped? { StoppedStays(c, (m + 7) / 8, (n + 7) / 8); }
  }

  // ---- stuffing ----

  /** How an encoder writes data bytes: a zero after every byte of ones. */
  function Stuffed(data: seq<Byte>): seq<Byte> {
    if data == [] then []
    else
      var b := data[|data| - 1];
      Stuffed(data[..|data| - 1]) + if b == 0xFF then [0xFF, 0] else [b]
  }

  /** A marker with `fill` fill bytes before it. */
  function MarkerWith(fill: nat, code: Byte, rest: seq<Byte>): seq<Byte> {
    seq(fill + 1, _ => 0xFF as Byte) + [code] + rest
  }

  /** Reading the stuffed data that stands before a marker gives back the data, and stops there. */
  lemma {:induction false} StuffingInverts(before: seq<Byte>, data: seq<Byte>, fill: nat, code: Byte, rest: seq<Byte>,
      k: nat)
    requires k <= |data| && code != 0 && code != 0xFF
    ensures var c := Scan(before + Stuffed(data) + MarkerWith(fill, code, rest), |before|);
            && PlaceAt(c, k) == Reading(|before| + |Stuffed(data[..k])|)
            && (if k < |data| then CodedByte(c, k) == data[k] else PlaceAt(c, k + 1).Stopped?)
    decreases k
  {
    hide Next, Stuffed;
    var tail := MarkerWith(fill, code, rest);
    if k > 0 {
      StuffingInverts(before, data, fill, code, rest, k - 1);
      NextStuffed(before, data, tail, k - 1);
    } else {
      NoneStuffed(data);
    }
    if k < |data| {
      NextStuffed(before, data, tail, k);
    } else {
      assert data[..k] == data;
      NextMarker(before + Stuffed(data), fill, code, rest);
    }
  }

  lemma NoneStuffed(data: seq<Byte>)
    ensures Stuffed(data[..0]) == []
  {
  }

  lemma NextMarker(before: seq<Byte>, fill: nat, code: Byte, rest: seq<Byte>)
    requires code != 0 && code != 0xFF
    ensures Next(before + MarkerWith(fill, code, rest), |before|).Marker?
  {
    var s := before + MarkerWith(fill, code, rest);
    var p := |before|;
    assert s[p] == 0xFF && s[p + fill + 1] == code;
    forall i | p + 1 <= i < p + fill + 1 ensures s[i] == 0xFF { assert s[i] == MarkerWith(fill, code, rest)[i - p]; }
    FillSkipped(s, p + 1, p + fill + 1);
  }

  lemma {:induction false} FillSkipped(s: seq<Byte>, p: nat, q: nat)
    requires p <= q < |s| && s[q] != 0xFF && forall i :: p <= i < q ==> s[i] == 0xFF
    ensures SkipFill(s, p) == q
    decreases q - p
  {
    if p < q { FillSkipped(s, p + 1, q); }
  }

  lemma NextStuffed(before: seq<Byte>, data: seq<Byte>, rest: seq<Byte>, k: nat)
    requires k < |data|
    ensures var s := before + Stuffed(data) + rest;
            Next(s, |before| + |Stuffed(data[..k])|) == Data(data[k], |before| + |Stuffed(data[..k + 1])|)
  {
    StuffedPrefix(data, k + 1);
    assert data[..k + 1][..k] == data[..k];
    var s := before + Stuffed(data) + rest;
    var p := |before| + |Stuffed(data[..k])|;
    assert Stuffed(data)[..|Stuffed(data[..k + 1])|] == Stuffed(data[..k + 1]);
    assert s[p] == Stuffed(data)[p - |before|] == Stuffed(data[..k + 1])[p - |before|] == data[k];
    if data[k] == 0xFF {
      assert s[p + 1] == Stuffed(data)[p + 1 - |before|] == Stuffed(data[..k + 1])[p + 1 - |before|] == 0;
    }
  }

  lemma {:induction false} StuffedPrefix(data: seq<Byte>, k: nat)
    requires k <= |data|
    ensures Stuffed(data[..k]) <= Stuffed(data)
    decreases |data|
  {
    if k < |data| {
      StuffedPrefix(data[..|data| - 1], k);
      assert data[..|data| - 1][..k] == data[..k];
    } else {
      assert data[..k] == data;
    }
  }

  // ---- the buffer ----

  const WIDTH: nat := 32

  /** The buffer begins with the `n` bits at `at`, and ends with zeros. */
  function Padded(c: Scan, at: nat, n: nat): (w: seq<bool>)
    requires n <= WIDTH
    ensures |w| == WIDTH
  {
    Window(c, at, n) + Zeros(WIDTH - n)
  }

  predicate Holds(buffer: nat, c: Scan, at: nat, n: nat) {
    n <= WIDTH && buffer == MsbVal(Padded(c, at, n))
  }

  /** The state of a reader: the buffer holds the `n` bits at `at`, has been filled by whole bytes, and continues at
      `pos` unless the marker has been reached. */
  predicate Filled(c: Scan, buffer: nat, at: nat, n: int, stopped: bool, pos: nat) {
    && 0 <= n && Holds(buffer, c, at, n)
    && var k := (at + n) / 8;
    && at + n == 8 * k
    && (if stopped then PlaceAt(c, k + 1).Stopped? else PlaceAt(c, k) == Reading(pos))
  }

  /** A reader as what it has taken and how much more it buffers; `stopped` once it has come to the marker. */
  datatype Reader = Reader(at: nat, bits: nat, stopped: bool)

  /** Bytes are buffered while there is room. The marker ends that, even if few bits are buffered by then; only when the
      reader asks again does it get zeros. */
  function Grown(c: Scan, r: Reader): (q: Reader)
    requires r.bits <= 24
    ensures q.at == r.at
    decreases 24 - r.bits
  {
    if !r.stopped && PlaceAt(c, (r.at + r.bits) / 8 + 1).Stopped? then r.(stopped := true)
    else
      var more := r.(bits := r.bits + 8);
      if more.bits > 24 then more else Grown(c, more)
  }

  /** A reader that is asked for `n` bits. */
  function Asked(c: Scan, r: Reader, n: nat): (q: Reader)
    requires n <= 16
    ensures q.at == r.at
  {
    if r.bits < n then Grown(c, r) else r
  }

  function Take(r: Reader, n: nat): Reader
    requires n <= r.bits
  {
    r.(at := r.at + n, bits := r.bits - n)
  }

  lemma {:induction false} GrownBits(c: Scan, r: Reader)
    requires r.bits <= 24
    ensures Grown(c, r).bits > 24 || (!r.stopped && Grown(c, r).stopped)
    decreases 24 - r.bits
  {
    if (r.stopped || !PlaceAt(c, (r.at + r.bits) / 8 + 1).Stopped?) && r.bits + 8 <= 24 {
      GrownBits(c, r.(bits := r.bits + 8));
    }
  }

  /** Whoever asks twice gets the bits. */
  lemma AskedTwice(c: Scan, r: Reader, n: nat)
    requires n <= 16
    ensures Asked(c, Asked(c, r, n), n).bits >= n
  {
    hide Grown;
    if r.bits < n {
      GrownBits(c, r);
      if Grown(c, r).bits < n { GrownBits(c, Grown(c, r)); }
    }
  }

  lemma AskedIs(c: Scan, r: Reader, q: Reader, n: nat)
    requires n <= 16 && if r.bits < n then q == Grown(c, r) else q == r
    ensures q == Asked(c, r, n)
  {
  }

  lemma GrownStep(c: Scan, buffer: nat, at: nat, n: int, stopped: bool, pos: nat, next: nat)
    requires Filled(c, buffer, at, n, stopped, pos) && n <= 24
    requires stopped || (Next(c.bytes, pos).Data? && Next(c.bytes, pos).next == next)
    ensures Grown(c, Reader(at, n, stopped))
            == if n + 8 > 24 then Reader(at, n + 8, stopped) else Grown(c, Reader(at, n + 8, stopped))
  {
    hide Holds, Next;
  }

  lemma GrownEnd(c: Scan, buffer: nat, at: nat, n: int, pos: nat)
    requires Filled(c, buffer, at, n, false, pos) && n <= 24 && Next(c.bytes, pos).Marker?
    ensures Grown(c, Reader(at, n, false)) == Reader(at, n, true)
  {
    hide Holds, Next;
  }

  lemma WindowSplit(c: Scan, at: nat, n: nat, k: nat)
    requires k <= n
    ensures Window(c, at, n)[..k] == Window(c, at, k)
    ensures Window(c, at, n)[k..] == Window(c, at + k, n - k)
  {
  }

  lemma BitOfByte(c: Scan, k: nat, i: nat)
    requires i < 8
    ensures CodedBit(c, 8 * k + i) == Digits(CodedByte(c, k), 8)[7 - i]
  {
    hide CodedByte;
    assert (8 * k + i) / 8 == k && (8 * k + i) % 8 == i;
    DigitAt(CodedByte(c, k), 8, 7 - i);
  }

  lemma WindowOfByte(c: Scan, k: nat)
    ensures Window(c, 8 * k, 8) == Reversed(Digits(CodedByte(c, k), 8))
    ensures LsbVal(Digits(CodedByte(c, k), 8)) == CodedByte(c, k)
  {
    hide CodedByte, CodedBit, Digits, Low, Pow2, LsbVal;
    Powers();
    LowBound(CodedByte(c, k), 8);
    var w, d := Window(c, 8 * k, 8), Reversed(Digits(CodedByte(c, k), 8));
    forall i | 0 <= i < 8 ensures w[i] == d[i] {
      BitOfByte(c, k, i);
    }
  }

  lemma ZerosValue(n: nat)
    ensures LsbVal(Zeros(n)) == 0
  {
    LsbValZeros([], n);
    assert [] + Zeros(n) == Zeros(n);
  }

  /** Or-ing a number in below the digits of another puts its digits there. */
  lemma OrBelow(w: seq<bool>, d: seq<bool>, k: nat)
    ensures Or(MsbVal(w + Zeros(|d| + k)), Shl(LsbVal(d), k)) == MsbVal(w + Reversed(d) + Zeros(k))
  {
    hide Or, MsbVal, LsbVal, Shl;
    var low, high := Zeros(k) + d, Reversed(w);
    LsbValAppend(Zeros(k), d);
    ZerosValue(k);
    assert Reversed(w + Zeros(|d| + k)) == Zeros(|d| + k) + high;
    MsbValReversed(w + Zeros(|d| + k));
    LsbValAppend(Zeros(|d| + k), high);
    ZerosValue(|d| + k);
    OrAppend(low, high);
    OrCommutes(Shl(LsbVal(high), |low|), LsbVal(low));
    assert Reversed(w + Reversed(d) + Zeros(k)) == low + high;
    MsbValReversed(w + Reversed(d) + Zeros(k));
  }

  /** The next byte goes below the buffered bits. */
  lemma AppendCoded(buffer: nat, c: Scan, at: nat, n: nat, k: nat)
    requires Holds(buffer, c, at, n) && n <= 24 && at + n == 8 * k
    ensures Holds(Or(buffer, Shl(CodedByte(c, k), 24 - n)), c, at, n + 8)
  {
    hide Or, MsbVal, LsbVal, Shl, Digits, CodedByte, CodedBit;
    var d := Digits(CodedByte(c, k), 8);
    WindowOfByte(c, k);
    OrBelow(Window(c, at, n), d, 24 - n);
    WindowSplit(c, at, n + 8, n);
    assert Window(c, at, n + 8) == Window(c, at, n) + Reversed(d);
    assert Zeros(WIDTH - n) == Zeros(|d| + (24 - n));
  }

  /** The first bits of the buffer. */
  lemma TopBits(buffer: nat, c: Scan, at: nat, n: nat, k: nat)
    requires Holds(buffer, c, at, n) && k <= n
    ensures Shr(buffer, WIDTH - k) == MsbVal(Window(c, at, k))
  {
    MsbValPrefix(Padded(c, at, n), k);
    WindowSplit(c, at, n, k);
    assert Padded(c, at, n)[..k] == Window(c, at, k);
  }

  /** Where the scan has stopped, the zeros of the buffer are those of the scan. */
  lemma PaddedBeyond(c: Scan, at: nat, n: nat, k: nat)
    requires n <= k <= WIDTH && at + n == 8 * ((at + n) / 8) && PlaceAt(c, (at + n) / 8 + 1).Stopped?
    ensures Padded(c, at, n) == Padded(c, at, k)
  {
    forall i: nat | at + n <= i ensures !CodedBit(c, i) {
      ZeroFrom(c, (at + n) / 8, i / 8);
      ShrZero(7 - i % 8);
    }
    assert Window(c, at, k) == Window(c, at, n) + Zeros(k - n);
  }

  lemma ZeroFrom(c: Scan, j: nat, k: nat)
    requires j <= k && PlaceAt(c, j + 1).Stopped?
    ensures CodedByte(c, k) == 0
  {
    StoppedStays(c, j + 1, k + 1);
  }

  lemma {:induction false} ShrZero(n: nat)
    ensures Shr(0, n) == 0
  {
    if n > 0 { ShrZero(n - 1); }
  }

  /** Shifting bits out of a word. */
  lemma ShiftOut(u: seq<bool>, v: seq<bool>)
    ensures Low(Shl(MsbVal(u + v), |u|), |u| + |v|) == MsbVal(v + Zeros(|u|))
  {
    hide Low, MsbVal, LsbVal, Shl;
    var r, n := Reversed(v) + Reversed(u), |u| + |v|;
    assert Reversed(u + v) == r;
    MsbValReversed(u + v);
    LsbValAppend(Zeros(|u|), r);
    ZerosValue(|u|);
    var x := Zeros(|u|) + r;
    LsbValSplit(x, n);
    assert x[..n] == Zeros(|u|) + Reversed(v);
    assert Reversed(v + Zeros(|u|)) == x[..n];
    MsbValReversed(v + Zeros(|u|));
  }

  /** Consuming bits. */
  lemma Drop(buffer: nat, c: Scan, at: nat, n: nat, k: nat)
    requires Holds(buffer, c, at, n) && k <= n
    ensures Holds(Low(Shl(buffer, k), WIDTH), c, at + k, n - k)
  {
    var u, v := Window(c, at, k), Window(c, at + k, n - k) + Zeros(WIDTH - n);
    WindowSplit(c, at, n, k);
    assert Padded(c, at, n) == u + v;
    ShiftOut(u, v);
    assert v + Zeros(k) == Padded(c, at + k, n - k);
  }

  /** Rotating a 32-bit word left. */
  function Rotate(x: nat, n: nat): nat
    requires n <= WIDTH
  {
    Or(Low(Shl(x, n), WIDTH), Shr(x, WIDTH - n))
  }

  lemma RotateBits(u: seq<bool>, v: seq<bool>)
    requires |u| + |v| == WIDTH
    ensures Rotate(MsbVal(u + v), |u|) == MsbVal(v + u)
  {
    hide Low, MsbVal, LsbVal, Shr, Or;
    ShiftOut(u, v);
    MsbValPrefix(u + v, |u|);
    assert (u + v)[..|u|] == u;
    OrBelow(v, Reversed(u), 0);
    MsbValReversed(u);
    assert Reversed(Reversed(u)) == u;
    assert v + u + Zeros(0) == v + u;
  }

  /** The low digits of a word and the word without them. */
  lemma LowDigits(v: seq<bool>, u: seq<bool>)
    ensures Low(MsbVal(v + u), |u|) == MsbVal(u)
    ensures MsbVal(v + u) == MsbVal(u) + MsbVal(v + Zeros(|u|))
  {
    var r := Reversed(u) + Reversed(v);
    assert Reversed(v + u) == r;
    MsbValReversed(v + u);
    MsbValReversed(u);
    MsbValReversed(v);
    LsbValSplit(r, |u|);
    assert r[..|u|] == Reversed(u);
    LsbValAppend(Reversed(u), Reversed(v));
    MsbValZeros(v, |u|);
  }

  /** Rotating the first `k` bits to the low end takes them from the buffer, and clearing them there leaves the rest. */
  lemma Receive(buffer: nat, c: Scan, at: nat, n: nat, k: nat)
    requires Holds(buffer, c, at, n) && k <= n
    ensures Low(Rotate(buffer, k), k) == MsbVal(Window(c, at, k)) <= Rotate(buffer, k)
    ensures Holds(Rotate(buffer, k) - Low(Rotate(buffer, k), k), c, at + k, n - k)
  {
    var u, v := Window(c, at, k), Window(c, at + k, n - k) + Zeros(WIDTH - n);
    WindowSplit(c, at, n, k);
    assert Padded(c, at, n) == u + v;
    RotateBits(u, v);
    LowDigits(v, u);
    assert v + Zeros(k) == Padded(c, at + k, n - k);
  }

  // ---- filling the buffer ----

  /** A byte more: the next data byte, or zero after the marker. */
  lemma FillStep(c: Scan, buffer: nat, at: nat, n: int, stopped: bool, pos: nat, b: Byte, next: nat)
    requires Filled(c, buffer, at, n, stopped, pos) && n <= 24
    requires if stopped then b == 0 else Next(c.bytes, pos) == Data(b, next)
    ensures Filled(c, Or(buffer, Shl(b, 24 - n)), at, n + 8, stopped, next)
  {
    hide Holds, Or, Shl, Next;
    var k := (at + n) / 8;
    if stopped {
      ZeroFrom(c, k, k);
      StoppedStays(c, k + 1, k + 2);
    }
    AppendCoded(buffer, c, at, n, k);
    assert (at + (n + 8)) / 8 == k + 1;
  }

  lemma FillStop(c: Scan, buffer: nat, at: nat, n: int, pos: nat, any: nat)
    requires Filled(c, buffer, at, n, false, pos) && Next(c.bytes, pos).Marker?
    ensures Filled(c, buffer, at, n, true, any)
  {
    hide Holds, Next;
  }

  /** The first `k` bits are in the buffer, or what is missing of them lies after the marker. */
  lemma Seen(c: Scan, buffer: nat, at: nat, n: int, stopped: bool, pos: nat, k: nat)
    requires Filled(c, buffer, at, n, stopped, pos) && k <= WIDTH && (k <= n || stopped)
    ensures Shr(buffer, WIDTH - k) == MsbVal(Window(c, at, k))
  {
    hide PlaceAt, MsbVal, Shr;
    if k <= n {
      TopBits(buffer, c, at, n, k);
    } else {
      PaddedBeyond(c, at, n, WIDTH);
      TopBits(buffer, c, at, WIDTH, k);
    }
  }

  lemma Missing(c: Scan, buffer: nat, at: nat, n: int, pos: nat, k: nat)
    requires Filled(c, buffer, at, n, true, pos) && n < k
    ensures !Available(c, at + k)
  {
    hide PlaceAt, Holds;
    StoppedStays(c, (at + n) / 8 + 1, (at + k + 7) / 8);
  }

  /** Taking bits by shifting. */
  lemma Taken(c: Scan, buffer: nat, at: nat, n: int, stopped: bool, pos: nat, k: nat)
    requires Filled(c, buffer, at, n, stopped, pos) && k <= n
    ensures Filled(c, Low(Shl(buffer, k), WIDTH), at + k, n - k, stopped, pos)
  {
    hide PlaceAt, Holds, Low, Shl;
    Drop(buffer, c, at, n, k);
  }

  /** Taking bits by rotating. */
  lemma Received(c: Scan, buffer: nat, at: nat, n: int, stopped: bool, pos: nat, k: nat)
    requires Filled(c, buffer, at, n, stopped, pos) && k <= n <= WIDTH
    ensures var x := Rotate(buffer, k);
            && Low(x, k) == MsbVal(Window(c, at, k)) <= x
            && Filled(c, x - Low(x, k), at + k, n - k, stopped, pos)
  {
    hide PlaceAt, Holds, Low, Rotate, MsbVal;
    Width(c, buffer, at, n, stopped, pos);
    Receive(buffer, c, at, n, k);
  }

  lemma Width(c: Scan, buffer: nat, at: nat, n: int, stopped: bool, pos: nat)
    requires Filled(c, buffer, at, n, stopped, pos)
    ensures 0 <= n <= WIDTH
  {
  }
}

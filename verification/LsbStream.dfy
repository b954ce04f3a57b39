/**
Bits packed into bytes with the least significant bit first, as in DEFLATE and GIF, read as numbers
at any bit position. Past the end of the input there are zero bits.
 */
module LsbStream {
  import opened Bits

  /** Bit `i` of the stream: bytes in order, the least significant bit of each first (3.1.1). */
  predicate StreamBit(s: seq<Byte>, i: nat) {
    i / 8 < |s| && Shr(s[i / 8], i % 8) % 2 == 1
  }

  /** Byte `i` of the input, zero after the end. */
  function ByteAt(s: seq<Byte>, i: nat): Byte {
    if i < |s| then s[i] else 0
  }

  function Window(s: seq<Byte>, pos: nat, n: nat): (w: seq<bool>)
    ensures |w| == n
  {
    seq(n, i requires 0 <= i < n => StreamBit(s, pos + i))
  }

  /** The number in the `n` bits at `pos`, least significant bit first. */
  function Field(s: seq<Byte>, pos: nat, n: nat): nat {
    LsbVal(Window(s, pos, n))
  }

  // ---- reading bits ----

  lemma WindowSplit(s: seq<Byte>, pos: nat, n: nat, k: nat)
    requires k <= n
    ensures Window(s, pos, n)[..k] == Window(s, pos, k)
    ensures Window(s, pos, n)[k..] == Window(s, pos + k, n - k)
  {
  }

  lemma {:induction false} DigitAt(x: nat, n: nat, i: nat)
    requires i < n
    ensures Digits(x, n)[i] == (Shr(x, i) % 2 == 1)
  {
    if i > 0 { DigitAt(x / 2, n - 1, i - 1); }
  }

  lemma BitOfByte(s: seq<Byte>, i: nat, k: nat)
    requires k < 8
    ensures StreamBit(s, 8 * i + k) == (i < |s| && Shr(s[i], k) % 2 == 1)
  {
    assert (8 * i + k) / 8 == i && (8 * i + k) % 8 == k;
  }

  /** The eight bits of a byte, read least significant first, are its value. */
  lemma WindowOfByte(s: seq<Byte>, i: nat)
    ensures Field(s, 8 * i, 8) == ByteAt(s, i)
  {
    Powers();
    var x := ByteAt(s, i);
    var w := Window(s, 8 * i, 8);
    if i < |s| {
      forall k | 0 <= k < 8 ensures w[k] == Digits(x, 8)[k] {
        BitOfByte(s, i, k);
        DigitAt(x, 8, k);
      }
      assert w == Digits(x, 8);
    } else {
      forall k | 0 <= k < 8 ensures !w[k] { BitOfByte(s, i, k); }
      assert w == [] + Zeros(8);
      LsbValZeros([], 8);
    }
    LowBound(x, 8);
  }

  /** Or-ing in the next byte above `n` buffered bits buffers its eight bits as well. */
  lemma AppendByte(s: seq<Byte>, pos: nat, n: nat, i: nat)
    requires pos + n == 8 * i
    ensures Or(Field(s, pos, n), Shl(ByteAt(s, i), n)) == Field(s, pos, n + 8)
  {
    WindowOfByte(s, i);
    WindowSplit(s, pos, n + 8, n);
    var w, b := Window(s, pos, n), Window(s, 8 * i, 8);
    assert Window(s, pos, n + 8) == w + b;
    OrAppend(w, b);
  }

  /** Zeros may be buffered above the last bits of the input. */
  lemma PadZeros(s: seq<Byte>, pos: nat, n: nat, k: nat)
    requires pos + n >= 8 * |s|
    ensures Field(s, pos, n + k) == Field(s, pos, n)
  {
    forall i: nat | i >= 8 * |s| ensures !StreamBit(s, i) { assert i / 8 >= |s|; }
    assert Window(s, pos, n + k) == Window(s, pos, n) + Zeros(k);
    LsbValZeros(Window(s, pos, n), k);
  }

  /** Sixteen bits on a byte boundary are two bytes, the low one first. */
  lemma FieldOfWord(s: seq<Byte>, i: nat)
    ensures Field(s, 8 * i, 16) == ByteAt(s, i) + 256 * ByteAt(s, i + 1)
  {
    WindowOfByte(s, i);
    WindowOfByte(s, i + 1);
    WindowSplit(s, 8 * i, 16, 8);
    var lo, hi := Window(s, 8 * i, 8), Window(s, 8 * (i + 1), 8);
    assert Window(s, 8 * i, 16) == lo + hi;
    LsbValAppend(lo, hi);
    ShiftByte(ByteAt(s, i + 1));
  }

  lemma ShiftNibble(b: nat)
    ensures Shl(b, 4) == 16 * b
  {
    ShlAdd(b, 2, 2);
    assert Shl(b, 2) == 2 * Shl(b, 1) && Shl(b, 1) == 2 * Shl(b, 0);
    var c := 4 * b;
    assert Shl(c, 2) == 2 * Shl(c, 1) && Shl(c, 1) == 2 * Shl(c, 0);
  }

  lemma ShiftByte(b: nat)
    ensures Shl(b, 8) == 256 * b
  {
    ShiftNibble(b);
    ShiftNibble(16 * b);
    ShlAdd(b, 4, 4);
  }

  /** A field that lies within two bytes. */
  lemma FieldInWord(s: seq<Byte>, i: nat, k: nat, n: nat)
    requires k + n <= 16
    ensures Field(s, 8 * i + k, n) == Low(Shr(ByteAt(s, i) + 256 * ByteAt(s, i + 1), k), n)
  {
    hide LsbVal, Low, Shr, StreamBit, ByteAt, Window;
    FieldOfWord(s, i);
    var w := Window(s, 8 * i, 16);
    WindowSplit(s, 8 * i, 16, k);
    LsbValSplit(w, k);
    WindowSplit(s, 8 * i + k, 16 - k, n);
    LsbValSplit(w[k..], n);
  }

  /** A field that begins at bit `k` of byte `i`. */
  lemma FieldAt(s: seq<Byte>, i: nat, k: nat, n: nat)
    requires k <= 7 && n <= 7
    ensures Field(s, 8 * i + k, n) == (ByteAt(s, i) + 256 * ByteAt(s, i + 1)) / Weight(k) % Weight(n)
  {
    hide Shr, Low, Weight, Field, ByteAt;
    FieldInWord(s, i, k, n);
    ShiftIs(ByteAt(s, i) + 256 * ByteAt(s, i + 1), k);
    LowIs(Shr(ByteAt(s, i) + 256 * ByteAt(s, i + 1), k), n);
  }

  /** Beyond the input every field is zero. */
  lemma FieldBeyond(s: seq<Byte>, pos: nat, n: nat)
    requires pos >= 8 * |s|
    ensures Field(s, pos, n) == 0
  {
    PadZeros(s, pos, 0, n);
  }
}

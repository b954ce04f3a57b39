/**
Bit reversal of a 16-bit word by four mask-and-shift exchanges, as in
3rd_party/imageHelper/stb_image.h, and what it does to a Huffman code.
 */
module BitReverse {
  import opened Bits

  /** Exchanges the digits selected by `high` with the digits `k` places below them. */
  function Exchange(v: nat, high: nat, low: nat, k: nat): nat {
    Or(Shr(And(v, high), k), Shl(And(v, low), k))
  }

  function Reverse16(v: nat): nat {
    var v1 := Exchange(v, 0xAAAA, 0x5555, 1);
    var v2 := Exchange(v1, 0xCCCC, 0x3333, 2);
    var v4 := Exchange(v2, 0xF0F0, 0x0F0F, 4);
    Exchange(v4, 0xFF00, 0x00FF, 8)
  }

  /** The low `bits` digits of `v` in reverse order. */
  function Reverse(v: nat, bits: nat): nat
    requires bits <= 16
  {
    Shr(Reverse16(v), 16 - bits)
  }

  function ZipAnd(s: seq<bool>, t: seq<bool>): (r: seq<bool>)
    requires |s| == |t|
    ensures |r| == |s|
    ensures forall i :: 0 <= i < |s| ==> r[i] == (s[i] && t[i])
  {
    seq(|s|, i requires 0 <= i < |s| => s[i] && t[i])
  }

  function ZipOr(s: seq<bool>, t: seq<bool>): (r: seq<bool>)
    requires |s| == |t|
    ensures |r| == |s|
    ensures forall i :: 0 <= i < |s| ==> r[i] == (s[i] || t[i])
  {
    seq(|s|, i requires 0 <= i < |s| => s[i] || t[i])
  }

  lemma {:induction false} AndDigits(v: nat, mask: seq<bool>)
    ensures And(v, LsbVal(mask)) == LsbVal(ZipAnd(Digits(v, |mask|), mask))
  {
    if mask != [] {
      AndDigits(v / 2, mask[1..]);
      var n := |mask|;
      assert ZipAnd(Digits(v, n), mask)[1..] == ZipAnd(Digits(v / 2, n - 1), mask[1..]);
      if v == 0 { AndDigitsZero(mask); }
      else if LsbVal(mask) == 0 { DigitsOfZero(mask); AndDigitsNone(v, mask); }
    }
  }

  lemma {:induction false} DigitsOfZero(s: seq<bool>)
    requires LsbVal(s) == 0
    ensures forall i :: 0 <= i < |s| ==> !s[i]
  {
    if s != [] {
      DigitsOfZero(s[1..]);
      assert s == [s[0]] + s[1..];
    }
  }

  lemma {:induction false} ValueOfNoDigits(s: seq<bool>)
    requires forall i :: 0 <= i < |s| ==> !s[i]
    ensures LsbVal(s) == 0
  {
    if s != [] { ValueOfNoDigits(s[1..]); }
  }

  lemma AndDigitsNone(v: nat, mask: seq<bool>)
    requires forall i :: 0 <= i < |mask| ==> !mask[i]
    ensures LsbVal(ZipAnd(Digits(v, |mask|), mask)) == 0
  {
    ValueOfNoDigits(ZipAnd(Digits(v, |mask|), mask));
  }

  lemma AndDigitsZero(mask: seq<bool>)
    ensures LsbVal(ZipAnd(Digits(0, |mask|), mask)) == 0
  {
    LowZero(|mask|);
    DigitsOfZero(Digits(0, |mask|));
    ValueOfNoDigits(ZipAnd(Digits(0, |mask|), mask));
  }

  lemma {:induction false} OrDigits(s: seq<bool>, t: seq<bool>)
    requires |s| == |t|
    ensures Or(LsbVal(s), LsbVal(t)) == LsbVal(ZipOr(s, t))
  {
    if s != [] {
      OrDigits(s[1..], t[1..]);
      assert ZipOr(s, t)[1..] == ZipOr(s[1..], t[1..]);
      if LsbVal(s) == 0 && LsbVal(t) == 0 {
        DigitsOfZero(s);
        DigitsOfZero(t);
        ValueOfNoDigits(ZipOr(s, t));
      }
    }
  }

  /** Whether digit `i` is in the upper half of its block of `2 * k` digits. */
  predicate Upper(i: nat, k: nat) {
    if k == 1 then i % 2 == 1 else if k == 2 then i % 4 >= 2 else if k == 4 then i % 8 >= 4 else i % 16 >= 8
  }

  /** The digit that changes places with digit `i`. */
  function Partner(i: nat, k: nat): (j: nat)
    requires i < 16 && k in {1, 2, 4, 8}
    ensures j < 16 && Upper(j, k) == !Upper(i, k)
    ensures i < j ==> j == i + k
    ensures j < i ==> i == j + k
  {
    if Upper(i, k) then i - k else i + k
  }

  /** Sixteen digits that select the upper, or the lower, halves of the blocks. */
  function Stripes(k: nat, upper: bool): (s: seq<bool>)
    ensures |s| == 16
  {
    seq(16, i requires 0 <= i < 16 => Upper(i, k) == upper)
  }

  function Exchanged(s: seq<bool>, k: nat): seq<bool>
    requires |s| == 16 && k in {1, 2, 4, 8}
  {
    seq(16, i requires 0 <= i < 16 => s[Partner(i, k)])
  }

  /** Nothing selected at the bottom is pushed off the top. */
  lemma LowStripesClear(s: seq<bool>, k: nat)
    requires k in {1, 2, 4, 8} && |s| == 16
    ensures var low := ZipAnd(s, Stripes(k, false)); low == low[..16 - k] + Zeros(k)
  {
    var low := ZipAnd(s, Stripes(k, false));
    assert forall i :: 16 - k <= i < 16 ==> Upper(i, k);
  }

  /** Digit `i` of the two shifted halves comes from its partner. */
  lemma ExchangedDigit(s: seq<bool>, k: nat, i: nat)
    requires k in {1, 2, 4, 8} && |s| == 16 && i < 16
    ensures var high, low := ZipAnd(s, Stripes(k, true)), ZipAnd(s, Stripes(k, false));
            s[Partner(i, k)] == ((i + k < 16 && high[i + k]) || (i >= k && low[i - k]))
  {
    if Upper(i, k) {
      assert i + k < 16 ==> !Upper(i + k, k);
    } else {
      assert i >= k ==> Upper(i - k, k);
    }
  }

  lemma ExchangedPieces(s: seq<bool>, k: nat)
    requires k in {1, 2, 4, 8} && |s| == 16
    ensures var high, low := ZipAnd(s, Stripes(k, true)), ZipAnd(s, Stripes(k, false));
            ZipOr(high[k..] + Zeros(k), Zeros(k) + low[..16 - k]) == Exchanged(s, k)
  {
    hide Upper, Stripes, Partner;
    var high, low := ZipAnd(s, Stripes(k, true)), ZipAnd(s, Stripes(k, false));
    var up, down := high[k..] + Zeros(k), Zeros(k) + low[..16 - k];
    forall i | 0 <= i < 16 ensures ZipOr(up, down)[i] == Exchanged(s, k)[i] {
      ExchangedDigit(s, k, i);
      assert up[i] == (i + k < 16 && high[i + k]);
      assert down[i] == (i >= k && low[i - k]);
    }
  }

  lemma ExchangeDigits(v: nat, s: seq<bool>, k: nat)
    requires k in {1, 2, 4, 8} && |s| == 16 && s == Digits(v, 16)
    ensures Exchange(v, LsbVal(Stripes(k, true)), LsbVal(Stripes(k, false)), k) == LsbVal(Exchanged(s, k))
  {
    var high, low := ZipAnd(s, Stripes(k, true)), ZipAnd(s, Stripes(k, false));
    var up, down := high[k..] + Zeros(k), Zeros(k) + low[..16 - k];
    assert Shr(And(v, LsbVal(Stripes(k, true))), k) == LsbVal(up) by {
      AndDigits(v, Stripes(k, true));
      LsbValSplit(high, k);
      LsbValZeros(high[k..], k);
    }
    assert Shl(And(v, LsbVal(Stripes(k, false))), k) == LsbVal(down) by {
      AndDigits(v, Stripes(k, false));
      LowStripesClear(s, k);
      LsbValZeros(low[..16 - k], k);
      ShlDigits(low[..16 - k], k);
    }
    OrDigits(up, down);
    ExchangedPieces(s, k);
  }

  function Nibble(a: bool, b: bool, c: bool, d: bool): nat {
    Bit(a) + 2 * Bit(b) + 4 * Bit(c) + 8 * Bit(d)
  }

  lemma NibbleFirst(s: seq<bool>)
    requires |s| >= 4
    ensures LsbVal(s) == Nibble(s[0], s[1], s[2], s[3]) + 16 * LsbVal(s[4..])
  {
    assert s[1..][1..] == s[2..] && s[2..][1..] == s[3..] && s[3..][1..] == s[4..];
    assert LsbVal(s[1..]) == Bit(s[1]) + 2 * LsbVal(s[2..]);
    assert LsbVal(s[2..]) == Bit(s[2]) + 2 * LsbVal(s[3..]);
    assert LsbVal(s[3..]) == Bit(s[3]) + 2 * LsbVal(s[4..]);
  }

  /** Sixteen digits as four hexadecimal ones. */
  lemma Hexadecimal(s: seq<bool>)
    requires |s| == 16
    ensures LsbVal(s) == Nibble(s[0], s[1], s[2], s[3]) + 0x10 * Nibble(s[4], s[5], s[6], s[7])
                         + 0x100 * Nibble(s[8], s[9], s[10], s[11]) + 0x1000 * Nibble(s[12], s[13], s[14], s[15])
  {
    NibbleFirst(s);
    NibbleFirst(s[4..]);
    assert s[4..][4..] == s[8..];
    NibbleFirst(s[8..]);
    assert s[8..][4..] == s[12..];
    NibbleFirst(s[12..]);
    assert s[12..][4..] == [];
  }

  lemma Masks()
    ensures LsbVal(Stripes(1, true)) == 0xAAAA && LsbVal(Stripes(1, false)) == 0x5555
    ensures LsbVal(Stripes(2, true)) == 0xCCCC && LsbVal(Stripes(2, false)) == 0x3333
    ensures LsbVal(Stripes(4, true)) == 0xF0F0 && LsbVal(Stripes(4, false)) == 0x0F0F
    ensures LsbVal(Stripes(8, true)) == 0xFF00 && LsbVal(Stripes(8, false)) == 0x00FF
  {
    hide Stripes, LsbVal;
    StripesValue(1, true);
    StripesValue(1, false);
    StripesValue(2, true);
    StripesValue(2, false);
    StripesValue(4, true);
    StripesValue(4, false);
    StripesValue(8, true);
    StripesValue(8, false);
  }

  /** The hexadecimal digit at place `j` of the stripes. */
  function StripesDigit(k: nat, upper: bool, j: nat): nat {
    if k == 1 then (if upper then 0xA else 0x5)
    else if k == 2 then (if upper then 0xC else 0x3)
    else if k == 4 then (if (j % 2 == 1) == upper then 0xF else 0)
    else if (j >= 2) == upper then 0xF else 0
  }

  lemma StripesNibble(k: nat, upper: bool, j: nat)
    requires k in {1, 2, 4, 8} && j < 4
    ensures var s := Stripes(k, upper);
            Nibble(s[4 * j], s[4 * j + 1], s[4 * j + 2], s[4 * j + 3]) == StripesDigit(k, upper, j)
  {
  }

  lemma StripesValue(k: nat, upper: bool)
    requires k in {1, 2, 4, 8}
    ensures LsbVal(Stripes(k, upper)) == StripesDigit(k, upper, 0) + 0x10 * StripesDigit(k, upper, 1)
                                         + 0x100 * StripesDigit(k, upper, 2) + 0x1000 * StripesDigit(k, upper, 3)
  {
    hide Stripes, LsbVal, StripesDigit, Nibble;
    Hexadecimal(Stripes(k, upper));
    StripesNibble(k, upper, 0);
    StripesNibble(k, upper, 1);
    StripesNibble(k, upper, 2);
    StripesNibble(k, upper, 3);
  }

  lemma FourPartners(i: nat)
    requires i < 16
    ensures Partner(Partner(Partner(Partner(i, 8), 4), 2), 1) == 15 - i
  {
  }

  lemma FourExchanges(s: seq<bool>)
    requires |s| == 16
    ensures Exchanged(Exchanged(Exchanged(Exchanged(s, 1), 2), 4), 8) == Reversed(s)
  {
    var s1 := Exchanged(s, 1);
    var s2 := Exchanged(s1, 2);
    var s4 := Exchanged(s2, 4);
    forall i | 0 <= i < 16 ensures Exchanged(s4, 8)[i] == s[15 - i] {
      FourPartners(i);
      var i8 := Partner(i, 8);
      var i4 := Partner(i8, 4);
      assert Exchanged(s4, 8)[i] == s4[i8] == s2[i4] == s1[Partner(i4, 2)];
    }
  }

  lemma DigitsOfValue(s: seq<bool>)
    ensures Digits(LsbVal(s), |s|) == s
  {
    LsbValBound(s);
    LowBound(LsbVal(s), |s|);
    LsbValInjective(Digits(LsbVal(s), |s|), s);
  }

  /** The four exchanges reverse the sixteen low digits of any word. */
  lemma Reverse16Digits(v: nat, s: seq<bool>)
    requires |s| == 16 && Low(v, 16) == LsbVal(s)
    ensures Reverse16(v) == MsbVal(s)
  {
    LsbValInjective(Digits(v, 16), s);
    Masks();
    var s1 := Exchanged(s, 1);
    var s2 := Exchanged(s1, 2);
    var s4 := Exchanged(s2, 4);
    assert Exchange(v, 0xAAAA, 0x5555, 1) == LsbVal(s1) by { ExchangeDigits(v, s, 1); }
    assert Exchange(LsbVal(s1), 0xCCCC, 0x3333, 2) == LsbVal(s2) by {
      DigitsOfValue(s1);
      ExchangeDigits(LsbVal(s1), s1, 2);
    }
    assert Exchange(LsbVal(s2), 0xF0F0, 0x0F0F, 4) == LsbVal(s4) by {
      DigitsOfValue(s2);
      ExchangeDigits(LsbVal(s2), s2, 4);
    }
    assert Exchange(LsbVal(s4), 0xFF00, 0x00FF, 8) == LsbVal(Exchanged(s4, 8)) by {
      DigitsOfValue(s4);
      ExchangeDigits(LsbVal(s4), s4, 8);
    }
    FourExchanges(s);
    MsbValReversed(s);
  }

  /** Reversing a number of at most 16 digits turns a least-significant-first reading into a
      most-significant-first one. */
  lemma ReverseDigits(s: seq<bool>)
    requires |s| <= 16
    ensures Reverse(LsbVal(s), |s|) == MsbVal(s)
  {
    var n := 16 - |s|;
    LsbValZeros(s, n);
    LsbValBound(s + Zeros(n));
    LowBound(LsbVal(s), 16);
    Reverse16Digits(LsbVal(s), s + Zeros(n));
    MsbValZeros(s, n);
    ShrShl(MsbVal(s), n);
  }

  /** The buffered 16 low bits `s` of `v`, read with the first bit on top. */
  method MsbOfLow16(v: nat, ghost s: seq<bool>) returns (k: nat)
    requires |s| == 16 && Low(v, 16) == LsbVal(s)
    ensures k == MsbVal(s)
  {
    k := Reverse(v, 16);
    Reverse16Digits(v, s);
  }
}

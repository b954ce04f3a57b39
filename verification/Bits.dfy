/**
Unsigned machine integers as natural numbers, with the bit operators of C written as
recursion on halving, and the two ways of reading a sequence of bits as a number.
DEFLATE packs bits least significant first and Huffman codes most significant first.
 */
module Bits {

  type Byte = x: nat | x < 256

  /** The value of `x << n`, before any truncation. */
  function Shl(x: nat, n: nat): nat {
    if n == 0 then x else 2 * Shl(x, n - 1)
  }

  /** The value of `x >> n`. */
  function Shr(x: nat, n: nat): nat {
    if n == 0 then x else Shr(x / 2, n - 1)
  }

  /** The value of `1 << n`. */
  function Pow2(n: nat): nat {
    Shl(1, n)
  }

  /** The value of `x & ((1 << n) - 1)`; see `AndMask`. */
  function Low(x: nat, n: nat): nat {
    if n == 0 then 0 else x % 2 + 2 * Low(x / 2, n - 1)
  }

  /** The value of `x & y`. */
  function And(x: nat, y: nat): nat {
    if x == 0 || y == 0 then 0
    else (if x % 2 == 1 && y % 2 == 1 then 1 else 0) + 2 * And(x / 2, y / 2)
  }

  /** The value of `x | y`. */
  function Or(x: nat, y: nat): nat
    decreases x + y
  {
    if x == 0 && y == 0 then 0
    else (if x % 2 == 1 || y % 2 == 1 then 1 else 0) + 2 * Or(x / 2, y / 2)
  }

  /** The value of `x ^ y`. */
  function Xor(x: nat, y: nat): nat
    decreases x + y
  {
    if x == 0 && y == 0 then 0
    else (if x % 2 != y % 2 then 1 else 0) + 2 * Xor(x / 2, y / 2)
  }

  function Bit(b: bool): nat {
    if b then 1 else 0
  }

  /** The number whose binary digits are `s`, least significant digit first. */
  function LsbVal(s: seq<bool>): nat {
    if s == [] then 0 else Bit(s[0]) + 2 * LsbVal(s[1..])
  }

  /** The number whose binary digits are `s`, most significant digit first. */
  function MsbVal(s: seq<bool>): nat {
    if s == [] then 0 else 2 * MsbVal(s[..|s| - 1]) + Bit(s[|s| - 1])
  }

  function Reversed(s: seq<bool>): (r: seq<bool>)
    ensures |r| == |s|
    ensures forall i :: 0 <= i < |s| ==> r[i] == s[|s| - 1 - i]
  {
    seq(|s|, i requires 0 <= i < |s| => s[|s| - 1 - i])
  }

  function Zeros(n: nat): seq<bool> {
    seq(n, _ => false)
  }

  /** The `n` low binary digits of `x`, least significant first. */
  function Digits(x: nat, n: nat): (s: seq<bool>)
    ensures |s| == n
    ensures LsbVal(s) == Low(x, n)
  {
    if n == 0 then [] else [x % 2 == 1] + Digits(x / 2, n - 1)
  }

  // ---- numbers below a power of two ----

  lemma {:induction false} ShlAdd(x: nat, m: nat, n: nat)
    ensures Shl(Shl(x, m), n) == Shl(x, m + n)
  {
    if n > 0 { ShlAdd(x, m, n - 1); }
  }

  lemma {:induction false} ShlPlus(x: nat, y: nat, n: nat)
    ensures Shl(x + y, n) == Shl(x, n) + Shl(y, n)
  {
    if n > 0 { ShlPlus(x, y, n - 1); }
  }

  lemma {:induction false} ShlMonotone(x: nat, y: nat, n: nat)
    requires x <= y
    ensures Shl(x, n) <= Shl(y, n)
    ensures Shl(0, n) == 0
    ensures x < y ==> Shl(x, n) < Shl(y, n)
  {
    if n > 0 { ShlMonotone(x, y, n - 1); }
  }

  lemma {:induction false} Pow2Monotone(m: nat, n: nat)
    requires m <= n
    ensures 1 <= Pow2(m) <= Pow2(n)
    decreases n
  {
    if m < n { Pow2Monotone(m, n - 1); }
    else if n > 0 { Pow2Monotone(m - 1, n - 1); }
  }

  lemma Powers()
    ensures Pow2(2) == 4 && Pow2(3) == 8 && Pow2(4) == 0x10 && Pow2(5) == 0x20 && Pow2(7) == 0x80 && Pow2(8) == 0x100
    ensures Pow2(9) == 0x200
    ensures Pow2(13) == 0x2000 && Pow2(15) == 0x8000 && Pow2(16) == 0x10000
  {
    assert Pow2(2) == 4;
    ShlAdd(1, 2, 1);
    ShlAdd(1, 2, 2);
    ShlAdd(1, 4, 1);
    ShlAdd(1, 4, 3);
    ShlAdd(1, 4, 4);
    ShlAdd(1, 8, 1);
    ShlAdd(1, 9, 4);
    ShlAdd(1, 13, 2);
    ShlAdd(1, 15, 1);
  }

  lemma {:induction false} LowBound(x: nat, n: nat)
    ensures Low(x, n) < Pow2(n)
    ensures x < Pow2(n) ==> Low(x, n) == x
  {
    if n > 0 { LowBound(x / 2, n - 1); }
  }

  lemma {:induction false} LsbValBound(s: seq<bool>)
    ensures LsbVal(s) < Pow2(|s|)
  {
    if s != [] { LsbValBound(s[1..]); }
  }

  lemma {:induction false} MsbValBound(s: seq<bool>)
    ensures MsbVal(s) < Pow2(|s|)
  {
    if s != [] { MsbValBound(s[..|s| - 1]); }
  }

  /** Masking with `(1 << n) - 1` keeps the `n` low digits. */
  lemma {:induction false} AndMask(x: nat, n: nat)
    ensures Pow2(n) > 0 && And(x, Pow2(n) - 1) == Low(x, n)
  {
    Pow2Monotone(0, n);
    if n > 0 {
      AndMask(x / 2, n - 1);
      LowZero(n - 1);
    }
  }

  /** Exclusive or with all ones is the complement. */
  lemma {:induction false} XorOnes(x: nat, n: nat)
    requires x < Pow2(n)
    ensures Xor(x, Pow2(n) - 1) == Pow2(n) - 1 - x
  {
    if n > 0 {
      Pow2Monotone(0, n - 1);
      XorOnes(x / 2, n - 1);
      assert (Pow2(n) - 1) / 2 == Pow2(n - 1) - 1;
    }
  }

  lemma {:induction false} LowZero(n: nat)
    ensures Low(0, n) == 0
  {
    if n > 0 { LowZero(n - 1); }
  }

  // ---- splitting and joining bit sequences ----

  lemma {:induction false} LsbValSplit(s: seq<bool>, n: nat)
    requires n <= |s|
    ensures Low(LsbVal(s), n) == LsbVal(s[..n])
    ensures Shr(LsbVal(s), n) == LsbVal(s[n..])
  {
    if n > 0 {
      LsbValSplit(s[1..], n - 1);
      assert s[..n][1..] == s[1..][..n - 1];
      assert s[n..] == s[1..][n - 1..];
    } else {
      assert s[..0] == [] && s[0..] == s;
    }
  }

  lemma {:induction false} LsbValAppend(w: seq<bool>, t: seq<bool>)
    ensures LsbVal(w + t) == LsbVal(w) + Shl(LsbVal(t), |w|)
  {
    if w == [] {
      assert [] + t == t;
    } else {
      LsbValAppend(w[1..], t);
      assert (w + t)[1..] == w[1..] + t;
    }
  }

  lemma {:induction false} LsbValInjective(s: seq<bool>, t: seq<bool>)
    requires |s| == |t| && LsbVal(s) == LsbVal(t)
    ensures s == t
  {
    if s != [] {
      LsbValInjective(s[1..], t[1..]);
      assert s == [s[0]] + s[1..] && t == [t[0]] + t[1..];
    }
  }

  /** Reading the same digits from the other end. */
  lemma {:induction false} MsbValReversed(s: seq<bool>)
    ensures LsbVal(Reversed(s)) == MsbVal(s)
    ensures MsbVal(Reversed(s)) == LsbVal(s)
  {
    if s != [] {
      MsbValReversed(s[..|s| - 1]);
      assert Reversed(s)[1..] == Reversed(s[..|s| - 1]);
      MsbValReversed(s[1..]);
      assert Reversed(s)[..|s| - 1] == Reversed(s[1..]);
    }
  }

  lemma {:induction false} MsbValInjective(s: seq<bool>, t: seq<bool>)
    requires |s| == |t| && MsbVal(s) == MsbVal(t)
    ensures s == t
  {
    if s != [] {
      var n := |s| - 1;
      MsbValInjective(s[..n], t[..n]);
      assert s == s[..n] + [s[n]] && t == t[..n] + [t[n]];
    }
  }

  /** The first `n` digits of a big-endian number are what is left after shifting the others out. */
  lemma {:induction false} MsbValPrefix(s: seq<bool>, n: nat)
    requires n <= |s|
    ensures Shr(MsbVal(s), |s| - n) == MsbVal(s[..n])
    decreases |s|
  {
    if n == |s| {
      assert s[..n] == s;
    } else {
      var t := s[..|s| - 1];
      MsbValPrefix(t, n);
      assert t[..n] == s[..n];
    }
  }

  lemma {:induction false} MsbValZeros(s: seq<bool>, n: nat)
    ensures MsbVal(s + Zeros(n)) == Shl(MsbVal(s), n)
  {
    if n == 0 {
      assert s + Zeros(0) == s;
    } else {
      MsbValZeros(s, n - 1);
      assert (s + Zeros(n))[..|s| + n - 1] == s + Zeros(n - 1);
    }
  }

  lemma {:induction false} ShrShl(x: nat, n: nat)
    ensures Shr(Shl(x, n), n) == x
  {
    if n > 0 { ShrShl(x, n - 1); }
  }

  lemma {:induction false} LsbValZeros(s: seq<bool>, n: nat)
    ensures LsbVal(s + Zeros(n)) == LsbVal(s)
  {
    if s == [] {
      if n > 0 {
        LsbValZeros([], n - 1);
        assert ([] + Zeros(n))[1..] == [] + Zeros(n - 1);
      }
    } else {
      LsbValZeros(s[1..], n);
      assert (s + Zeros(n))[1..] == s[1..] + Zeros(n);
    }
  }

  /** Shifting up puts zeros below the digits. */
  lemma {:induction false} ShlDigits(s: seq<bool>, k: nat)
    ensures Shl(LsbVal(s), k) == LsbVal(Zeros(k) + s)
  {
    if k == 0 {
      assert Zeros(0) + s == s;
    } else {
      ShlDigits(s, k - 1);
      assert (Zeros(k) + s)[1..] == Zeros(k - 1) + s;
    }
  }

  lemma {:induction false} OrZero(x: nat)
    ensures Or(0, x) == x && Or(x, 0) == x
  {
    if x > 0 { OrZero(x / 2); }
  }

  /** Or-ing a number shifted past the end of the buffered digits appends its digits. */
  lemma {:induction false} OrAppend(s: seq<bool>, t: seq<bool>)
    ensures Or(LsbVal(s), Shl(LsbVal(t), |s|)) == LsbVal(s + t)
  {
    if s == [] {
      OrZero(LsbVal(t));
      assert [] + t == t;
    } else {
      OrAppend(s[1..], t);
      assert (s + t)[1..] == s[1..] + t;
      var x, y := LsbVal(s), Shl(LsbVal(t), |s|);
      assert y == 2 * Shl(LsbVal(t), |s| - 1);
      assert x / 2 == LsbVal(s[1..]) && y / 2 == Shl(LsbVal(t), |s[1..]|);
      if x == 0 && y == 0 { OrZero(0); }
    }
  }

  lemma {:induction false} OrCommutes(x: nat, y: nat)
    ensures Or(x, y) == Or(y, x)
    decreases x + y
  {
    if x > 0 || y > 0 { OrCommutes(x / 2, y / 2); }
  }

  /** Two fields packed into one word can be read back. */
  lemma Pack(high: nat, low: nat, n: nat)
    requires low < Pow2(n)
    ensures var x := Or(Shl(high, n), low); Shr(x, n) == high && Low(x, n) == low
  {
    var m, s := high + 1, Digits(low, n);
    LowBound(low, n);
    Pow2Exceeds(high);
    LowBound(high, m);
    var t := Digits(high, m);
    OrCommutes(Shl(high, n), low);
    OrAppend(s, t);
    LsbValSplit(s + t, n);
    assert (s + t)[..n] == s && (s + t)[n..] == t;
  }

  lemma {:induction false} Pow2Exceeds(x: nat)
    ensures x < Pow2(x + 1)
  {
    if x > 0 { Pow2Exceeds(x - 1); }
  }

  /** A shift comparison: shifting both sides back down keeps a bound that was shifted up. */
  lemma {:induction false} ShrBelow(k: nat, c: nat, n: nat)
    ensures k < Shl(c, n) <==> Shr(k, n) < c
  {
    if n > 0 { ShrBelow(k / 2, c, n - 1); }
  }

  // ---- the same by division ----

  /** The value of the digit that many places above the lowest. */
  function Weight(k: nat): (w: nat)
    ensures w > 0
  {
    match k
    case 0 => 1 case 1 => 2 case 2 => 4 case 3 => 8 case 4 => 16 case 5 => 32 case 6 => 64
    case _ => 128
  }

  lemma {:induction false} ShiftIs(x: nat, k: nat)
    requires k <= 7
    ensures Shr(x, k) == x / Weight(k)
  {
    if k > 0 {
      ShiftIs(x / 2, k - 1);
      HalfOf(x, k);
    }
  }

  lemma HalfOf(x: nat, k: nat)
    requires 0 < k <= 7
    ensures x / 2 / Weight(k - 1) == x / Weight(k)
    ensures x % Weight(k) == x % 2 + 2 * (x / 2 % Weight(k - 1))
  {
    match k
    case 1 =>
    case 2 =>
    case 3 =>
    case 4 =>
    case 5 =>
    case 6 =>
    case _ =>
  }

  lemma {:induction false} LowIs(x: nat, n: nat)
    requires n <= 7
    ensures Low(x, n) == x % Weight(n)
  {
    if n > 0 {
      LowIs(x / 2, n - 1);
      HalfOf(x, n);
    }
  }

  // ---- equal low digits recur with period 2^n ----

  lemma {:induction false} LowPeriod(x: nat, n: nat)
    ensures Low(x + Pow2(n), n) == Low(x, n)
  {
    if n > 0 {
      LowPeriod(x / 2, n - 1);
      assert (x + Pow2(n)) / 2 == x / 2 + Pow2(n - 1);
    }
  }

  lemma {:induction false} LowGap(x: nat, y: nat, n: nat)
    requires x < y < x + Pow2(n)
    ensures Low(x, n) != Low(y, n)
  {
    if n > 0 && x % 2 == y % 2 { LowGap(x / 2, y / 2, n - 1); }
  }

  lemma {:induction false} LowLow(x: nat, m: nat, n: nat)
    requires n <= m
    ensures Low(Low(x, m), n) == Low(x, n)
  {
    if n > 0 { LowLow(x / 2, m - 1, n - 1); }
  }
}

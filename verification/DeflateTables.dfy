/**
The tables and codes of RFC 1951, said in other words than `InflateSpec` says them: where the lengths of the code length
code stand, which lengths and distances the match codes are for, what the run codes repeat and what the fixed codes are.
 */
module DeflateTables {
  import opened Bits
  import opened CanonicalCode
  import opened InflateSpec
  import opened LsbStream
  import opened WiderInputs
  import opened Wrappers

  // ---- the order of the code length codes (3.2.7) ----

  /** The place of the length of code length code `l`: 16, 17, 18 and 0 come first, then 8, and from there on by turns
      those above and below. */
  function PlaceOf(l: nat): nat
    requires l < 19
  {
    if l >= 16 then l - 16 else if l == 0 then 3 else if l >= 8 then 2 * l - 12 else 19 - 2 * l
  }

  lemma OrderPlace(i: nat, l: nat)
    requires i < 19 && l < 19
    ensures ORDER[i] == l <==> PlaceOf(l) == i
  {
  }

  lemma {:induction false} CodeLengthAt(s: seq<Byte>, pos: nat, count: nat, l: nat)
    requires count <= 19 && l < 19
    ensures CodeLengthLengths(s, pos, count)[l] == if PlaceOf(l) < count then Field(s, pos + 3 * PlaceOf(l), 3) else 0
  {
    hide Field, PlaceOf, ORDER;
    if count > 0 {
      CodeLengthAt(s, pos, count - 1, l);
      OrderPlace(count - 1, l);
    }
  }

  // ---- lengths and distances (3.2.5) ----

  /** From the fifth length code on, every four have one more extra bit than the four before. */
  lemma {:induction false} LengthRanges(k: nat)
    requires k < 28
    ensures k < 4 ==> LengthBase(k) == 3 + k && LengthExtra(k) == 0
    ensures k >= 4 ==> LengthBase(k) == 3 + (4 + k % 4) * Pow2(k / 4 - 1) && LengthExtra(k) == k / 4 - 1
  {
    if k > 0 {
      LengthRanges(k - 1);
      if k > 4 { FourAgain(k); }
    }
  }

  lemma FourAgain(k: nat)
    requires k > 4
    ensures (4 + k % 4) * Pow2(k / 4 - 1) == (4 + (k - 1) % 4) * Pow2((k - 1) / 4 - 1) + Pow2((k - 1) / 4 - 1)
  {
    if k % 4 == 0 { assert Pow2(k / 4 - 1) == 2 * Pow2(k / 4 - 2); }
  }

  /** And every two distance codes one more than the two before. */
  lemma {:induction false} DistanceRanges(d: nat)
    ensures d < 2 ==> DistanceBase(d) == 1 + d && DistanceExtra(d) == 0
    ensures d >= 2 ==> DistanceBase(d) == 1 + (2 + d % 2) * Pow2(d / 2 - 1) && DistanceExtra(d) == d / 2 - 1
  {
    if d > 0 {
      DistanceRanges(d - 1);
      if d > 2 { TwoAgain(d); }
    }
  }

  lemma TwoAgain(d: nat)
    requires d > 2
    ensures (2 + d % 2) * Pow2(d / 2 - 1) == (2 + (d - 1) % 2) * Pow2((d - 1) / 2 - 1) + Pow2((d - 1) / 2 - 1)
  {
    if d % 2 == 0 { assert Pow2(d / 2 - 1) == 2 * Pow2(d / 2 - 2); }
  }

  /** Length code `k` stands for length `n`. */
  predicate LengthCode(k: nat, n: nat) {
    k < 29 && LengthBase(k) <= n < LengthBase(k) + Pow2(LengthExtra(k))
  }

  predicate DistanceCode(d: nat, n: nat) {
    d < 30 && DistanceBase(d) <= n < DistanceBase(d) + Pow2(DistanceExtra(d))
  }

  lemma {:induction false} LengthsBelow(k: nat, n: nat)
    requires k <= 28
    ensures var next := if k == 28 then 259 else LengthBase(k);
            next >= 3 && (3 <= n < next <==> exists i: nat :: i < k && LengthCode(i, n))
  {
    hide Pow2, LengthExtra, LengthBase;
    if k > 0 {
      LengthsBelow(k - 1, n);
      LengthNext(k - 1);
      if LengthCode(k - 1, n) { assert k - 1 < k; }
    } else {
      LengthRanges(0);
    }
  }

  /** The lengths of a code end where those of the next begin, and those of the last but one with 258. */
  lemma LengthNext(k: nat)
    requires k < 28
    ensures 3 <= LengthBase(k) < LengthBase(k) + Pow2(LengthExtra(k)) == if k == 27 then 259 else LengthBase(k + 1)
  {
    hide Pow2;
    LengthRanges(k);
    Pow2Monotone(0, LengthExtra(k));
    Powers();
  }

  lemma OtherPowers()
    ensures Pow2(0) == 1 && Pow2(14) == 0x4000
  {
    Powers();
    assert Pow2(15) == 2 * Pow2(14);
  }

  /** There is a code for every length from 3 to 258 and for no other. */
  lemma LengthCodes(n: nat)
    ensures 3 <= n <= 258 <==> exists k: nat :: LengthCode(k, n)
  {
    hide Pow2;
    OtherPowers();
    LengthsBelow(28, n);
    assert LengthBase(28) == 258 && LengthExtra(28) == 0 && Pow2(0) == 1;
    forall k: nat | LengthCode(k, n) ensures k < 28 || n == 258 {}
  }

  /** Two codes stand for 258 and one for every other length. */
  lemma {:induction false} OneLengthCode(i: nat, k: nat, n: nat)
    requires i < k && LengthCode(i, n) && LengthCode(k, n)
    ensures n == 258 && i == 27 && k == 28
  {
    hide Pow2;
    LengthNext(i);
    if k < 28 { LengthsGrow(i + 1, k); } else if i < 27 { LengthsGrow(i + 1, 27); LengthRanges(27); Powers(); }
  }

  lemma {:induction false} LengthsGrow(i: nat, k: nat)
    requires i <= k < 28
    ensures LengthBase(i) <= LengthBase(k)
  {
    if i < k {
      LengthsGrow(i, k - 1);
      LengthNext(k - 1);
    }
  }

  lemma {:induction false} DistancesBelow(d: nat, n: nat)
    requires d <= 30
    ensures 1 <= n < DistanceBase(d) <==> exists i: nat :: i < d && DistanceCode(i, n)
    ensures DistanceBase(d) >= 1
  {
    hide Pow2, DistanceExtra;
    if d > 0 {
      DistancesBelow(d - 1, n);
      Pow2Monotone(0, DistanceExtra(d - 1));
      if DistanceCode(d - 1, n) { assert d - 1 < d; }
    }
  }

  /** There is a code for every distance from 1 to 32768 and for no other. */
  lemma DistanceCodes(n: nat)
    ensures 1 <= n <= 0x8000 <==> exists d: nat :: DistanceCode(d, n)
  {
    hide Pow2, DistanceBase, DistanceExtra;
    DistancesBelow(30, n);
    DistanceRanges(30);
    OtherPowers();
    if d: nat :| DistanceCode(d, n) { assert d < 30; }
  }

  lemma {:induction false} OneDistanceCode(i: nat, d: nat, n: nat)
    requires DistanceCode(i, n) && DistanceCode(d, n)
    ensures i == d
    decreases i + d
  {
    hide Pow2, DistanceExtra;
    if i < d { DistancesGrow(i + 1, d); } else if d < i { DistancesGrow(d + 1, i); }
  }

  lemma {:induction false} DistancesGrow(i: nat, d: nat)
    requires i <= d
    ensures DistanceBase(i) <= DistanceBase(d)
  {
    if i < d { DistancesGrow(i, d - 1); }
  }

  // ---- runs (3.2.7) ----

  /** Code 16 repeats 3 to 6 times, code 17 3 to 10 times and code 18 11 to 138 times. */
  lemma RunRanges(c: nat)
    requires 16 <= c < 19
    ensures RunLeast(c) == (match c case 16 => 3 case 17 => 3 case _ => 11)
    ensures RunLeast(c) + Pow2(RunExtra(c)) - 1 == (match c case 16 => 6 case 17 => 10 case _ => 138)
  {
    Powers();
  }

  // ---- the fixed codes (3.2.6) ----

  /** How many of the first `n` literal and length codes have `l` bits. */
  lemma {:induction false} FixedCounts(n: nat, l: nat)
    requires n <= 288
    ensures Count(FixedCodes().lit[..n], l)
            == if l == 7 then (if n < 256 then 0 else if n < 280 then n - 256 else 24)
               else if l == 8 then (if n < 144 then n else if n < 280 then 144 else n - 136)
               else if l == 9 then (if n < 144 then 0 else if n < 256 then n - 144 else 112)
               else 0
  {
    if n > 0 {
      FixedCounts(n - 1, l);
      CountStep(FixedCodes().lit, n - 1, l);
    }
  }

  lemma FixedStarts()
    ensures FirstCode(FixedCodes().lit, 7) == 0 && FirstCode(FixedCodes().lit, 8) == 0x30
    ensures FirstCode(FixedCodes().lit, 9) == 0x190
  {
    hide Count;
    var lit := FixedCodes().lit;
    NoShorterCodes(lit, 7, 6);
    FixedCounts(288, 7);
    FixedCounts(288, 8);
    assert lit[..288] == lit;
    hide FixedCodes;
    assert EndCode(lit, 7) == FirstCode(lit, 7) + Count(lit, 7);
    assert EndCode(lit, 8) == FirstCode(lit, 8) + Count(lit, 8);
  }

  /** The codes of the table in section 3.2.6, with their numbers of bits. */
  lemma FixedCodeWords(n: nat)
    requires n < 288
    ensures var lit := FixedCodes().lit;
            && |lit| == 288
            && (lit[n], CodeOf(lit, n)) == if n < 144 then (8, 0x30 + n)
                                          else if n < 256 then (9, 0x190 + n - 144)
                                          else if n < 280 then (7, n - 256) else (8, 0xC0 + n - 280)
    ensures n < 32 ==> var dist := FixedCodes().dist; |dist| == 32 && dist[n] == 5 && CodeOf(dist, n) == n
  {
    hide Count, FirstCode;
    FixedStarts();
    FixedCounts(n, FixedCodes().lit[n]);
    if n < 32 {
      var dist := FixedCodes().dist;
      NoShorterCodes(dist, 5, 4);
      CountAll(dist[..n], 5);
      assert FirstCode(dist, 5) == 0 by { FirstCodeIs(dist, 5); }
    }
  }

  lemma FirstCodeIs(lens: seq<nat>, l: nat)
    requires l > 0
    ensures FirstCode(lens, l) == 2 * EndCode(lens, l - 1)
  {
  }

  /** What the fixed codes stand for: bytes, the end of the block, and from 286 on nothing. */
  lemma FixedItems(s: seq<Byte>, pos: nat, n: nat)
    requires n < 288 && (n <= 256 || n >= 286)
    requires MsbVal(Window(s, pos, if n < 144 then 8 else if n < 256 then 9 else if n < 280 then 7 else 8))
             == if n < 144 then 0x30 + n else if n < 256 then 0x190 + n - 144
                else if n < 280 then n - 256 else 0xC0 + n - 280
    ensures var next := pos + if n < 144 then 8 else if n < 256 then 9 else 7;
            ReadItem(FixedCodes().lit, FixedCodes().dist, s, pos)
            == if n < 256 then Parsed(Literal(n), next) else if n == 256 then Parsed(EndOfBlock, next) else Malformed
  {
    hide CodeOf, Window, MsbVal, FixedCodes;
    var lit := FixedCodes().lit;
    FixedCodeWords(n);
    CodeSymbol(lit, s, pos, n);
  }

  /** And there are no distances for the last two of 32 codes. */
  lemma FixedDistances(s: seq<Byte>, pos: nat, k: nat, d: nat)
    requires k < 29 && d < 32 && MsbVal(Window(s, pos + LengthExtra(k), 5)) == d
    ensures d < 30 <==> ReadMatch(k, FixedCodes().dist, s, pos).Parsed?
  {
    hide CodeOf, Window, MsbVal, FixedCodes, LengthExtra, LengthBase, DistanceBase, DistanceExtra;
    FixedCodeWords(d);
    CodeSymbol(FixedCodes().dist, s, pos + LengthExtra(k), d);
  }

  lemma CodeSymbol(lens: seq<nat>, s: seq<Byte>, pos: nat, n: nat)
    requires n < |lens| && 0 < lens[n] <= 16 && MsbVal(Window(s, pos, lens[n])) == CodeOf(lens, n)
    ensures Symbol(lens, s, pos) == Parsed(n, pos + lens[n])
  {
    WindowSplit(s, pos, 16, lens[n]);
    DecodeUnique(lens, Window(s, pos, 16), n);
  }

  // ---- the zlib header (2.2 of RFC 1950) ----

  /** It is a method nibble of 8 under the window size, and check bits under the compression level that make both bytes
      a multiple of 31; the bit between these two, which would announce a dictionary, is not set. */
  lemma HeaderBytes(s: seq<Byte>, i: nat)
    ensures Header(s, i) <==>
            i + 2 < |s| && exists window: nat, level: nat, check: nat ::
              window < 16 && level < 4 && HeaderOf(s, i, window, level, check)
  {
    if Header(s, i) { assert HeaderOf(s, i, s[i] / 16, s[i + 1] / 64, s[i + 1] % 32); }
  }

  predicate HeaderOf(s: seq<Byte>, i: nat, window: nat, level: nat, check: nat) {
    && i + 1 < |s| && check < 32 && s[i] == 16 * window + 8 && s[i + 1] == 64 * level + check
    && (256 * (16 * window + 8) + 64 * level + check) % 31 == 0
  }
}

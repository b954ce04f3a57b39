/**
The decoding tables of 3rd_party/imageHelper/stb_image.h: a 9-bit direct table for short codes
and, for the others, the first code, the first slot and the pre-shifted end of every length.
`Build` fills the tables in place; what they mean is said with `CanonicalCode` only.
 */
module ZHuffman {
  import opened Bits
  import opened BitReverse
  import opened CanonicalCode

  const FAST_BITS: nat := 9
  const FAST_SIZE: nat := 512
  const SYMBOLS: nat := 288

  type FastRow = s: seq<nat> | |s| == FAST_SIZE witness seq(FAST_SIZE, _ => 0)
  type LengthRow = s: seq<nat> | |s| == 16 witness seq(16, _ => 0)
  type EndRow = s: seq<nat> | |s| == 17 witness seq(17, _ => 0)
  type SymbolRow = s: seq<nat> | |s| == SYMBOLS witness seq(SYMBOLS, _ => 0)

  function FastEntry(len: nat, n: nat): nat {
    Or(Shl(len, 9), n)
  }

  /** The code `c` of `s` bits with its digits in reverse order, as it lies in the bit buffer. */
  function Mirrored(c: nat, s: nat): nat {
    MsbVal(Digits(c, s))
  }

  /** The 9 low bits `j` of the bit buffer begin with the codeword of symbol `n`. */
  predicate FastMatch(lens: seq<nat>, n: nat, j: nat) {
    && n < |lens|
    && 0 < lens[n] <= FAST_BITS
    && Low(j, lens[n]) == Mirrored(CodeOf(lens, n), lens[n])
  }

  /** Entry `j` answers for one of the first `k` symbols, or none of them begins `j`. */
  ghost predicate FastAt(entry: nat, lens: seq<nat>, k: nat, j: nat) {
    if entry == 0 then forall n: nat :: n < k ==> !FastMatch(lens, n, j)
    else exists n: nat :: n < k && FastMatch(lens, n, j) && entry == FastEntry(lens[n], n)
  }

  ghost predicate FastFor(fast: seq<nat>, lens: seq<nat>, k: nat) {
    |fast| == FAST_SIZE && forall j: nat :: j < FAST_SIZE ==> FastAt(fast[j], lens, k, j)
  }

  /** The slot of each of the first `k` symbols holds its length and its value. */
  ghost predicate SlotsFor(size: seq<nat>, value: seq<nat>, lens: seq<nat>, k: nat) {
    && |size| == |value| == SYMBOLS
    && forall n: nat {:trigger SlotOf(lens, n)} :: n < k && n < |lens| && lens[n] > 0 ==>
         SlotOf(lens, n) < SYMBOLS && size[SlotOf(lens, n)] == lens[n] && value[SlotOf(lens, n)] == n
  }

  // ---- what the loops of Build rely on ----

  lemma SlotsStep(size: seq<nat>, value: seq<nat>, lens: seq<nat>, n: nat)
    requires n < |lens| <= SYMBOLS && lens[n] > 0 && SlotsFor(size, value, lens, n)
    ensures var c := SlotOf(lens, n);
            c < SYMBOLS && SlotsFor(size[c := lens[n]], value[c := n], lens, n + 1)
  {
    SlotBelowNext(lens, n);
    forall m: nat | m < n && lens[m] > 0 ensures SlotOf(lens, n) != SlotOf(lens, m) {
      SlotsDiffer(lens, n, m);
    }
  }

  /** If the codes of one length overflow, the lengths are not those of a prefix code. */
  lemma Overflow(lens: seq<nat>, l: nat)
    requires l <= MAX_LENGTH && EndCode(lens, l) > Pow2(l)
    ensures !Kraft(lens)
  {
    KraftSumIsEndCode(lens, MAX_LENGTH);
    if Kraft(lens) { EndCodeBounded(lens, l, MAX_LENGTH); }
  }

  lemma CountOverflow(lens: seq<nat>, l: nat)
    requires 0 < l <= MAX_LENGTH && Count(lens, l) > Pow2(l)
    ensures !Kraft(lens)
  {
    Overflow(lens, l);
  }

  /** If the codes of the greatest length do not overflow, the lengths are those of a prefix code. */
  lemma NoOverflow(lens: seq<nat>)
    requires EndCode(lens, MAX_LENGTH) <= Pow2(MAX_LENGTH)
    ensures Kraft(lens)
  {
    KraftSumIsEndCode(lens, MAX_LENGTH);
  }

  lemma CodeFits(lens: seq<nat>, n: nat)
    requires Kraft(lens) && n < |lens| && 0 < lens[n] <= MAX_LENGTH
    ensures CodeOf(lens, n) < Pow2(lens[n])
  {
    CodeBelowEnd(lens, n);
    KraftSumIsEndCode(lens, MAX_LENGTH);
    EndCodeBounded(lens, lens[n], MAX_LENGTH);
  }

  /** How the codes and slots of one length lead to those of the next. */
  lemma StartStep(lens: seq<nat>, l: nat)
    requires 1 <= l <= MAX_LENGTH && EndCode(lens, l - 1) <= Pow2(l - 1) && |lens| <= SYMBOLS
    ensures FirstCode(lens, l) < 0x10000 && FirstSlot(lens, l) < 0x10000
    ensures EndCode(lens, l) == FirstCode(lens, l) + Count(lens, l)
    ensures FirstCode(lens, l + 1) == Shl(EndCode(lens, l), 1)
    ensures FirstSlot(lens, l + 1) == FirstSlot(lens, l) + Count(lens, l)
    ensures Count(lens, l) == 0 ==> EndCode(lens, l) <= Pow2(l)
  {
    Pow2Monotone(l, 15);
    Powers();
    FirstSlotBound(lens, l);
    assert Shl(EndCode(lens, l), 1) == 2 * Shl(EndCode(lens, l), 0);
  }

  lemma FastSkip(fast: seq<nat>, lens: seq<nat>, n: nat)
    requires FastFor(fast, lens, n) && n < |lens| && !(0 < lens[n] <= FAST_BITS)
    ensures FastFor(fast, lens, n + 1)
  {
    forall j: nat | j < FAST_SIZE ensures FastAt(fast[j], lens, n + 1, j) {
      assert FastAt(fast[j], lens, n, j);
    }
  }

  /** Overwriting the entries that symbol `n` begins extends the table to it. */
  lemma FastStep(before: seq<nat>, after: seq<nat>, lens: seq<nat>, n: nat)
    requires n < |lens| && n < SYMBOLS && 0 < lens[n] <= FAST_BITS
    requires FastFor(before, lens, n) && |after| == FAST_SIZE
    requires forall j: nat :: j < FAST_SIZE ==>
               after[j] == if FastMatch(lens, n, j) then FastEntry(lens[n], n) else before[j]
    ensures FastFor(after, lens, n + 1)
  {
    PackedEntry(lens[n], n);
    forall j: nat | j < FAST_SIZE ensures FastAt(after[j], lens, n + 1, j) {
      assert FastAt(before[j], lens, n, j);
    }
  }

  /** A table entry gives back the length and the symbol, and is never 0. */
  lemma PackedEntry(len: nat, n: nat)
    requires n < FAST_SIZE
    ensures Shr(FastEntry(len, n), 9) == len && And(FastEntry(len, n), 511) == n
    ensures len > 0 ==> FastEntry(len, n) != 0
  {
    Powers();
    Pack(len, n, 9);
    AndMask(FastEntry(len, n), 9);
    if FastEntry(len, n) == 0 { ShlMonotone(0, 0, 9); assert Shr(0, 9) == 0; }
  }

  lemma EntryFits(len: nat, n: nat)
    requires len <= FAST_BITS && n < SYMBOLS
    ensures FastEntry(len, n) < 0x10000
  {
    var s := Digits(n, 9) + Digits(len, 4);
    LowBound(n, 9);
    LowBound(len, 4);
    Powers();
    OrCommutes(Shl(len, 9), n);
    OrAppend(Digits(n, 9), Digits(len, 4));
    LsbValBound(s);
  }

  lemma ReverseMirrors(c: nat, s: nat)
    requires s <= 16 && c < Pow2(s)
    ensures Reverse(c, s) == Mirrored(c, s) < Pow2(s)
  {
    LowBound(c, s);
    ReverseDigits(Digits(c, s));
    MsbValBound(Digits(c, s));
  }

  // ---- what the tables mean to the decoder ----

  /** A fast entry fits the buffered bits just when the codeword does. */
  lemma FastMatchIsMatch(lens: seq<nat>, w: seq<bool>, n: nat)
    requires Lengths(lens) && Kraft(lens) && |w| == 16 && n < |lens| && 0 < lens[n] <= FAST_BITS
    ensures FastMatch(lens, n, LsbVal(w[..FAST_BITS])) <==> Matches(lens, w, n)
  {
    var s, c := lens[n], CodeOf(lens, n);
    var d := Digits(c, s);
    CodeFits(lens, n);
    LowBound(c, s);
    MsbValReversed(d);
    LsbValSplit(w[..FAST_BITS], s);
    assert w[..FAST_BITS][..s] == w[..s];
    if LsbVal(w[..s]) == MsbVal(d) { LsbValInjective(w[..s], Reversed(d)); }
    if MsbVal(w[..s]) == c { MsbValInjective(w[..s], Reversed(d)); }
  }

  /** A non-zero fast entry gives the symbol that the bits `w` begin with, and its length; after a
      zero entry, only a longer code can begin them. */
  lemma FastLookup(fast: seq<nat>, lens: seq<nat>, w: seq<bool>)
    requires Lengths(lens) && Kraft(lens) && |lens| <= SYMBOLS && |w| == 16
    requires FastFor(fast, lens, |lens|)
    ensures LsbVal(w[..FAST_BITS]) < FAST_SIZE
    ensures var entry := fast[LsbVal(w[..FAST_BITS])];
            if entry == 0 then forall n: nat :: Matches(lens, w, n) ==> lens[n] > FAST_BITS
            else And(entry, 511) < |lens| && lens[And(entry, 511)] == Shr(entry, 9)
                 && Matches(lens, w, And(entry, 511))
  {
    Powers();
    LsbValBound(w[..FAST_BITS]);
    var j := LsbVal(w[..FAST_BITS]);
    assert FastAt(fast[j], lens, |lens|, j);
    if fast[j] == 0 {
      forall n: nat | Matches(lens, w, n) ensures lens[n] > FAST_BITS {
        if lens[n] <= FAST_BITS { FastMatchIsMatch(lens, w, n); }
      }
    } else {
      var n: nat :| n < |lens| && FastMatch(lens, n, j) && fast[j] == FastEntry(lens[n], n);
      FastMatchIsMatch(lens, w, n);
      PackedEntry(lens[n], n);
    }
  }

  method CountSizes(lens: seq<nat>) returns (sizes: seq<nat>)
    requires Lengths(lens)
    ensures |sizes| == 17 && forall l: nat :: l < 17 ==> sizes[l] == Count(lens, l)
  {
    sizes := seq(17, _ => 0);
    for i := 0 to |lens|
      invariant |sizes| == 17 && forall l: nat :: l < 17 ==> sizes[l] == Count(lens[..i], l)
    {
      assert lens[..i + 1][..i] == lens[..i];
      sizes := sizes[lens[i] := sizes[lens[i]] + 1];
    }
    assert lens[..|lens|] == lens;
  }

  /** Writes `entry` at every index of `a` whose `s` low bits are `start`. */
  method Stamp(a: seq<nat>, start: nat, s: nat, entry: nat) returns (b: seq<nat>)
    requires start < Pow2(s)
    ensures |b| == |a|
    ensures forall x: nat :: x < |a| ==> b[x] == if Low(x, s) == start then entry else a[x]
  {
    b := a;
    var j := start;
    LowBound(start, s);
    forall x: nat | x < start ensures Low(x, s) != start { LowBound(x, s); }
    while j < |b|
      invariant |b| == |a| && Low(j, s) == start
      invariant forall x: nat :: x < |a| ==> b[x] == if x < j && Low(x, s) == start then entry else a[x]
    {
      b := b[j := entry];
      Pow2Monotone(0, s);
      LowPeriod(j, s);
      forall x: nat | j < x < j + Pow2(s) ensures Low(x, s) != start { LowGap(j, x, s); }
      j := j + Pow2(s);
    }
  }

  /** The tables are arrays inside a structure, so they are values that the methods update. */
  class Table {
    var fast: FastRow
    var firstCode: LengthRow
    var maxCode: EndRow
    var firstSymbol: LengthRow
    var size: SymbolRow
    var value: SymbolRow

    /** The entries for the lengths below `l` say where the codes and slots of each length begin,
        and where its codes end, shifted up to 16 bits. */
    ghost predicate StartsFor(lens: seq<nat>, l: nat)
      requires l <= 16
      reads this
    {
      forall i: nat :: 1 <= i < l ==>
        && firstCode[i] == FirstCode(lens, i)
        && firstSymbol[i] == FirstSlot(lens, i)
        && maxCode[i] == Shl(EndCode(lens, i), 16 - i)
    }

    /** The tables decode the canonical code of `lens`. */
    ghost predicate For(lens: seq<nat>)
      reads this
    {
      && Lengths(lens) && |lens| <= SYMBOLS && Kraft(lens)
      && FastFor(fast, lens, |lens|)
      && SlotsFor(size, value, lens, |lens|)
      && StartsFor(lens, 16)
      && maxCode[16] == 0x10000
    }

    constructor () {
    }

    /** The first code, first slot and shifted end of every length, and the next code to give out. */
    method BuildStarts(lens: seq<nat>, sizes: seq<nat>) returns (ok: bool, nextCode: LengthRow)
      requires |lens| <= SYMBOLS && |sizes| == 17
      requires forall l: nat :: 1 <= l < 16 ==> sizes[l] == Count(lens, l)
      modifies this`firstCode, this`maxCode, this`firstSymbol
      ensures ok <==> Kraft(lens)
      ensures ok ==> StartsFor(lens, 16) && maxCode[16] == 0x10000
      ensures ok ==> forall l: nat :: 1 <= l < 16 ==> nextCode[l] == FirstCode(lens, l)
    {
      hide Kraft, CanonicalCode.Count, EndCode, FirstCode, FirstSlot, Pow2, Shl, Table.StartsFor;
      var code, k := 0, 0;
      nextCode := seq(16, _ => 0);
      NoLengths(lens);
      for i := 1 to 16
        invariant code == FirstCode(lens, i) && k == FirstSlot(lens, i)
        invariant EndCode(lens, i - 1) <= Pow2(i - 1)
        invariant StartsFor(lens, i)
        invariant forall l: nat :: 1 <= l < i ==> nextCode[l] == FirstCode(lens, l)
      {
        StartStep(lens, i);
        nextCode := nextCode[i := code];
        var first := code;
        code := code + sizes[i];
        if sizes[i] != 0 && code - 1 >= Pow2(i) {
          Overflow(lens, i);
          return false, nextCode;
        }
        EnterLength(lens, i, first, k, code);
        code := Shl(code, 1);
        k := k + sizes[i];
      }
      NoOverflow(lens);
      EndStarts(lens);
      ok := true;
    }

    lemma NoLengths(lens: seq<nat>)
      ensures FirstCode(lens, 1) == FirstSlot(lens, 1) == 0 && EndCode(lens, 0) <= Pow2(0) && StartsFor(lens, 1)
    {
    }

    /** Enters where the codes and slots of length `l` begin, and where its codes end. */
    method EnterLength(lens: seq<nat>, l: nat, code: nat, k: nat, end: nat)
      requires 1 <= l < 16 && StartsFor(lens, l)
      requires code == FirstCode(lens, l) < 0x10000 && k == FirstSlot(lens, l) < 0x10000 && end == EndCode(lens, l)
      modifies this`firstCode, this`maxCode, this`firstSymbol
      ensures StartsFor(lens, l + 1)
    {
      firstCode := firstCode[l := code % 0x10000];
      firstSymbol := firstSymbol[l := k % 0x10000];
      maxCode := maxCode[l := Shl(end, 16 - l)];
    }

    /** Enters the sentinel. */
    method EndStarts(lens: seq<nat>)
      requires StartsFor(lens, 16)
      modifies this`maxCode
      ensures StartsFor(lens, 16) && maxCode[16] == 0x10000
    {
      maxCode := maxCode[16 := 0x10000];
    }

    lemma StartsAt(lens: seq<nat>, l: nat)
      requires 1 <= l < 16 && StartsFor(lens, 16)
      ensures firstCode[l] == FirstCode(lens, l) && firstSymbol[l] == FirstSlot(lens, l)
    {
    }

    /** Gives symbol `n` the code `code`: its slot, and its fast entries if the code is short. */
    method EnterSymbol(lens: seq<nat>, n: nat, code: nat)
      requires n < |lens| <= SYMBOLS && 0 < lens[n] <= MAX_LENGTH && Kraft(lens)
      requires code == CodeOf(lens, n) && StartsFor(lens, 16)
      requires FastFor(fast, lens, n) && SlotsFor(size, value, lens, n)
      modifies this`fast, this`size, this`value
      ensures FastFor(fast, lens, n + 1) && SlotsFor(size, value, lens, n + 1)
    {
      hide Mirrored, CodeOf, FastEntry, FastFor, SlotsFor, SlotOf, FirstCode, FirstSlot, Kraft, Reverse, Low, Pow2,
      Table.StartsFor;
      var s := lens[n];
      StartsAt(lens, s);
      var c := code - firstCode[s] + firstSymbol[s];
      SlotOfCode(lens, n);
      SlotsStep(size, value, lens, n);
      size := size[c := s];
      value := value[c := n];
      if s <= FAST_BITS {
        CodeFits(lens, n);
        ReverseMirrors(code, s);
        EntryFits(s, n);
        ghost var before := fast;
        fast := Stamp(fast, Reverse(code, s), s, FastEntry(s, n) % 0x10000);
        FastStep(before, fast, lens, n);
      } else {
        FastSkip(fast, lens, n);
      }
    }

    /** Enters every coded symbol, in increasing order. */
    method EnterSymbols(lens: seq<nat>, codes: LengthRow)
      requires Lengths(lens) && |lens| <= SYMBOLS && Kraft(lens) && StartsFor(lens, 16)
      requires FastFor(fast, lens, 0)
      requires forall l: nat :: 1 <= l < 16 ==> codes[l] == FirstCode(lens, l)
      modifies this`fast, this`size, this`value
      ensures FastFor(fast, lens, |lens|) && SlotsFor(size, value, lens, |lens|)
    {
      var nextCode := codes;
      for i := 0 to |lens|
        invariant FastFor(fast, lens, i) && SlotsFor(size, value, lens, i)
        invariant forall l: nat :: 1 <= l < 16 ==> nextCode[l] == FirstCode(lens, l) + Count(lens[..i], l)
      {
        assert lens[..i + 1][..i] == lens[..i];
        var s := lens[i];
        if s != 0 {
          EnterSymbol(lens, i, nextCode[s]);
          nextCode := nextCode[s := nextCode[s] + 1];
        } else {
          FastSkip(fast, lens, i);
        }
      }
    }

    /** Fills the tables for the code lengths `lens`; refuses exactly the lists that are not
        the lengths of a prefix code. */
    method Build(lens: seq<nat>) returns (ok: bool)
      requires Lengths(lens) && |lens| <= SYMBOLS
      modifies this
      ensures ok <==> Kraft(lens)
      ensures ok ==> For(lens)
    {
      var sizes := CountSizes(lens);
      fast := seq(FAST_SIZE, _ => 0);
      sizes := sizes[0 := 0];
      for i := 1 to 16 {
        if sizes[i] > Pow2(i) {
          CountOverflow(lens, i);
          return false;
        }
      }
      var nextCode;
      ok, nextCode := BuildStarts(lens, sizes);
      if ok { EnterSymbols(lens, nextCode); }
    }
  }
}

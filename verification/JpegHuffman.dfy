/**
Huffman tables of JPEG: the code that Annex C of ITU-T T.81 generates from a list of counts, the DECODE
procedure of its section F.2.2.3, and the tables of 3rd_party/imageHelper/stb_image.h for it, which are
looked up nine bits at a time or by a pre-shifted end of every length.
 */
module JpegHuffman {
  import opened Bits
  import opened CanonicalCode
  import opened Wrappers

  const FAST_BITS: nat := 9
  const FAST_SIZE: nat := 512
  const NOT_FAST: nat := 255
  const LONGEST: nat := 16

  type FastRow = s: seq<nat> | |s| == FAST_SIZE witness seq(FAST_SIZE, _ => 0)
  type CodeRow = s: seq<nat> | |s| == 256 witness seq(256, _ => 0)
  type SizeRow = s: seq<nat> | |s| == 257 witness seq(257, _ => 0)
  type EndRow = s: seq<nat> | |s| == 18 witness seq(18, _ => 0)
  type ValueRow = s: seq<Byte> | |s| == 256 witness seq(256, _ => 0)
  type DeltaRow = s: seq<int> | |s| == 17 witness seq(17, _ => 0)

  // ---- Annex C ----

  /** The code lengths of the symbols, in the order of the table: `count[0]` of 1 bit and so on (figure C.1). */
  function Sizes(count: seq<nat>, l: nat): seq<nat>
    requires l <= |count|
  {
    if l == 0 then [] else Sizes(count, l - 1) + seq(count[l - 1], _ => l)
  }

  ghost predicate Increasing(lens: seq<nat>) {
    && (forall i, j :: 0 <= i <= j < |lens| ==> lens[i] <= lens[j])
    && (forall i :: 0 <= i < |lens| ==> 0 < lens[i] <= LONGEST)
  }

  lemma {:induction false} SizesIncrease(count: seq<nat>, l: nat)
    requires l <= |count| && l <= LONGEST
    ensures Increasing(Sizes(count, l)) && forall i :: 0 <= i < |Sizes(count, l)| ==> Sizes(count, l)[i] <= l
  {
    if l > 0 { SizesIncrease(count, l - 1); }
  }

  /** In an increasing list the symbols of each length follow each other. */
  lemma {:induction false} SymbolsOfLength(lens: seq<nat>, l: nat, n: nat)
    requires Increasing(lens) && n < |lens|
    ensures lens[n] < l <==> n < FirstSlot(lens, l)
    decreases |lens|
  {
    var last := |lens| - 1;
    FirstSlotAppend(lens, l);
    FirstSlotBound(lens[..last], l);
    if n < last {
      SymbolsOfLength(lens[..last], l, n);
    } else if last > 0 {
      SymbolsOfLength(lens[..last], l, last - 1);
    }
    if n == last && lens[last] < l {
      AllShorter(lens[..last], l);
    }
  }

  lemma {:induction false} AllShorter(lens: seq<nat>, l: nat)
    requires Increasing(lens) && forall i :: 0 <= i < |lens| ==> lens[i] < l
    ensures FirstSlot(lens, l) == |lens|
  {
    if lens == [] {
      FirstSlotBound(lens, l);
    } else {
      AllShorter(lens[..|lens| - 1], l);
      FirstSlotAppend(lens, l);
    }
  }

  /** So a symbol's number is its place in the order of the codes. */
  lemma {:induction false} SlotIsNumber(lens: seq<nat>, n: nat)
    requires Increasing(lens) && n < |lens|
    ensures SlotOf(lens, n) == n
    decreases |lens|
  {
    var last := |lens| - 1;
    FirstSlotAppend(lens, lens[n]);
    if n < last {
      assert lens[..last][..n] == lens[..n];
      SlotIsNumber(lens[..last], n);
    } else {
      CountLast(lens[..last], lens[last]);
    }
  }

  lemma {:induction false} CountLast(lens: seq<nat>, l: nat)
    requires Increasing(lens) && l > 0 && forall i :: 0 <= i < |lens| ==> lens[i] <= l
    ensures FirstSlot(lens, l) + Count(lens, l) == |lens|
  {
    if lens == [] {
      FirstSlotBound(lens, l);
    } else {
      CountLast(lens[..|lens| - 1], l);
      FirstSlotAppend(lens, l);
    }
  }

  // ---- the DECODE procedure (F.2.2.3) ----

  /** The greatest code of length `l`, if there are any (figure F.15). */
  function MaxCode(lens: seq<nat>, l: nat): int {
    if Count(lens, l) == 0 then -1 else EndCode(lens, l) - 1
  }

  /** Reads bit by bit until the code is not greater than the greatest of its length; then its place among the codes of
      that length gives the symbol's number (figure F.16). */
  function Procedure(lens: seq<nat>, w: seq<bool>, l: nat): Option<nat>
    requires 0 < l && |w| == LONGEST
    decreases LONGEST + 1 - l
  {
    if l > LONGEST then None
    else
      var code := MsbVal(w[..l]);
      if code > MaxCode(lens, l) then Procedure(lens, w, l + 1)
      else if code < FirstCode(lens, l) then None
      else Some(FirstSlot(lens, l) + code - FirstCode(lens, l))
  }

  /** The procedure finds the symbol whose code the bits begin with, and none if there is none. */
  lemma {:induction false} ProcedureIsDecode(lens: seq<nat>, w: seq<bool>, l: nat)
    requires Increasing(lens) && 0 < l <= LONGEST + 1 && |w| == LONGEST
    requires MsbVal(w[..l - 1]) >= EndCode(lens, l - 1)
    ensures Procedure(lens, w, l) == Decode(lens, w)
    decreases LONGEST + 1 - l
  {
    if l > LONGEST {
      CodesCover(lens, w, LONGEST);
    } else {
      DropLast(w, l);
      var code := MsbVal(w[..l]);
      if code >= EndCode(lens, l) {
        ProcedureIsDecode(lens, w, l + 1);
      } else {
        var n := SlowLookup(lens, w, l);
        SlotIsNumber(lens, n);
        DecodeUnique(lens, w, n);
        CodeBelowEnd(lens, n);
        CountGrows(lens, n, |lens|, lens[n]);
        assert lens[..|lens|] == lens;
      }
    }
  }

  // ---- the tables ----

  /** The nine bits `x` begin with the code of symbol `n`. */
  predicate FastMatch(lens: seq<nat>, n: nat, x: nat) {
    n < |lens| && 0 < lens[n] <= FAST_BITS && Shr(x, FAST_BITS - lens[n]) == CodeOf(lens, n)
  }

  /** Entry `x` answers for the first `k` symbols. */
  ghost predicate FastAt(entry: nat, lens: seq<nat>, k: nat, x: nat) {
    && (forall n: nat :: n < k && FastMatch(lens, n, x) ==> entry == n)
    && (entry != NOT_FAST ==> entry < k && FastMatch(lens, entry, x))
  }

  ghost predicate FastFor(fast: seq<nat>, lens: seq<nat>, k: nat) {
    |fast| == FAST_SIZE && forall x: nat :: x < FAST_SIZE ==> FastAt(fast[x], lens, k, x)
  }

  ghost predicate CodesFor(code: seq<nat>, lens: seq<nat>, k: nat) {
    |code| == 256 && k <= |lens| <= 256 && forall n: nat :: n < k ==> code[n] == CodeOf(lens, n) % 0x10000
  }

  ghost predicate SizesFor(size: seq<nat>, lens: seq<nat>) {
    |size| == 257 && |lens| <= 256 && (forall n: nat :: n < |lens| ==> size[n] == lens[n]) && size[|lens|] == 0
  }

  /** Where the codes of the lengths below `l` begin among the symbols and where they end. */
  ghost predicate EndsFor(maxCode: seq<nat>, delta: seq<int>, lens: seq<nat>, l: nat) {
    && |maxCode| == 18 && |delta| == 17 && l <= 17
    && forall i: nat :: 1 <= i < l ==>
         maxCode[i] == Shl(EndCode(lens, i), LONGEST - i) && delta[i] == FirstSlot(lens, i) - FirstCode(lens, i)
  }

  /** The lengths are those of a prefix code. */
  predicate Prefix(lens: seq<nat>) {
    KraftSum(lens, LONGEST) <= Pow2(LONGEST)
  }

  lemma {:induction false} CodeWithin(lens: seq<nat>, n: nat)
    requires Prefix(lens) && n < |lens| && 0 < lens[n] <= LONGEST
    ensures CodeOf(lens, n) < Pow2(lens[n])
  {
    KraftSumIsEndCode(lens, LONGEST);
    EndCodeBounded(lens, lens[n], LONGEST);
    CodeBelowEnd(lens, n);
  }

  /** Nine bits begin with a short code exactly if all do. */
  lemma FastMatchIsMatch(lens: seq<nat>, w: seq<bool>, n: nat)
    requires |w| >= FAST_BITS && n < |lens| && 0 < lens[n] <= FAST_BITS
    ensures FastMatch(lens, n, MsbVal(w[..FAST_BITS])) <==> Matches(lens, w, n)
  {
    MsbValPrefix(w[..FAST_BITS], lens[n]);
    assert w[..FAST_BITS][..lens[n]] == w[..lens[n]];
  }

  /** What the direct table says about sixteen bits: symbol 255 aside, an entry gives the symbol of a short code, and no
      entry means that there is none. */
  lemma FastLookup(fast: seq<nat>, lens: seq<nat>, w: seq<bool>)
    requires |lens| <= 256 && |w| == LONGEST && FastFor(fast, lens, |lens|)
    ensures MsbVal(w[..FAST_BITS]) < FAST_SIZE
    ensures var entry := fast[MsbVal(w[..FAST_BITS])];
            if entry < NOT_FAST then entry < |lens| && Matches(lens, w, entry)
            else forall n: nat :: Matches(lens, w, n) ==> lens[n] > FAST_BITS || n == 255
  {
    Powers();
    MsbValBound(w[..FAST_BITS]);
    var x := MsbVal(w[..FAST_BITS]);
    assert FastAt(fast[x], lens, |lens|, x);
    if fast[x] < NOT_FAST {
      FastMatchIsMatch(lens, w, fast[x]);
    } else {
      forall n: nat | Matches(lens, w, n) && lens[n] <= FAST_BITS ensures n == 255 {
        FastMatchIsMatch(lens, w, n);
      }
    }
  }

  // ---- building them ----

  lemma {:induction false} ShrRange(x: nat, c: nat, k: nat)
    ensures Shr(x, k) == c <==> Shl(c, k) <= x < Shl(c, k) + Pow2(k)
  {
    if k > 0 {
      ShrRange(x / 2, c, k - 1);
    }
  }

  /** Entering symbol `n` at all places that begin with its code. */
  lemma FastNext(before: seq<nat>, after: seq<nat>, lens: seq<nat>, n: nat)
    requires n < |lens| <= 256 && 0 < lens[n] <= FAST_BITS && Prefix(lens) && FastFor(before, lens, n)
    requires |after| == FAST_SIZE
    requires var k := FAST_BITS - lens[n]; var c := Shl(CodeOf(lens, n), k);
             forall x: nat :: x < FAST_SIZE ==> after[x] == if c <= x < c + Pow2(k) then n else before[x]
    ensures FastFor(after, lens, n + 1)
  {
    forall x: nat | x < FAST_SIZE ensures FastAt(after[x], lens, n + 1, x) {
      ShrRange(x, CodeOf(lens, n), FAST_BITS - lens[n]);
      assert FastAt(before[x], lens, n, x);
      forall m: nat | m < n && FastMatch(lens, m, x) ensures !FastMatch(lens, n, x) {
        if FastMatch(lens, n, x) { FastUnique(lens, m, n, x); }
      }
    }
  }

  /** No nine bits begin with two codes. */
  lemma FastUnique(lens: seq<nat>, m: nat, n: nat, x: nat)
    requires x < FAST_SIZE && FastMatch(lens, m, x) && FastMatch(lens, n, x)
    ensures m == n
  {
    Powers();
    var d := Digits(x, FAST_BITS);
    LowBound(x, FAST_BITS);
    MsbValReversed(d);
    var w := Reversed(d) + Zeros(7);
    assert w[..FAST_BITS] == Reversed(d);
    FastMatchIsMatch(lens, w, m);
    FastMatchIsMatch(lens, w, n);
    PrefixFree(lens, w, m, n);
  }

  lemma FastSkip(fast: seq<nat>, lens: seq<nat>, n: nat)
    requires n < |lens| && lens[n] > FAST_BITS && FastFor(fast, lens, n)
    ensures FastFor(fast, lens, n + 1)
  {
    forall x: nat | x < FAST_SIZE ensures FastAt(fast[x], lens, n + 1, x) { assert FastAt(fast[x], lens, n, x); }
  }

  // ---- the symbols of one length ----

  lemma SlotRange(lens: seq<nat>, j: nat)
    requires 0 < j
    ensures FirstSlot(lens, j) + Count(lens, j) == FirstSlot(lens, j + 1) <= |lens|
  {
    FirstSlotBound(lens, j + 1);
  }

  lemma SlotSize(lens: seq<nat>, j: nat, k: nat)
    requires Increasing(lens) && 0 < j && k < |lens|
    ensures lens[k] == j <==> FirstSlot(lens, j) <= k < FirstSlot(lens, j + 1)
  {
    SymbolsOfLength(lens, j, k);
    SymbolsOfLength(lens, j + 1, k);
  }

  lemma NextCode(lens: seq<nat>, j: nat, k: nat)
    requires Increasing(lens) && k < |lens| && lens[k] == j
    ensures CodeOf(lens, k) == FirstCode(lens, j) + (k - FirstSlot(lens, j))
  {
    SlotIsNumber(lens, k);
    SlotOfCode(lens, k);
  }

  lemma SizeAt(size: seq<nat>, lens: seq<nat>, j: nat)
    requires Increasing(lens) && SizesFor(size, lens) && 0 < j
    ensures FirstSlot(lens, j) <= |lens| && (size[FirstSlot(lens, j)] == j <==> Count(lens, j) > 0)
  {
    var k := FirstSlot(lens, j);
    SlotRange(lens, j);
    if k < |lens| { SlotSize(lens, j, k); }
  }

  lemma CodeStep(lens: seq<nat>, j: nat)
    requires 0 < j
    ensures EndCode(lens, j) == FirstCode(lens, j) + Count(lens, j)
    ensures FirstCode(lens, j + 1) == Shl(EndCode(lens, j), 1)
    ensures FirstCode(lens, j) == 2 * EndCode(lens, j - 1) && Pow2(j) == 2 * Pow2(j - 1)
  {
  }

  lemma StartOfCodes(lens: seq<nat>)
    ensures FirstSlot(lens, 1) == 0 && FirstCode(lens, 1) == 0 && EndCode(lens, 0) == 0 && Pow2(0) == 1
  {
  }

  lemma TooManyCodes(lens: seq<nat>, j: nat)
    requires EndCode(lens, j) > Pow2(j) && j <= LONGEST
    ensures !Prefix(lens)
  {
    KraftSumIsEndCode(lens, LONGEST);
    if Prefix(lens) { EndCodeBounded(lens, j, LONGEST); }
  }

  lemma EnoughRoom(lens: seq<nat>)
    requires Increasing(lens) && EndCode(lens, LONGEST) <= Pow2(LONGEST)
    ensures Prefix(lens) && FirstSlot(lens, LONGEST + 1) == |lens|
  {
    KraftSumIsEndCode(lens, LONGEST);
    AllShorter(lens, LONGEST + 1);
  }

  lemma FastRange(lens: seq<nat>, n: nat)
    requires Prefix(lens) && n < |lens| && 0 < lens[n] <= FAST_BITS
    ensures Shl(CodeOf(lens, n), FAST_BITS - lens[n]) + Pow2(FAST_BITS - lens[n]) <= FAST_SIZE
  {
    Powers();
    CodeWithin(lens, n);
    var k := FAST_BITS - lens[n];
    ShlPlus(CodeOf(lens, n), 1, k);
    ShlAdd(1, lens[n], k);
    ShlMonotone(CodeOf(lens, n) + 1, Pow2(lens[n]), k);
  }

  lemma CodeFits(lens: seq<nat>, n: nat)
    requires Prefix(lens) && n < |lens| && 0 < lens[n] <= LONGEST
    ensures CodeOf(lens, n) < 0x10000
  {
    Powers();
    CodeWithin(lens, n);
    Pow2Monotone(lens[n], LONGEST);
  }

  lemma {:induction false} SizesGrow(count: seq<nat>, l: nat)
    requires l <= |count|
    ensures |Sizes(count, l)| <= |Sizes(count, |count|)|
    decreases |count| - l
  {
    if l < |count| { SizesGrow(count, l + 1); }
  }

  class Table {
    var fast: FastRow
    var code: CodeRow
    var size: SizeRow
    var maxCode: EndRow
    var delta: DeltaRow
    var values: ValueRow

    /** The tables decode the code of the increasing list `lens`. */
    ghost predicate For(lens: seq<nat>)
      reads this
    {
      && Increasing(lens) && |lens| <= 256 && Prefix(lens)
      && SizesFor(size, lens) && CodesFor(code, lens, |lens|) && FastFor(fast, lens, |lens|)
      && EndsFor(maxCode, delta, lens, LONGEST + 1) && maxCode[LONGEST + 1] == 0xFFFF_FFFF
    }

    constructor () {
    }

    /** What the tables give for sixteen bits. */
    ghost function Reads(w: seq<bool>): Option<Found>
      requires |w| == LONGEST && maxCode[LONGEST + 1] == 0xFFFF_FFFF
      reads this
    {
      InRange(w);
      Lookup(fast, size, maxCode, delta, MsbVal(w))
    }

    /** The tables decode sixteen bits correctly exactly if those do not begin with a short code of symbol number
        255. */
    lemma ReadsExpected(lens: seq<nat>, w: seq<bool>)
      requires For(lens) && |w| == LONGEST
      ensures Reads(w) == Expected(lens, w) <==> !Mistaken(lens, w)
    {
      LookupIsDecode(fast, size, maxCode, delta, lens, w);
    }

    lemma ShortSize(lens: seq<nat>, x: nat)
      requires For(lens) && x < FAST_SIZE && fast[x] < NOT_FAST
      ensures size[fast[x]] <= FAST_BITS
    {
      assert FastAt(fast[x], lens, |lens|, x);
    }

    lemma ReadsAs(w: seq<bool>)
      requires |w| == LONGEST && maxCode[LONGEST + 1] == 0xFFFF_FFFF
      ensures MsbVal(w) < 0x10000 && Shr(MsbVal(w), LONGEST - FAST_BITS) < FAST_SIZE
      ensures var k := fast[Shr(MsbVal(w), LONGEST - FAST_BITS)];
              Reads(w) == if k < NOT_FAST then Some(Found(k, size[k])) else Search(maxCode, delta, MsbVal(w))
    {
      InRange(w);
    }

    /** Builds the tables for the code with `count[i]` symbols of length `i + 1`; refuses exactly a list of more than
        256 symbols and lengths that no prefix code has. */
    method Build(count: seq<nat>) returns (ok: bool)
      requires |count| == LONGEST
      modifies this`fast, this`code, this`size, this`maxCode, this`delta
      ensures ok <==> |Sizes(count, LONGEST)| <= 256 && Prefix(Sizes(count, LONGEST))
      ensures ok ==> For(Sizes(count, LONGEST))
    {
      hide Prefix, SizesFor, CodesFor, FastFor, EndsFor, Increasing, Sizes;
      ghost var lens := Sizes(count, LONGEST);
      SizesIncrease(count, LONGEST);
      ok := BuildSizes(count);
      if ok {
        var k;
        ok, k := BuildCodes(lens);
        if ok { BuildFast(lens, k); }
      }
    }

    /** Lists the size of every symbol. */
    method BuildSizes(count: seq<nat>) returns (ok: bool)
      requires |count| == LONGEST
      modifies this`size
      ensures ok <==> |Sizes(count, LONGEST)| <= 256
      ensures ok ==> SizesFor(size, Sizes(count, LONGEST))
    {
      var k := 0;
      for i := 0 to LONGEST
        invariant k == |Sizes(count, i)| <= 256
        invariant forall n :: 0 <= n < k ==> size[n] == Sizes(count, i)[n]
      {
        for j := 0 to count[i]
          invariant k == |Sizes(count, i)| + j <= 256
          invariant forall n :: 0 <= n < k ==> size[n] == if n < |Sizes(count, i)| then Sizes(count, i)[n] else i + 1
        {
          size := size[k := i + 1];
          k := k + 1;
          if k >= 257 {
            SizesGrow(count, i + 1);
            return false;
          }
        }
      }
      size := size[k := 0];
      ok := true;
    }

    /** Gives out the codes of length `j`, from symbol `first` on. */
    method GiveCodes(ghost lens: seq<nat>, j: nat, first: nat, start: nat) returns (k: nat, next: nat)
      requires 0 < j && Increasing(lens) && |lens| <= 256 && SizesFor(size, lens) && CodesFor(code, lens, first)
      requires first == FirstSlot(lens, j) && start == FirstCode(lens, j)
      modifies this`code
      ensures k == FirstSlot(lens, j + 1) && next == EndCode(lens, j) && CodesFor(code, lens, k)
    {
      hide FirstSlot, FirstCode, EndCode, CodeOf, Count, Increasing;
      k, next := first, start;
      SlotRange(lens, j);
      CodeStep(lens, j);
      while size[k] == j
        invariant first <= k <= FirstSlot(lens, j + 1) <= |lens| && next == start + (k - first)
        invariant CodesFor(code, lens, k)
        decreases |lens| - k
      {
        SlotSize(lens, j, k);
        NextCode(lens, j, k);
        code := code[k := next % 0x10000];
        k, next := k + 1, next + 1;
      }
      if k < |lens| { SlotSize(lens, j, k); }
    }

    /** The codes and ends of all lengths; refuses exactly an over-full length. */
    method BuildCodes(ghost lens: seq<nat>) returns (ok: bool, k: nat)
      requires Increasing(lens) && |lens| <= 256 && SizesFor(size, lens)
      modifies this`code, this`maxCode, this`delta
      ensures ok <==> Prefix(lens)
      ensures ok ==> k == |lens| && CodesFor(code, lens, k)
      ensures ok ==> EndsFor(maxCode, delta, lens, LONGEST + 1) && maxCode[LONGEST + 1] == 0xFFFF_FFFF
    {
      hide Pow2, Shl, EndCode, FirstCode, FirstSlot, KraftSum, Increasing, SizesFor, Prefix, Count, CodeOf;
      var next: nat;
      next, k := 0, 0;
      StartOfCodes(lens);
      for j := 1 to LONGEST + 1
        invariant k == FirstSlot(lens, j) && next == FirstCode(lens, j) && EndCode(lens, j - 1) <= Pow2(j - 1)
        invariant CodesFor(code, lens, k) && EndsFor(maxCode, delta, lens, j)
      {
        delta := delta[j := k - next];
        SlotRange(lens, j);
        CodeStep(lens, j);
        SizeAt(size, lens, j);
        if size[k] == j {
          k, next := GiveCodes(lens, j, k, next);
          if next - 1 >= Pow2(j) {
            TooManyCodes(lens, j);
            return false, k;
          }
        }
        maxCode := maxCode[j := Shl(next, LONGEST - j)];
        next := Shl(next, 1);
      }
      maxCode := maxCode[LONGEST + 1 := 0xFFFF_FFFF];
      EnoughRoom(lens);
      ok := true;
    }

    /** The direct table for the short codes. */
    method BuildFast(ghost lens: seq<nat>, k: nat)
      requires Increasing(lens) && k == |lens| <= 256 && Prefix(lens) && SizesFor(size, lens) && CodesFor(code, lens, k)
      modifies this`fast
      ensures FastFor(fast, lens, k)
    {
      hide Pow2, Shl, Shr, CodeOf, Prefix, FastFor;
      fast := seq(FAST_SIZE, _ => NOT_FAST);
      NoneYet(fast, lens);
      for i := 0 to k
        invariant FastFor(fast, lens, i)
      {
        var s := size[i];
        if s <= FAST_BITS {
          FastRange(lens, i);
          CodeFits(lens, i);
          var c, m := Shl(code[i], FAST_BITS - s), Pow2(FAST_BITS - s);
          ghost var before := fast;
          for j := 0 to m
            invariant forall x: nat :: x < FAST_SIZE ==> fast[x] == if c <= x < c + j then i else before[x]
          {
            fast := fast[c + j := i];
          }
          FastNext(before, fast, lens, i);
        } else {
          FastSkip(fast, lens, i);
        }
      }
    }
  }

  lemma NoneYet(fast: seq<nat>, lens: seq<nat>)
    requires fast == seq(FAST_SIZE, _ => NOT_FAST)
    ensures FastFor(fast, lens, 0)
  {
  }

  // ---- reading through the tables ----

  /** A symbol's number and the length of its code. */
  datatype Found = Found(n: nat, bits: nat)

  /** What `DECODE` finds at the beginning of `w`. */
  ghost function Expected(lens: seq<nat>, w: seq<bool>): Option<Found> {
    var r := Decode(lens, w);
    if r.Some? then Some(Found(r.value, lens[r.value])) else None
  }

  /** The first length from `l` on whose end is above `v`. */
  function FirstAbove(maxCode: EndRow, v: nat, l: nat): (r: nat)
    requires l <= LONGEST + 1 && v < maxCode[LONGEST + 1]
    ensures l <= r <= LONGEST + 1 && v < maxCode[r]
    ensures forall k :: l <= k < r ==> maxCode[k] <= v
    decreases LONGEST + 1 - l
  {
    if v < maxCode[l] then l else FirstAbove(maxCode, v, l + 1)
  }

  /** The slow part of a look-up. */
  function Search(maxCode: EndRow, delta: DeltaRow, v: nat): Option<Found>
    requires v < maxCode[LONGEST + 1]
  {
    var l := FirstAbove(maxCode, v, FAST_BITS + 1);
    if l == LONGEST + 1 then None
    else
      var c := Shr(v, LONGEST - l) + delta[l];
      if c < 0 || c >= 256 then None else Some(Found(c, l))
  }

  /** The symbol that the tables give for the sixteen bits of `v`. */
  function Lookup(fast: FastRow, size: SizeRow, maxCode: EndRow, delta: DeltaRow, v: nat): Option<Found>
    requires Shr(v, LONGEST - FAST_BITS) < FAST_SIZE && v < maxCode[LONGEST + 1]
  {
    var k := fast[Shr(v, LONGEST - FAST_BITS)];
    if k < NOT_FAST then Some(Found(k, size[k])) else Search(maxCode, delta, v)
  }

  /** Bits whose symbol has the number that marks the places without a short code. */
  predicate Mistaken(lens: seq<nat>, w: seq<bool>) {
    |lens| > NOT_FAST && lens[NOT_FAST] <= FAST_BITS && Matches(lens, w, NOT_FAST)
  }

  lemma InRange(w: seq<bool>)
    requires |w| == LONGEST
    ensures MsbVal(w) < 0x10000 && Shr(MsbVal(w), LONGEST - FAST_BITS) == MsbVal(w[..FAST_BITS]) < FAST_SIZE
  {
    Powers();
    MsbValBound(w);
    MsbValBound(w[..FAST_BITS]);
    MsbValPrefix(w, FAST_BITS);
  }

  /** The tables give what `DECODE` gives, symbol and length or none, exactly if the bits do not begin with a short code
      of symbol number 255. */
  lemma LookupIsDecode(fast: FastRow, size: SizeRow, maxCode: EndRow, delta: DeltaRow, lens: seq<nat>, w: seq<bool>)
    requires Increasing(lens) && |lens| <= 256 && |w| == LONGEST && SizesFor(size, lens) && FastFor(fast, lens, |lens|)
    requires EndsFor(maxCode, delta, lens, LONGEST + 1) && maxCode[LONGEST + 1] == 0xFFFF_FFFF
    ensures MsbVal(w) < 0x10000 && Shr(MsbVal(w), LONGEST - FAST_BITS) < FAST_SIZE
    ensures Lookup(fast, size, maxCode, delta, MsbVal(w)) == Expected(lens, w) <==> !Mistaken(lens, w)
  {
    hide EndCode, MsbVal, Shr, EndsFor, FastFor, SizesFor, Increasing, Decode, Matches, Lookup, Search, Mistaken,
    Expected;
    InRange(w);
    FastLookup(fast, lens, w);
    LookupAs(fast, size, maxCode, delta, MsbVal(w));
    if Mistaken(lens, w) {
      LookupMistaken(fast, size, lens, w, Lookup(fast, size, maxCode, delta, MsbVal(w)));
    } else if fast[MsbVal(w[..FAST_BITS])] < NOT_FAST {
      ExpectedIs(lens, w, fast[MsbVal(w[..FAST_BITS])]);
      SizeOf(size, lens, fast[MsbVal(w[..FAST_BITS])]);
    } else {
      NotShort(lens, w);
      LookupSlow(maxCode, delta, lens, w);
    }
  }

  lemma ExpectedIs(lens: seq<nat>, w: seq<bool>, n: nat)
    requires Matches(lens, w, n)
    ensures n < |lens| && Expected(lens, w) == Some(Found(n, lens[n]))
  {
    DecodeUnique(lens, w, n);
  }

  lemma SizeOf(size: seq<nat>, lens: seq<nat>, n: nat)
    requires SizesFor(size, lens) && n < |lens|
    ensures n < |size| && size[n] == lens[n]
  {
  }

  lemma LookupAs(fast: FastRow, size: SizeRow, maxCode: EndRow, delta: DeltaRow, v: nat)
    requires Shr(v, LONGEST - FAST_BITS) < FAST_SIZE && v < maxCode[LONGEST + 1]
    ensures Lookup(fast, size, maxCode, delta, v)
            == var k := fast[Shr(v, LONGEST - FAST_BITS)];
               if k < NOT_FAST then Some(Found(k, size[k])) else Search(maxCode, delta, v)
    ensures var r := Search(maxCode, delta, v); r.Some? ==> r.value.bits > FAST_BITS
  {
  }

  /** What is found in place of symbol 255 is wrong. */
  lemma LookupMistaken(fast: FastRow, size: SizeRow, lens: seq<nat>, w: seq<bool>, r: Option<Found>)
    requires |lens| <= 256 && |w| == LONGEST && Mistaken(lens, w)
    requires r.None? || r.value.bits > FAST_BITS || r.value.n < NOT_FAST
    ensures r != Expected(lens, w)
  {
    ExpectedIs(lens, w, NOT_FAST);
  }

  lemma LookupSlow(maxCode: EndRow, delta: DeltaRow, lens: seq<nat>, w: seq<bool>)
    requires Increasing(lens) && |lens| <= 256 && |w| == LONGEST
    requires EndsFor(maxCode, delta, lens, LONGEST + 1) && MsbVal(w) < maxCode[LONGEST + 1]
    requires MsbVal(w[..FAST_BITS]) >= EndCode(lens, FAST_BITS)
    ensures Search(maxCode, delta, MsbVal(w)) == Expected(lens, w)
  {
    hide EndCode, MsbVal, Shr, EndsFor, Increasing, Decode;
    SlowIsDecode(maxCode, delta, lens, w, FirstAbove(maxCode, MsbVal(w), FAST_BITS + 1));
  }

  /** Bits that begin with no short code are above the end of the short codes. */
  lemma NotShort(lens: seq<nat>, w: seq<bool>)
    requires |lens| <= 256 && |w| == LONGEST && !Mistaken(lens, w)
    requires forall n: nat :: Matches(lens, w, n) ==> lens[n] > FAST_BITS || n == NOT_FAST
    ensures MsbVal(w[..FAST_BITS]) >= EndCode(lens, FAST_BITS)
  {
    CodesCover(lens, w, FAST_BITS);
  }

  /** Bits above the end of the longest codes begin with none. */
  lemma NoCode(lens: seq<nat>, w: seq<bool>)
    requires |w| == LONGEST && MsbVal(w[..LONGEST]) >= EndCode(lens, LONGEST)
    ensures Decode(lens, w) == None
  {
    hide MsbVal, EndCode;
    CodesCover(lens, w, LONGEST);
  }

  /** The search by the ends of the lengths finds the symbol. */
  lemma SlowIsDecode(maxCode: EndRow, delta: DeltaRow, lens: seq<nat>, w: seq<bool>, l: nat)
    requires Increasing(lens) && |lens| <= 256 && |w| == LONGEST
    requires EndsFor(maxCode, delta, lens, LONGEST + 1)
    requires MsbVal(w[..FAST_BITS]) >= EndCode(lens, FAST_BITS)
    requires FAST_BITS < l <= LONGEST + 1 && (l <= LONGEST ==> MsbVal(w) < maxCode[l])
    requires forall k :: FAST_BITS < k < l ==> maxCode[k] <= MsbVal(w)
    ensures l == LONGEST + 1 ==> Decode(lens, w) == None
    ensures l <= LONGEST ==>
              var c := Shr(MsbVal(w), LONGEST - l) + delta[l];
              0 <= c < |lens| && lens[c] == l && Decode(lens, w) == Some(c)
  {
    hide MsbVal, Shr, Shl, EndCode, FirstCode, FirstSlot, Count, Matches, Decode, Increasing;
    if l > FAST_BITS + 1 { BelowShiftedEnd(lens, w, l - 1); }
    if l == LONGEST + 1 {
      NoCode(lens, w);
    } else {
      BelowShiftedEnd(lens, w, l);
      var n := SlowLookup(lens, w, l);
      SlotIsNumber(lens, n);
      DecodeUnique(lens, w, n);
    }
  }

  /** Symbol number 255 has no code of nine bits or fewer. */
  predicate Safe(lens: seq<nat>) {
    |lens| <= NOT_FAST || lens[NOT_FAST] > FAST_BITS
  }

  /** So the tables decode everything correctly exactly if the code is safe. */
  lemma AlwaysRight(fast: FastRow, size: SizeRow, maxCode: EndRow, delta: DeltaRow, lens: seq<nat>)
    requires Increasing(lens) && |lens| <= 256 && Prefix(lens) && SizesFor(size, lens) && FastFor(fast, lens, |lens|)
    requires EndsFor(maxCode, delta, lens, LONGEST + 1) && maxCode[LONGEST + 1] == 0xFFFF_FFFF
    ensures (forall w: seq<bool> :: |w| == LONGEST ==>
               MsbVal(w) < 0x10000 && Shr(MsbVal(w), LONGEST - FAST_BITS) < FAST_SIZE
               && Lookup(fast, size, maxCode, delta, MsbVal(w)) == Expected(lens, w))
            <==> Safe(lens)
  {
    forall w: seq<bool> | |w| == LONGEST
      ensures MsbVal(w) < 0x10000 && Shr(MsbVal(w), LONGEST - FAST_BITS) < FAST_SIZE
      ensures Lookup(fast, size, maxCode, delta, MsbVal(w)) == Expected(lens, w) <==> !Mistaken(lens, w)
    {
      LookupIsDecode(fast, size, maxCode, delta, lens, w);
    }
    if !Safe(lens) {
      var w := BitsOf(lens, NOT_FAST);
      assert Mistaken(lens, w);
    }
  }

  /** Every code begins some sixteen bits. */
  lemma BitsOf(lens: seq<nat>, n: nat) returns (w: seq<bool>)
    requires Prefix(lens) && n < |lens| && 0 < lens[n] <= LONGEST
    ensures |w| == LONGEST && Matches(lens, w, n)
  {
    CodeWithin(lens, n);
    LowBound(CodeOf(lens, n), lens[n]);
    var d := Digits(CodeOf(lens, n), lens[n]);
    MsbValReversed(d);
    w := Reversed(d) + Zeros(LONGEST - lens[n]);
    assert w[..lens[n]] == Reversed(d);
  }

  lemma KraftLast(lens: seq<nat>, l: nat)
    requires 0 < l <= LONGEST
    ensures KraftSum(lens + [l], LONGEST) == KraftSum(lens, LONGEST) + Pow2(LONGEST - l)
  {
    assert (lens + [l])[..|lens|] == lens;
  }

  /** `k` more symbols of length `l`. */
  lemma {:induction false} KraftMore(lens: seq<nat>, l: nat, k: nat)
    requires 0 < l <= LONGEST
    ensures KraftSum(lens + seq(k, _ => l), LONGEST) == KraftSum(lens, LONGEST) + k * Pow2(LONGEST - l)
  {
    hide KraftSum, Pow2;
    if k == 0 {
      assert lens + seq(0, _ => l) == lens;
    } else {
      KraftMore(lens, l, k - 1);
      KraftLast(lens + seq(k - 1, _ => l), l);
      assert lens + seq(k, _ => l) == lens + seq(k - 1, _ => l) + [l];
      var unit := Pow2(LONGEST - l);
      assert k * unit == (k - 1) * unit + unit;
    }
  }

  /** There is such a code: with 255 symbols of 8 bits and one of 9 it is accepted, and its last symbol is mistaken. */
  lemma FullCodeIsUnsafe(count: seq<nat>) returns (w: seq<bool>)
    requires |count| == LONGEST && count[7] == 255 && count[8] == 1
    requires forall i :: 0 <= i < LONGEST && i != 7 && i != 8 ==> count[i] == 0
    ensures var lens := Sizes(count, LONGEST);
            |lens| == 256 && Prefix(lens) && !Safe(lens) && |w| == LONGEST && Mistaken(lens, w)
  {
    hide KraftSum, CodeOf, Matches;
    Powers();
    NoSizes(count, 0, 7);
    NoSizes(count, 9, LONGEST);
    var eights, nines := Sizes(count, 8), Sizes(count, 9);
    assert eights == [] + seq(255, _ => 8) && nines == eights + seq(1, _ => 9);
    KraftMore([], 8, 255);
    KraftMore(eights, 9, 1);
    KraftNone();
    w := BitsOf(nines, NOT_FAST);
  }

  lemma KraftNone()
    ensures KraftSum([], LONGEST) == 0
  {
  }

  lemma {:induction false} NoSizes(count: seq<nat>, l: nat, longer: nat)
    requires l <= longer <= |count| && forall i :: l <= i < longer ==> count[i] == 0
    ensures Sizes(count, longer) == Sizes(count, l)
    decreases longer
  {
    if l < longer { NoSizes(count, l, longer - 1); }
  }
}

/**
Canonical Huffman codes as section 3.2.2 of RFC 1951 defines them from a list of code lengths,
with no reference to any table. A length of 0 means that the symbol has no code.
 */
module CanonicalCode {
  import opened Bits
  import opened Wrappers

  const MAX_LENGTH: nat := 15

  predicate Lengths(lens: seq<nat>) {
    forall n :: 0 <= n < |lens| ==> lens[n] <= MAX_LENGTH
  }

  /** How many entries of `lens` equal `l`. */
  function Count(lens: seq<nat>, l: nat): (c: nat)
    ensures c <= |lens|
  {
    if lens == [] then 0
    else Count(lens[..|lens| - 1], l) + if lens[|lens| - 1] == l then 1 else 0
  }

  /** One more than the last code of length `l`. */
  function EndCode(lens: seq<nat>, l: nat): nat
    decreases l, 1
  {
    if l == 0 then 0 else FirstCode(lens, l) + Count(lens, l)
  }

  /** The first code of length `l`: the codes of a length follow, one bit longer, those of the
      length before. */
  function FirstCode(lens: seq<nat>, l: nat): nat
    decreases l, 0
  {
    if l == 0 then 0 else 2 * EndCode(lens, l - 1)
  }

  /** The code of symbol `n`: within a length, codes increase with the symbol. */
  function CodeOf(lens: seq<nat>, n: nat): nat
    requires n < |lens|
  {
    FirstCode(lens, lens[n]) + Count(lens[..n], lens[n])
  }

  /** The bits `w` begin with the codeword of symbol `n`. */
  predicate Matches(lens: seq<nat>, w: seq<bool>, n: nat) {
    && n < |lens|
    && 0 < lens[n] <= |w|
    && MsbVal(w[..lens[n]]) == CodeOf(lens, n)
  }

  /** The symbol whose codeword begins `w`, if any; `PrefixFree` shows that there is no choice. */
  ghost function Decode(lens: seq<nat>, w: seq<bool>): (r: Option<nat>)
    ensures r.Some? ==> Matches(lens, w, r.value)
  {
    if exists n: nat :: Matches(lens, w, n) then
      var n: nat :| Matches(lens, w, n);
      Some(n)
    else
      None
  }

  // ---- counting ----

  lemma {:induction false} CountGrows(lens: seq<nat>, n: nat, m: nat, l: nat)
    requires n <= m <= |lens|
    ensures Count(lens[..n], l) <= Count(lens[..m], l)
    ensures n < m && lens[n] == l ==> Count(lens[..n], l) < Count(lens[..m], l)
    decreases m
  {
    if n < m {
      assert lens[..m][..m - 1] == lens[..m - 1];
      CountGrows(lens, n, m - 1, l);
    }
  }

  /** Ranks within a length are taken by exactly one symbol. */
  lemma {:induction false} NthSymbol(lens: seq<nat>, l: nat, rank: nat) returns (n: nat)
    requires rank < Count(lens, l)
    ensures n < |lens| && lens[n] == l && Count(lens[..n], l) == rank
  {
    var m := |lens| - 1;
    if lens[m] == l && Count(lens[..m], l) == rank {
      n := m;
    } else {
      n := NthSymbol(lens[..m], l, rank);
      assert lens[..m][..n] == lens[..n];
    }
  }

  lemma CodeBelowEnd(lens: seq<nat>, n: nat)
    requires n < |lens| && lens[n] > 0
    ensures CodeOf(lens, n) < EndCode(lens, lens[n])
  {
    CountGrows(lens, n, |lens|, lens[n]);
    assert lens[..|lens|] == lens;
  }

  // ---- the codewords cover an initial interval at every length ----

  /** Dropping the last bit of a value divides it by two. */
  lemma DropLast(w: seq<bool>, l: nat)
    requires 0 < l <= |w|
    ensures MsbVal(w[..l - 1]) == MsbVal(w[..l]) / 2
  {
    assert w[..l][..l - 1] == w[..l - 1];
  }

  /** The codewords of length at most `l` are exactly the prefixes of the `l`-bit values below
      `EndCode(l)`. */
  lemma {:induction false} CodesCover(lens: seq<nat>, w: seq<bool>, l: nat)
    requires l <= |w|
    ensures MsbVal(w[..l]) < EndCode(lens, l) <==> exists n: nat :: Matches(lens, w, n) && lens[n] <= l
  {
    if l > 0 {
      CodesCover(lens, w, l - 1);
      DropLast(w, l);
      var v := MsbVal(w[..l]);
      if FirstCode(lens, l) <= v < EndCode(lens, l) {
        var n := NthSymbol(lens, l, v - FirstCode(lens, l));
        assert Matches(lens, w, n);
      }
      forall n: nat | Matches(lens, w, n) && lens[n] == l ensures v < EndCode(lens, l) {
        CodeBelowEnd(lens, n);
      }
    }
  }

  /** No codeword is the beginning of another, so at most one begins any given bits. */
  lemma PrefixFree(lens: seq<nat>, w: seq<bool>, n: nat, m: nat)
    requires Matches(lens, w, n) && Matches(lens, w, m)
    ensures n == m
  {
    if lens[n] == lens[m] {
      var l := lens[n];
      if n < m { CountGrows(lens, n, m, l); }
      if m < n { CountGrows(lens, m, n, l); }
    } else if lens[n] < lens[m] {
      ShorterExcludes(lens, w, n, m);
    } else {
      ShorterExcludes(lens, w, m, n);
    }
  }

  lemma ShorterExcludes(lens: seq<nat>, w: seq<bool>, n: nat, m: nat)
    requires Matches(lens, w, n) && Matches(lens, w, m)
    ensures lens[n] >= lens[m]
  {
    if lens[n] < lens[m] {
      CodesCover(lens, w, lens[m] - 1);
      DropLast(w, lens[m]);
    }
  }

  lemma DecodeUnique(lens: seq<nat>, w: seq<bool>, n: nat)
    requires Matches(lens, w, n)
    ensures Decode(lens, w) == Some(n)
  {
    PrefixFree(lens, w, n, Decode(lens, w).value);
  }

  // ---- the Kraft sum ----

  /** The sum of `2^-len` over the coded symbols of length at most `l`, in units of `2^-l`. */
  function KraftSum(lens: seq<nat>, l: nat): nat {
    if lens == [] then 0
    else
      var last := lens[|lens| - 1];
      KraftSum(lens[..|lens| - 1], l) + if 0 < last <= l then Pow2(l - last) else 0
  }

  /** Adding a symbol moves the end of every longer length by the share that it takes. */
  lemma {:induction false} EndCodeAppend(lens: seq<nat>, l: nat)
    requires lens != []
    ensures var last := lens[|lens| - 1];
            EndCode(lens, l) == EndCode(lens[..|lens| - 1], l) + if 0 < last <= l then Pow2(l - last) else 0
  {
    if l > 0 { EndCodeAppend(lens, l - 1); }
  }

  lemma {:induction false} KraftSumIsEndCode(lens: seq<nat>, l: nat)
    ensures KraftSum(lens, l) == EndCode(lens, l)
  {
    if lens == [] {
      EndCodeEmpty(l);
    } else {
      KraftSumIsEndCode(lens[..|lens| - 1], l);
      EndCodeAppend(lens, l);
    }
  }

  lemma {:induction false} EndCodeEmpty(l: nat)
    ensures EndCode([], l) == 0
  {
    if l > 0 { EndCodeEmpty(l - 1); }
  }

  /** The lengths can be those of a prefix code. */
  predicate Kraft(lens: seq<nat>) {
    KraftSum(lens, MAX_LENGTH) <= Pow2(MAX_LENGTH)
  }

  /** If the codes overflow some length they overflow every longer one. */
  lemma {:induction false} EndCodeBounded(lens: seq<nat>, l: nat, longest: nat)
    requires l <= longest && EndCode(lens, longest) <= Pow2(longest)
    ensures EndCode(lens, l) <= Pow2(l)
    decreases longest
  {
    if l < longest { EndCodeBounded(lens, l, longest - 1); }
  }

  // ---- symbols in the order of their codes ----

  /** The number of symbols whose codes are shorter than `l`. */
  function FirstSlot(lens: seq<nat>, l: nat): nat {
    if l <= 1 then 0 else FirstSlot(lens, l - 1) + Count(lens, l - 1)
  }

  /** The rank of symbol `n` when symbols are sorted by code length, then by value. */
  function SlotOf(lens: seq<nat>, n: nat): nat
    requires n < |lens|
  {
    FirstSlot(lens, lens[n]) + Count(lens[..n], lens[n])
  }

  lemma {:induction false} FirstSlotAppend(lens: seq<nat>, l: nat)
    requires lens != []
    ensures var last := lens[|lens| - 1];
            FirstSlot(lens, l) == FirstSlot(lens[..|lens| - 1], l) + if 0 < last < l then 1 else 0
  {
    if l > 1 { FirstSlotAppend(lens, l - 1); }
  }

  lemma {:induction false} FirstSlotBound(lens: seq<nat>, l: nat)
    ensures FirstSlot(lens, l) <= |lens|
  {
    if lens == [] {
      if l > 1 { FirstSlotBound(lens, l - 1); }
    } else {
      FirstSlotBound(lens[..|lens| - 1], l);
      FirstSlotAppend(lens, l);
    }
  }

  lemma {:induction false} FirstSlotMonotone(lens: seq<nat>, l: nat, longer: nat)
    requires 0 < l < longer
    ensures FirstSlot(lens, l) + Count(lens, l) <= FirstSlot(lens, longer)
    decreases longer
  {
    if l + 1 < longer { FirstSlotMonotone(lens, l, longer - 1); }
  }

  lemma SlotOfCode(lens: seq<nat>, n: nat)
    requires n < |lens|
    ensures SlotOf(lens, n) == CodeOf(lens, n) - FirstCode(lens, lens[n]) + FirstSlot(lens, lens[n])
  {
  }

  lemma SlotBelowNext(lens: seq<nat>, n: nat)
    requires n < |lens| && lens[n] > 0
    ensures SlotOf(lens, n) < FirstSlot(lens, lens[n]) + Count(lens, lens[n]) <= |lens|
  {
    CountGrows(lens, n, |lens|, lens[n]);
    assert lens[..|lens|] == lens;
    FirstSlotBound(lens, lens[n] + 1);
  }

  /** Coded symbols have different slots. */
  lemma SlotsDiffer(lens: seq<nat>, n: nat, m: nat)
    requires m < n < |lens| && lens[n] > 0 && lens[m] > 0
    ensures SlotOf(lens, n) != SlotOf(lens, m)
  {
    SlotBelowNext(lens, n);
    SlotBelowNext(lens, m);
    if lens[m] == lens[n] { CountGrows(lens, m, n, lens[n]); }
    else if lens[m] < lens[n] { FirstSlotMonotone(lens, lens[m], lens[n]); }
    else { FirstSlotMonotone(lens, lens[n], lens[m]); }
  }

  // ---- finding a code by its length ----

  /** Comparing all 16 bits with a shifted end compares the first `l` bits with the end itself. */
  lemma BelowShiftedEnd(lens: seq<nat>, w: seq<bool>, l: nat)
    requires |w| == 16 && l <= 16
    ensures Shr(MsbVal(w), 16 - l) == MsbVal(w[..l])
    ensures MsbVal(w) < Shl(EndCode(lens, l), 16 - l) <==> MsbVal(w[..l]) < EndCode(lens, l)
  {
    MsbValPrefix(w, l);
    ShrBelow(MsbVal(w), EndCode(lens, l), 16 - l);
  }

  /** At the first length whose end is above the bits, they begin with the codeword in the slot
      that the decoder computes. */
  lemma SlowLookup(lens: seq<nat>, w: seq<bool>, l: nat) returns (n: nat)
    requires 0 < l <= |w|
    requires MsbVal(w[..l]) < EndCode(lens, l)
    requires MsbVal(w[..l - 1]) >= EndCode(lens, l - 1)
    ensures Matches(lens, w, n) && lens[n] == l
    ensures SlotOf(lens, n) == MsbVal(w[..l]) - FirstCode(lens, l) + FirstSlot(lens, l)
  {
    CodesCover(lens, w, l);
    n :| Matches(lens, w, n) && lens[n] <= l;
    if lens[n] < l { CodesCover(lens, w, l - 1); }
  }

  // ---- codes with few lengths ----

  lemma {:induction false} CountNone(lens: seq<nat>, l: nat)
    requires forall n :: 0 <= n < |lens| ==> lens[n] != l
    ensures Count(lens, l) == 0
  {
    if lens != [] { CountNone(lens[..|lens| - 1], l); }
  }

  lemma {:induction false} CountAll(lens: seq<nat>, l: nat)
    requires forall n :: 0 <= n < |lens| ==> lens[n] == l
    ensures Count(lens, l) == |lens|
  {
    if lens != [] { CountAll(lens[..|lens| - 1], l); }
  }

  /** Symbols without a code may come before the last one. */
  lemma {:induction false} CountSkips(lens: seq<nat>, n: nat, l: nat)
    requires n <= |lens| && forall m :: n <= m < |lens| ==> lens[m] != l
    ensures Count(lens, l) == Count(lens[..n], l)
    decreases |lens|
  {
    if n < |lens| {
      CountSkips(lens[..|lens| - 1], n, l);
      assert lens[..|lens| - 1][..n] == lens[..n];
    } else {
      assert lens[..n] == lens;
    }
  }

  lemma CountStep(lens: seq<nat>, n: nat, l: nat)
    requires n < |lens|
    ensures Count(lens[..n + 1], l) == Count(lens[..n], l) + if lens[n] == l then 1 else 0
  {
    assert lens[..n + 1][..n] == lens[..n];
  }

  ghost predicate NoneShorter(lens: seq<nat>, l: nat) {
    forall n :: 0 <= n < |lens| ==> lens[n] == 0 || lens[n] >= l
  }

  lemma {:induction false} NoShorterCodes(lens: seq<nat>, l: nat, k: nat)
    requires NoneShorter(lens, l) && k < l
    ensures EndCode(lens, k) == 0
  {
    if k > 0 {
      NoShorterCodes(lens, l, k - 1);
      CountNone(lens, k);
    }
  }

  /** All codes have length `l`. */
  ghost predicate Uniform(lens: seq<nat>, l: nat) {
    forall n :: 0 <= n < |lens| ==> lens[n] == 0 || lens[n] == l
  }

  lemma {:induction false} UniformEnd(lens: seq<nat>, l: nat, k: nat)
    requires Uniform(lens, l) && 0 < l <= k
    ensures EndCode(lens, k) == Shl(Count(lens, l), k - l)
  {
    if k == l { NoShorterCodes(lens, l, l - 1); } else {
      UniformEnd(lens, l, k - 1);
      CountNone(lens, k);
    }
  }

  lemma UniformKraft(lens: seq<nat>, l: nat)
    requires Uniform(lens, l) && 0 < l <= MAX_LENGTH && Count(lens, l) <= Pow2(l)
    ensures Kraft(lens)
  {
    hide Shl, EndCode, KraftSum, Count, Uniform;
    KraftSumIsEndCode(lens, MAX_LENGTH);
    UniformEnd(lens, l, MAX_LENGTH);
    ShlMonotone(Count(lens, l), Pow2(l), MAX_LENGTH - l);
    ShlAdd(1, l, MAX_LENGTH - l);
  }
}

/**
What the image data of a GIF file means: Appendix F of the GIF89a specification as functions of the
bytes. The data come in sub-blocks; their payload holds codes of growing width; the codes build a
dictionary of strings of colour indices.
 */
module LzwSpec {
  import opened Bits
  import opened LsbStream
  import opened Wrappers

  type Str = seq<Byte>

  /** The payload from position `p` on, with `len` bytes left in the current sub-block; an empty
      sub-block ends it. */
  function Rest(s: seq<Byte>, p: nat, len: nat): (r: seq<Byte>)
    decreases if p < |s| then |s| - p else 0, len
  {
    if len > 0 then [ByteAt(s, p)] + Rest(s, p + 1, len - 1)
    else if ByteAt(s, p) == 0 then []
    else Rest(s, p + 1, ByteAt(s, p))
  }

  /** Where the sub-blocks from `p` on end. */
  function AfterBlocks(s: seq<Byte>, p: nat): (q: nat)
    ensures q > p
    decreases if p < |s| then |s| - p else 0
  {
    if ByteAt(s, p) == 0 then p + 1 else AfterBlocks(s, p + 1 + ByteAt(s, p))
  }

  /** The code that empties the dictionary; the next one ends the data. */
  function Clear(cs: nat): nat {
    Pow2(cs)
  }

  /** The strings of the codes before any has been added; of the two special codes there are none. */
  function Roots(cs: nat): (d: seq<Str>)
    ensures |d| == Clear(cs) + 2
    ensures forall c :: 0 <= c < Clear(cs) ==> d[c] == [c % 256]
  {
    seq(Clear(cs), c requires 0 <= c < Clear(cs) => [(c % 256) as Byte]) + [[], []]
  }

  /** The decoder between two codes: the strings of all codes, that of the previous code if there was one
      since the dictionary was emptied, and the width of the next code. */
  datatype Lzw = Lzw(cleared: bool, dict: seq<Str>, prev: Option<Str>, width: nat)

  function Begin(cs: nat, cleared: bool): Lzw {
    Lzw(cleared, Roots(cs), None, cs + 1)
  }

  datatype Step = Next(st: Lzw, emitted: Str) | End | Illegal | TooMany

  /** The width of the next code when there are `n` codes: it grows with every full power of two, up to
      the size of the table in the standard; see `GrowsAtPower`. */
  function Wider(n: nat, width: nat): nat {
    if Low(n, width) == 0 && n < 4096 then width + 1 else width
  }

  /** One code. `limit` is the number of codes beyond which none are recorded. */
  function Decode(cs: nat, limit: nat, st: Lzw, code: nat): Step {
    if code == Clear(cs) then Next(Begin(cs, true), [])
    else if code == Clear(cs) + 1 then End
    else if !st.cleared then Illegal
    else if st.prev.None? then
      if code < |st.dict| then Next(st.(prev := Some(st.dict[code]), width := Wider(|st.dict|, st.width)),
                                    st.dict[code])
      else Illegal
    else if code < |st.dict| then Extend(limit, st, st.dict[code])
    else if code == |st.dict| then Extend(limit, st,
                                          st.prev.value + st.prev.value[..if st.prev.value == [] then 0 else 1])
    else Illegal
  }

  /** String `w` follows: the previous string with the first letter of `w` becomes the next code's. */
  function Extend(limit: nat, st: Lzw, w: Str): Step
    requires st.prev.Some?
  {
    if |st.dict| >= limit then TooMany
    else
      var dict := st.dict + [st.prev.value + w[..if w == [] then 0 else 1]];
      Next(st.(dict := dict, prev := Some(w), width := Wider(|dict|, st.width)), w)
  }

  datatype Outcome = Finished(indices: Str) | Broken | Overfull

  /** The codes from bit `pos` on; when there are not enough bits left for a code, the data end. */
  function Codes(cs: nat, limit: nat, data: seq<Byte>, pos: nat, st: Lzw, out: Str): Outcome
    decreases 8 * |data| - pos
  {
    if st.width == 0 || pos + st.width > 8 * |data| then Finished(out)
    else
      match Decode(cs, limit, st, Field(data, pos, st.width))
      case Next(st', emitted) => Codes(cs, limit, data, pos + st.width, st', out + emitted)
      case End => Finished(out)
      case Illegal => Broken
      case TooMany => Overfull
  }

  /** All the colour indices of an image whose minimum code size is at `p`. */
  function Indices(s: seq<Byte>, p: nat, limit: nat): Outcome {
    Codes(ByteAt(s, p), limit, Rest(s, p + 1, 0), 0, Begin(ByteAt(s, p), false), [])
  }

  // ---- what every dictionary keeps ----

  /** Every code but the special ones has a string, the roots their own, and every other string is a longer
      one of an earlier code by one letter. */
  ghost predicate Dictionary(cs: nat, dict: seq<Str>) {
    && |dict| >= Clear(cs) + 2
    && (forall c :: 0 <= c < Clear(cs) ==> dict[c] == [c % 256])
    && (forall c :: Clear(cs) + 2 <= c < |dict| ==> |dict[c]| > 1 && InDict(cs, dict, c, dict[c][..|dict[c]| - 1]))
  }

  /** Some code below `c` has string `w`. */
  ghost predicate InDict(cs: nat, dict: seq<Str>, c: nat, w: Str) {
    exists b: nat :: b < c && b < |dict| && b != Clear(cs) && b != Clear(cs) + 1 && dict[b] == w
  }

  ghost predicate Sane(cs: nat, st: Lzw) {
    && Dictionary(cs, st.dict)
    && (st.prev.Some? ==> st.prev.value != [] && InDict(cs, st.dict, |st.dict|, st.prev.value))
  }

  lemma BeginSane(cs: nat, cleared: bool)
    ensures Sane(cs, Begin(cs, cleared))
  {
  }

  lemma StringAt(cs: nat, dict: seq<Str>, c: nat)
    requires Dictionary(cs, dict) && c < |dict| && c != Clear(cs) && c != Clear(cs) + 1
    ensures dict[c] != []
  {
  }

  /** Every code keeps the dictionary in order, and emits a string that is not empty. */
  lemma DecodeSane(cs: nat, limit: nat, st: Lzw, code: nat)
    requires Sane(cs, st)
    ensures var r := Decode(cs, limit, st, code);
            r.Next? ==> Sane(cs, r.st) && (code != Clear(cs) ==> r.emitted != [] && r.st.prev == Some(r.emitted))
  {
    var r := Decode(cs, limit, st, code);
    if r.Next? {
      if code == Clear(cs) {
        BeginSane(cs, true);
      } else {
        if code < |st.dict| { StringAt(cs, st.dict, code); }
        if st.prev.None? {
          assert InDict(cs, st.dict, |st.dict|, st.dict[code]);
        } else {
          ExtendSane(cs, limit, st, r.emitted);
          if code < |st.dict| { assert r.st.dict[code] == r.emitted; } else {
            assert r.st.dict[|st.dict|] == r.emitted;
          }
          assert InDict(cs, r.st.dict, |r.st.dict|, r.emitted);
        }
      }
    }
  }

  lemma ExtendSane(cs: nat, limit: nat, st: Lzw, w: Str)
    requires Sane(cs, st) && st.prev.Some? && w != [] && Extend(limit, st, w).Next?
    ensures Dictionary(cs, Extend(limit, st, w).st.dict)
  {
    var p := st.prev.value;
    var dict := Extend(limit, st, w).st.dict;
    forall c | Clear(cs) + 2 <= c < |dict| ensures |dict[c]| > 1 && InDict(cs, dict, c, dict[c][..|dict[c]| - 1]) {
      if c < |st.dict| {
        var b: nat :| b < c && b < |st.dict| && b != Clear(cs) && b != Clear(cs) + 1
        && st.dict[b] == dict[c][..|dict[c]| - 1];
        assert dict[b] == st.dict[b];
      } else {
        assert dict[c] == p + w[..1] && dict[c][..|dict[c]| - 1] == p;
        var b: nat :| b < |st.dict| && b != Clear(cs) && b != Clear(cs) + 1 && st.dict[b] == p;
        assert dict[b] == st.dict[b];
      }
    }
  }

  /** In a dictionary every string ends with one letter after the string of an earlier code, so it begins
      with a root's letter. */
  lemma {:induction false} StartsWithRoot(cs: nat, dict: seq<Str>, c: nat)
    requires Dictionary(cs, dict) && c < |dict| && c != Clear(cs) && c != Clear(cs) + 1
    ensures dict[c] != [] && exists r: nat :: r < Clear(cs) && dict[c][0] == r % 256
    decreases c
  {
    if c >= Clear(cs) {
      var b: nat :| b < c && b < |dict| && b != Clear(cs) && b != Clear(cs) + 1 && dict[b] == dict[c][..|dict[c]| - 1];
      StartsWithRoot(cs, dict, b);
      assert dict[b][0] == dict[c][0];
    }
  }

  /** There are not more codes than the width has, until the table of the standard is full. */
  ghost predicate Fitting(n: nat, width: nat) {
    0 < n && (n < 4096 ==> n <= Pow2(width))
  }

  lemma {:induction false} LowOfPower(n: nat)
    ensures Low(Pow2(n), n) == 0
  {
    if n > 0 { LowOfPower(n - 1); }
  }

  /** So codes become wider exactly when all codes of the present width are taken. */
  lemma GrowsAtPower(n: nat, width: nat)
    requires Fitting(n, width)
    ensures Wider(n, width) == if n == Pow2(width) && n < 4096 then width + 1 else width
    ensures Wider(n, width) == width || n + 1 <= Pow2(Wider(n, width))
    ensures n < 4096 ==> n < Pow2(Wider(n, width))
  {
    LowOfPower(width);
    if n < Pow2(width) { LowBound(n, width); }
  }

  /** Fitting is kept, if the minimum code size is not 0, which the standard excludes. */
  lemma DecodeFitting(cs: nat, limit: nat, st: Lzw, code: nat)
    requires cs > 0 && Fitting(|st.dict|, st.width) && Decode(cs, limit, st, code).Next?
    requires st.prev.Some? ==> (|st.dict| < 4096 ==> |st.dict| < Pow2(st.width))
    ensures var r := Decode(cs, limit, st, code).st;
            Fitting(|r.dict|, r.width) && (r.prev.Some? ==> (|r.dict| < 4096 ==> |r.dict| < Pow2(r.width)))
  {
    hide Pow2;
    if code == Clear(cs) {
      BeginFitting(cs);
    } else {
      var n := if st.prev.None? then |st.dict| else |st.dict| + 1;
      GrowsAtPower(n, st.width);
    }
  }

  lemma BeginFitting(cs: nat)
    requires cs > 0
    ensures Fitting(|Begin(cs, true).dict|, cs + 1)
  {
    Pow2Monotone(1, cs);
  }

  // ---- the table of the standard ----

  /** As many codes as the widest ones can tell apart: 4096 in the standard, where they have 12 bits. The decoder also
      takes a minimum code size of 12, with which all codes have 13. */
  function Full(cs: nat): nat { if cs <= 11 then 4096 else 8192 }

  /** One code with a table of that many codes, which stays as it is once it is full. */
  function Standard(cs: nat, st: Lzw, code: nat): Step {
    if code == Clear(cs) then Next(Begin(cs, true), [])
    else if code == Clear(cs) + 1 then End
    else if !st.cleared then Illegal
    else if st.prev.None? then
      if code < |st.dict| then Next(st.(prev := Some(st.dict[code]), width := Wider(|st.dict|, st.width)),
                                    st.dict[code])
      else Illegal
    else
      var p := st.prev.value;
      if code > |st.dict| || (code == |st.dict| && code >= Full(cs)) then Illegal
      else
        var w := if code < |st.dict| then st.dict[code] else p + p[..if p == [] then 0 else 1];
        var dict := if |st.dict| < Full(cs) then st.dict + [p + w[..if w == [] then 0 else 1]] else st.dict;
        Next(st.(dict := dict, prev := Some(w), width := Wider(|dict|, st.width)), w)
  }

  function StandardCodes(cs: nat, data: seq<Byte>, pos: nat, st: Lzw, out: Str): Outcome
    decreases 8 * |data| - pos
  {
    if st.width == 0 || pos + st.width > 8 * |data| then Finished(out)
    else
      match Standard(cs, st, Field(data, pos, st.width))
      case Next(st', emitted) => StandardCodes(cs, data, pos + st.width, st', out + emitted)
      case End => Finished(out)
      case _ => Broken
  }

  function StandardIndices(s: seq<Byte>, p: nat): Outcome {
    StandardCodes(ByteAt(s, p), Rest(s, p + 1, 0), 0, Begin(ByteAt(s, p), false), [])
  }

  /** The same decoder with a table that gets full. */
  ghost predicate Capped(cs: nat, st: Lzw, std: Lzw) {
    && std.cleared == st.cleared && std.prev == st.prev && std.width == st.width <= (if cs <= 11 then 12 else 13)
    && st.dict != [] && std.dict == st.dict[..if |st.dict| < Full(cs) then |st.dict| else Full(cs)]
  }

  /** No code of the widest needs more than the table has. */
  lemma CodeBelowFull(cs: nat, st: Lzw, std: Lzw, code: nat)
    requires Capped(cs, st, std) && code < Pow2(st.width)
    ensures code < Full(cs)
  {
    Pow2Monotone(st.width, if cs <= 11 then 12 else 13);
    Twelve();
    Powers();
  }

  lemma BeginCapped(cs: nat, cleared: bool)
    requires cs <= 12
    ensures Capped(cs, Begin(cs, cleared), Begin(cs, cleared))
  {
    Pow2Monotone(cs, if cs <= 11 then 11 else 12);
    Twelve();
    assert Roots(cs)[..|Roots(cs)|] == Roots(cs);
  }

  /** Nothing more is recorded without a width that can tell it apart. */
  lemma WiderCapped(cs: nat, n: nat, width: nat)
    requires n > 0 && width <= (if cs <= 11 then 12 else 13)
    ensures Wider(n, width) <= (if cs <= 11 then 12 else 13)
    ensures n >= Full(cs) ==> Wider(n, width) == Wider(Full(cs), width)
  {
    hide Low, Pow2;
    Twelve();
    Powers();
    if n < 4096 && width == 12 { LowBound(n, 12); }
    if n < 4096 && width == 13 { LowBound(n, 13); }
  }

  /** A code stands for the same in both tables, and using it without recording anything keeps them alike. */
  lemma CappedCode(cs: nat, st: Lzw, std: Lzw, code: nat)
    requires Capped(cs, st, std) && code < Pow2(st.width)
    ensures std.cleared == st.cleared && std.prev == st.prev && std.width == st.width
    ensures code < |st.dict| <==> code < |std.dict|
    ensures code == |st.dict| <==> code == |std.dict| && code < Full(cs)
    ensures code < |st.dict| ==> std.dict[code] == st.dict[code]
                                 && var w := st.dict[code];
                                    Capped(cs, st.(prev := Some(w), width := Wider(|st.dict|, st.width)),
                                           std.(prev := Some(w), width := Wider(|std.dict|, st.width)))
  {
    hide Pow2, Wider;
    CodeBelowFull(cs, st, std, code);
    WiderCapped(cs, |st.dict|, st.width);
  }

  /** So does recording a string where there is room for it. */
  lemma CappedMore(cs: nat, st: Lzw, std: Lzw, more: Str, w: Str)
    requires Capped(cs, st, std)
    ensures var a, b := st.dict + [more], if |std.dict| < Full(cs) then std.dict + [more] else std.dict;
            Capped(cs, st.(dict := a, prev := Some(w), width := Wider(|a|, st.width)),
                   std.(dict := b, prev := Some(w), width := Wider(|b|, std.width)))
  {
    hide Pow2, Wider;
    WiderCapped(cs, |st.dict| + 1, st.width);
    var a, b := st.dict + [more], if |std.dict| < Full(cs) then std.dict + [more] else std.dict;
    assert b == a[..if |a| < Full(cs) then |a| else Full(cs)];
  }

  lemma CappedStep(cs: nat, limit: nat, st: Lzw, std: Lzw, code: nat)
    requires cs <= 12 && Capped(cs, st, std) && code < Pow2(st.width) && Decode(cs, limit, st, code) != TooMany
    ensures var a, b := Decode(cs, limit, st, code), Standard(cs, std, code);
            if a.Next? then b.Next? && b.emitted == a.emitted && Capped(cs, a.st, b.st) else a == b
  {
    hide Pow2, Wider, Roots, Full, Begin, Capped;
    if code == Clear(cs) {
      BeginCapped(cs, true);
    } else {
      CappedCode(cs, st, std, code);
      if st.prev.Some? {
        var p := st.prev.value;
        var w := if code < |st.dict| then st.dict[code] else p + p[..if p == [] then 0 else 1];
        CappedMore(cs, st, std, p + w[..if w == [] then 0 else 1], w);
      }
    }
  }

  lemma Twelve()
    ensures Pow2(11) == 2048 && Pow2(12) == 4096
  {
    Powers();
    ShlAdd(1, 8, 3);
    ShlAdd(1, 8, 4);
    assert Shl(256, 3) == 2 * Shl(256, 2) && Shl(256, 2) == 2 * Shl(256, 1) && Shl(256, 1) == 2 * Shl(256, 0);
    assert Shl(256, 4) == 2 * Shl(256, 3);
  }

  /** How many codes a table without an end would have after a code, if it had `n` before it: every string but the first
      since a clear code makes one. */
  function Recorded(cs: nat, std: Lzw, code: nat, n: nat): nat {
    if code == Clear(cs) then Clear(cs) + 2 else if std.prev.None? then n else n + 1
  }

  /** Between two clear codes there are more strings than `limit` codes allow for; the table without an end has `n`
      codes. */
  predicate Crowded(cs: nat, limit: nat, data: seq<Byte>, pos: nat, std: Lzw, n: nat)
    decreases 8 * |data| - pos
  {
    std.width > 0 && pos + std.width <= 8 * |data|
    && var code := Field(data, pos, std.width);
    var r := Standard(cs, std, code);
    r.Next? && ((code != Clear(cs) && std.prev.Some? && n >= limit)
                || Crowded(cs, limit, data, pos + std.width, r.st, Recorded(cs, std, code, n)))
  }

  predicate CrowdedImage(s: seq<Byte>, p: nat, limit: nat) {
    var cs := ByteAt(s, p);
    Crowded(cs, limit, Rest(s, p + 1, 0), 0, Begin(cs, false), Clear(cs) + 2)
  }

  /** The decoder gives up exactly if there are too many strings between two clear codes; otherwise recording more than
      4096 codes makes no difference. */
  lemma {:induction false} MoreCodesThanStandard(cs: nat, limit: nat, data: seq<Byte>, pos: nat, st: Lzw, std: Lzw,
      out: Str)
    requires cs <= 12 && Capped(cs, st, std)
    ensures Codes(cs, limit, data, pos, st, out)
            == if Crowded(cs, limit, data, pos, std, |st.dict|) then Overfull
            else StandardCodes(cs, data, pos, std, out)
    decreases 8 * |data| - pos
  {
    hide Field, Decode, Standard, Capped;
    CappedWidth(cs, st, std);
    if st.width > 0 && pos + st.width <= 8 * |data| {
      var code := Field(data, pos, st.width);
      FieldBound(data, pos, st.width);
      var a := Decode(cs, limit, st, code);
      TooManyStrings(cs, limit, st, std, code);
      if a != TooMany {
        CappedStep(cs, limit, st, std, code);
        if a.Next? {
          MoreCodesThanStandard(cs, limit, data, pos + st.width, a.st, Standard(cs, std, code).st, out + a.emitted);
        }
      }
    }
  }

  lemma TooManyStrings(cs: nat, limit: nat, st: Lzw, std: Lzw, code: nat)
    requires Capped(cs, st, std) && code < Pow2(st.width)
    ensures var a, b := Decode(cs, limit, st, code), Standard(cs, std, code);
            && (a == TooMany <==> b.Next? && code != Clear(cs) && std.prev.Some? && |st.dict| >= limit)
            && (a.Next? ==> |a.st.dict| == Recorded(cs, std, code, |st.dict|))
  {
    hide Pow2;
    CodeBelowFull(cs, st, std, code);
  }

  /** The whole data of an image are drawn as the standard decodes them, or not at all if they are crowded. */
  lemma IndicesAreStandard(s: seq<Byte>, p: nat, limit: nat)
    requires ByteAt(s, p) <= 12
    ensures Indices(s, p, limit) == if CrowdedImage(s, p, limit) then Overfull else StandardIndices(s, p)
  {
    var cs := ByteAt(s, p);
    BeginCapped(cs, false);
    MoreCodesThanStandard(cs, limit, Rest(s, p + 1, 0), 0, Begin(cs, false), Begin(cs, false), []);
  }

  lemma CappedWidth(cs: nat, st: Lzw, std: Lzw)
    requires Capped(cs, st, std)
    ensures std.width == st.width
  {
  }

  lemma FieldBound(data: seq<Byte>, pos: nat, n: nat)
    ensures Field(data, pos, n) < Pow2(n)
  {
    LsbValBound(Window(data, pos, n));
  }
}

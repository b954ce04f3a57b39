/**
Raster data of a GIF image, bit by bit: a code that is used as soon as it is made, codes that get wider, and an end.
 */
module KnownRaster {
  import opened Bits
  import opened LsbStream
  import opened LzwSpec
  import opened Wrappers

  /** A minimum code size of 2, and one sub-block with the codes 4 (which empties the table), 1, 6 and 2 of three bits
      and 7, 8, 9 and 5 (which ends the data) of four. */
  const RASTER: seq<Byte> := [2, 4, 0x8C, 0x75, 0x98, 0x05, 0]

  const CODES: seq<Byte> := [0x8C, 0x75, 0x98, 0x05]

  lemma DataIs(s: seq<Byte>)
    requires RASTER <= s
    ensures ByteAt(s, 0) == 2 && Rest(s, 1, 0) == CODES
  {
    assert forall i :: 0 <= i < 7 ==> s[i] == RASTER[i];
    assert Rest(s, 6, 0) == [];
    assert Rest(s, 5, 1) == [0x05] + Rest(s, 6, 0);
    assert Rest(s, 4, 2) == [0x98] + Rest(s, 5, 1);
    assert Rest(s, 3, 3) == [0x75] + Rest(s, 4, 2);
    assert Rest(s, 2, 4) == [0x8C] + Rest(s, 3, 3);
    assert Rest(s, 1, 0) == Rest(s, 2, 4);
  }

  lemma CodeFields()
    ensures Field(CODES, 0, 3) == 4 && Field(CODES, 3, 3) == 1 && Field(CODES, 6, 3) == 6 && Field(CODES, 9, 3) == 2
    ensures Field(CODES, 12, 4) == 7 && Field(CODES, 16, 4) == 8 && Field(CODES, 20, 4) == 9 && Field(CODES, 24, 4) == 5
  {
    hide Field;
    FieldAt(CODES, 0, 0, 3);
    FieldAt(CODES, 0, 3, 3);
    FieldAt(CODES, 0, 6, 3);
    FieldAt(CODES, 1, 1, 3);
    FieldAt(CODES, 1, 4, 4);
    FieldAt(CODES, 2, 0, 4);
    FieldAt(CODES, 2, 4, 4);
    FieldAt(CODES, 3, 0, 4);
  }

  lemma Step(pos: nat, st: Lzw, out: Str, code: nat)
    requires st.width > 0 && pos + st.width <= 32 && Field(CODES, pos, st.width) == code
    ensures StandardCodes(2, CODES, pos, st, out)
            == match Standard(2, st, code)
               case Next(st', emitted) => StandardCodes(2, CODES, pos + st.width, st', out + emitted)
               case End => Finished(out)
               case _ => Broken
  {
    hide Field, Standard;
  }

  /** A code that the table has, or the next one. */
  lemma StringStep(dict: seq<Str>, prev: Str, width: nat, code: nat, w: Str)
    requires 6 <= |dict| < 4096 && prev != [] && w != [] && code != 4 && code != 5
    requires if code < |dict| then w == dict[code] else code == |dict| && w == prev + prev[..1]
    ensures Standard(2, Lzw(true, dict, Some(prev), width), code)
            == Next(Lzw(true, dict + [prev + w[..1]], Some(w), Wider(|dict| + 1, width)), w)
  {
    assert Pow2(2) == 4;
  }

  lemma Widths()
    ensures Wider(6, 3) == 3 && Wider(7, 3) == 3 && Wider(8, 3) == 4
    ensures Wider(9, 4) == 4 && Wider(10, 4) == 4 && Wider(11, 4) == 4
  {
  }

  /** A string is put out and one is recorded. */
  lemma Emits(pos: nat, dict: seq<Str>, prev: Str, width: nat, next: nat, code: nat, w: Str, first: Byte, out: Str)
    requires 0 < width && pos + width <= 32 && Field(CODES, pos, width) == code && next == Wider(|dict| + 1, width)
    requires 6 <= |dict| < 4096 && prev != [] && w != [] && w[0] == first && code != 4 && code != 5
    requires if code < |dict| then w == dict[code] else code == |dict| && w == prev + prev[..1]
    ensures StandardCodes(2, CODES, pos, Lzw(true, dict, Some(prev), width), out)
            == StandardCodes(2, CODES, pos + width, Lzw(true, dict + [prev + [first]], Some(w), next), out + w)
  {
    hide Field, Wider, StandardCodes, Standard;
    assert w[..1] == [first];
    Step(pos, Lzw(true, dict, Some(prev), width), out, code);
    StringStep(dict, prev, width, code, w);
  }

  function Roots2(): seq<Str> { [[0], [1], [2], [3], [], []] }

  /** The first codes: nothing but the roots is known. */
  lemma Starts()
    ensures StandardCodes(2, CODES, 0, Begin(2, false), [])
            == StandardCodes(2, CODES, 6, Lzw(true, Roots2(), Some([1]), 3), [1])
  {
    hide Field, Wider, StandardCodes;
    CodeFields();
    Widths();
    assert Pow2(2) == 4;
    assert Roots(2) == Roots2();
    Step(0, Begin(2, false), [], 4);
    Step(3, Begin(2, true), [], 1);
    var none: Str, one: Str := [], [1];
    assert none + none == none && none + one == one;
  }

  lemma Ends(dict: seq<Str>, prev: Str, out: Str)
    ensures StandardCodes(2, CODES, 24, Lzw(true, dict, Some(prev), 4), out) == Finished(out)
  {
    hide Field, StandardCodes;
    CodeFields();
    assert Pow2(2) == 4;
    Step(24, Lzw(true, dict, Some(prev), 4), out, 5);
  }

  lemma KnownIndices(s: seq<Byte>)
    requires RASTER <= s
    ensures StandardIndices(s, 0) == Finished([1, 1, 1, 2, 1, 1, 2, 2, 1, 1, 1, 2, 2])
  {
    hide Field, Wider, StandardCodes, CODES, Begin;
    DataIs(s);
    CodeFields();
    Widths();
    Starts();
    Emits(6, Roots2(), [1], 3, 3, 6, [1, 1], 1, [1]);
    var a := Roots2() + [[1] + [1]];
    Emits(9, a, [1, 1], 3, 4, 2, [2], 2, [1] + [1, 1]);
    var b := a + [[1, 1] + [2]];
    Emits(12, b, [2], 4, 4, 7, [1, 1, 2], 1, [1] + [1, 1] + [2]);
    var c := b + [[2] + [1]];
    Emits(16, c, [1, 1, 2], 4, 4, 8, [2, 1], 2, [1] + [1, 1] + [2] + [1, 1, 2]);
    var d := c + [[1, 1, 2] + [2]];
    Emits(20, d, [2, 1], 4, 4, 9, [1, 1, 2, 2], 1, [1] + [1, 1] + [2] + [1, 1, 2] + [2, 1]);
    Ends(d + [[2, 1] + [1]], [1, 1, 2, 2], [1] + [1, 1] + [2] + [1, 1, 2] + [2, 1] + [1, 1, 2, 2]);
  }

  // ---- what is refused ----

  /** The first code must empty the table, or end the data. */
  lemma ClearFirst(cs: nat, data: seq<Byte>)
    requires cs + 1 <= 8 * |data|
    ensures var code := Field(data, 0, cs + 1);
            StandardCodes(cs, data, 0, Begin(cs, false), [])
            == if code == Pow2(cs) then StandardCodes(cs, data, cs + 1, Begin(cs, true), [])
               else if code == Pow2(cs) + 1 then Finished([]) else Broken
  {
    hide Field, Pow2;
    var none: Str := [];
    assert none + [] == none;
  }

  /** No code may come before its string is known: the next one can be used at once, but not as the first after the
      table has been emptied. */
  lemma UnknownCode(cs: nat, data: seq<Byte>, pos: nat, st: Lzw, out: Str)
    requires st.width > 0 && pos + st.width <= 8 * |data|
    requires Field(data, pos, st.width) != Pow2(cs) && Field(data, pos, st.width) != Pow2(cs) + 1
    requires Field(data, pos, st.width) > |st.dict| || (st.prev.None? && Field(data, pos, st.width) == |st.dict|)
    ensures StandardCodes(cs, data, pos, st, out) == Broken
  {
    hide Field, Pow2;
  }

  /** Data may end without saying so; bits that are too few for a code are left. */
  lemma DataEnd(cs: nat, data: seq<Byte>, pos: nat, st: Lzw, out: Str)
    requires pos + st.width > 8 * |data|
    ensures StandardCodes(cs, data, pos, st, out) == Finished(out)
  {
  }
}

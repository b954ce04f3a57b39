/**
One dynamic block, bit by bit: its bytes and what every decoder makes of them. It sends code lengths in all ways, among
them one in the sixteenth place of their order, and has literals, a length and a distance with extra bits.
 */
module KnownStream {
  import opened Bits
  import opened CanonicalCode
  import opened DeflateTables
  import opened InflateSpec
  import opened InflateStandard
  import opened LsbStream
  import opened WiderInputs
  import opened Wrappers

  // ---- codes of two bits ----

  lemma Pair(s: seq<Byte>, pos: nat)
    ensures MsbVal(Window(s, pos, 2)) == (match Field(s, pos, 2) case 0 => 0 case 1 => 2 case 2 => 1 case _ => 3)
    ensures Field(s, pos, 2) <= 3
  {
    var w := Window(s, pos, 2);
    assert LsbVal(w) == Bit(w[0]) + 2 * (Bit(w[1]) + 2 * LsbVal(w[1..][1..])) && w[1..][1..] == [];
    assert MsbVal(w) == 2 * MsbVal(w[..1]) + Bit(w[1]);
    assert MsbVal(w[..1]) == 2 * MsbVal(w[..1][..0]) + Bit(w[0]) && w[..1][..0] == [];
  }

  /** Of the symbols with a code of two bits, the one with that many before it. */
  lemma PairSymbol(lens: seq<nat>, s: seq<Byte>, pos: nat, n: nat)
    requires Uniform(lens, 2) && n < |lens| && lens[n] == 2
    requires Count(lens[..n], 2) == (match Field(s, pos, 2) case 0 => 0 case 1 => 2 case 2 => 1 case _ => 3)
    ensures Symbol(lens, s, pos) == Parsed(n, pos + 2)
  {
    Pair(s, pos);
    FirstCodes(lens, s, pos, n);
  }

  // ---- the bytes ----

  const BYTES: seq<Byte> :=
    [0x6D, 0x86, 0x25, 0x01, 0, 0, 0, 0x80, 0xB6, 0xC2, 0xFF, 0x11, 0x1C, 0x20, 0x20, 0xA8, 0x08, 0xA2, 0xB7, 0x01]

  lemma BytesAre(s: seq<Byte>)
    requires BYTES <= s
    ensures forall i :: 0 <= i < 20 ==> ByteAt(s, i) == BYTES[i]
  {
  }

  lemma HeaderFields(s: seq<Byte>)
    requires BYTES <= s
    ensures Field(s, 0, 1) == 1 && Field(s, 1, 2) == 2
    ensures Hlit(s, 3) == 270 && Hdist(s, 3) == 7 && Hclen(s, 3) == 16
  {
    hide Field;
    BytesAre(s);
    FieldAt(s, 0, 0, 1);
    FieldAt(s, 0, 1, 2);
    FieldAt(s, 0, 3, 5);
    FieldAt(s, 1, 0, 5);
    FieldAt(s, 1, 5, 4);
  }

  /** The places of the code length codes that have a length. */
  lemma PlaceField(s: seq<Byte>, place: nat)
    requires BYTES <= s && place < 16
    ensures Field(s, 17 + 3 * place, 3) == if place < 3 || place == 15 then 2 else 0
  {
    hide Field;
    BytesAre(s);
    var p := 17 + 3 * place;
    FieldAt(s, p / 8, p % 8, 3);
  }

  /** Runs and lengths of 2 are told apart by two bits. */
  function KnownLengths(): (cl: seq<nat>)
    ensures |cl| == 19
  {
    seq(19, l => if l == 2 || l >= 16 then 2 else 0)
  }

  lemma LengthsRead(s: seq<Byte>)
    requires BYTES <= s
    ensures CodeLengthLengths(s, 17, 16) == KnownLengths()
  {
    hide Field, CodeLengthLengths;
    var cl := CodeLengthLengths(s, 17, 16);
    forall l | 0 <= l < 19 ensures cl[l] == KnownLengths()[l] {
      CodeLengthAt(s, 17, 16, l);
      if PlaceOf(l) < 16 { PlaceField(s, PlaceOf(l)); }
    }
  }

  lemma KnownCounts()
    ensures var cl := KnownLengths();
            && Count(cl[..2], 2) == 0 && Count(cl[..16], 2) == 1 && Count(cl[..17], 2) == 2 && Count(cl[..18], 2) == 3
            && Uniform(cl, 2) && Kraft(cl)
  {
    var cl := KnownLengths();
    CountNone(cl[..2], 2);
    CountStep(cl, 2, 2);
    CountSkips(cl[..16], 3, 2);
    assert cl[..16][..3] == cl[..3];
    CountStep(cl, 16, 2);
    CountStep(cl, 17, 2);
    CountStep(cl, 18, 2);
    assert cl[..19] == cl;
    Powers();
    UniformKraft(cl, 2);
  }

  // ---- the code lengths ----

  /** A run of zeros sent with code 18, or with 17, or a length of 2. */
  lemma LongRun(s: seq<Byte>, pos: nat, acc: seq<nat>, n: nat)
    requires |acc| + n <= 277 && n >= 11 && Field(s, pos, 2) == 3 && Field(s, pos + 2, 7) == n - 11
    ensures ReadLengths(KnownLengths(), s, pos, 277, acc)
            == ReadLengths(KnownLengths(), s, pos + 9, 277, acc + Repeat(0, n))
  {
    hide ReadLengths, Symbol, Field;
    KnownCounts();
    PairSymbol(KnownLengths(), s, pos, 18);
    RunStep(KnownLengths(), s, pos, 277, acc, 18, pos + 2);
  }

  lemma ShortRun(s: seq<Byte>, pos: nat, acc: seq<nat>, n: nat)
    requires |acc| + n <= 277 && n >= 3 && Field(s, pos, 2) == 1 && Field(s, pos + 2, 3) == n - 3
    ensures ReadLengths(KnownLengths(), s, pos, 277, acc)
            == ReadLengths(KnownLengths(), s, pos + 5, 277, acc + Repeat(0, n))
  {
    hide ReadLengths, Symbol, Field;
    KnownCounts();
    PairSymbol(KnownLengths(), s, pos, 17);
    RunStep(KnownLengths(), s, pos, 277, acc, 17, pos + 2);
  }

  /** The last length again. */
  lemma Again(s: seq<Byte>, pos: nat, acc: seq<nat>, n: nat)
    requires acc != [] && |acc| + n <= 277 && n >= 3 && Field(s, pos, 2) == 2 && Field(s, pos + 2, 2) == n - 3
    ensures ReadLengths(KnownLengths(), s, pos, 277, acc)
            == ReadLengths(KnownLengths(), s, pos + 4, 277, acc + Repeat(acc[|acc| - 1], n))
  {
    hide ReadLengths, Symbol, Field;
    KnownCounts();
    PairSymbol(KnownLengths(), s, pos, 16);
    RunStep(KnownLengths(), s, pos, 277, acc, 16, pos + 2);
  }

  lemma Two(s: seq<Byte>, pos: nat, acc: seq<nat>)
    requires |acc| < 277 && Field(s, pos, 2) == 0
    ensures ReadLengths(KnownLengths(), s, pos, 277, acc) == ReadLengths(KnownLengths(), s, pos + 2, 277, acc + [2])
  {
    hide ReadLengths, Symbol, Field;
    KnownCounts();
    PairSymbol(KnownLengths(), s, pos, 2);
    LengthStep(KnownLengths(), s, pos, 277, acc, 2, pos + 2);
  }

  lemma RunFields(s: seq<Byte>)
    requires BYTES <= s
    ensures Field(s, 65, 2) == 3 && Field(s, 67, 7) == 86 && Field(s, 74, 2) == 0 && Field(s, 76, 2) == 0
    ensures Field(s, 78, 2) == 3 && Field(s, 80, 7) == 127 && Field(s, 87, 2) == 3 && Field(s, 89, 7) == 8
    ensures Field(s, 96, 2) == 0 && Field(s, 98, 2) == 3 && Field(s, 100, 7) == 1 && Field(s, 107, 2) == 0
    ensures Field(s, 109, 2) == 1 && Field(s, 111, 3) == 0 && Field(s, 114, 2) == 0
    ensures Field(s, 116, 2) == 2 && Field(s, 118, 2) == 0
  {
    hide Field;
    BytesAre(s);
    FieldAt(s, 8, 1, 2);
    FieldAt(s, 8, 3, 7);
    FieldAt(s, 9, 2, 2);
    FieldAt(s, 9, 4, 2);
    FieldAt(s, 9, 6, 2);
    FieldAt(s, 10, 0, 7);
    FieldAt(s, 10, 7, 2);
    FieldAt(s, 11, 1, 7);
    FieldAt(s, 12, 0, 2);
    FieldAt(s, 12, 2, 2);
    FieldAt(s, 12, 4, 7);
    FieldAt(s, 13, 3, 2);
    FieldAt(s, 13, 5, 2);
    FieldAt(s, 13, 7, 3);
    FieldAt(s, 14, 2, 2);
    FieldAt(s, 14, 4, 2);
    FieldAt(s, 14, 6, 2);
  }

  /** Codes of two bits for 97, 98, the end of the block and lengths from 19 to 22. */
  function Literals(): seq<nat> { Repeat(0, 97) + [2, 2] + Repeat(0, 157) + [2] + Repeat(0, 12) + [2] }

  /** And for distances from 4 to 12. */
  function Distances(): seq<nat> { [0, 0, 0, 2, 2, 2, 2] }

  lemma CodesRead(s: seq<Byte>)
    requires BYTES <= s
    ensures ReadLengths(KnownLengths(), s, 65, 277, []) == Parsed(Literals() + Distances(), 120)
  {
    hide ReadLengths, KnownLengths, Field;
    RunFields(s);
    LongRun(s, 65, [], 97);
    var a := [] + Repeat(0, 97);
    Two(s, 74, a);
    Two(s, 76, a + [2]);
    var b := a + [2] + [2];
    LongRun(s, 78, b, 138);
    LongRun(s, 87, b + Repeat(0, 138), 19);
    var c := b + Repeat(0, 138) + Repeat(0, 19);
    Two(s, 96, c);
    LongRun(s, 98, c + [2], 12);
    var d := c + [2] + Repeat(0, 12);
    Two(s, 107, d);
    ShortRun(s, 109, d + [2], 3);
    var e := d + [2] + Repeat(0, 3);
    Two(s, 114, e);
    Again(s, 116, e + [2], 3);
    var all := e + [2] + Repeat(2, 3);
    assert all == Literals() + Distances();
    LengthsEnd(KnownLengths(), s, 120, 277, all);
  }

  lemma LiteralCounts()
    ensures var lit := Literals();
            && |lit| == 270 && Uniform(lit, 2) && Kraft(lit)
            && Count(lit[..97], 2) == 0 && Count(lit[..98], 2) == 1 && Count(lit[..256], 2) == 2
            && Count(lit[..269], 2) == 3
  {
    var lit := Literals();
    CountNone(lit[..97], 2);
    CountStep(lit, 97, 2);
    CountStep(lit, 98, 2);
    CountSkips(lit[..256], 99, 2);
    assert lit[..256][..99] == lit[..99];
    CountStep(lit, 256, 2);
    CountSkips(lit[..269], 257, 2);
    assert lit[..269][..257] == lit[..257];
    CountStep(lit, 269, 2);
    assert lit[..270] == lit;
    Powers();
    UniformKraft(lit, 2);
  }

  lemma DistanceCounts()
    ensures var dist := Distances(); Uniform(dist, 2) && Kraft(dist) && Count(dist[..6], 2) == 3
  {
    var dist := Distances();
    CountNone(dist[..3], 2);
    CountStep(dist, 3, 2);
    CountStep(dist, 4, 2);
    CountStep(dist, 5, 2);
    CountStep(dist, 6, 2);
    assert dist[..7] == dist;
    Powers();
    UniformKraft(dist, 2);
  }

  // ---- the data ----

  lemma Letter(s: seq<Byte>, pos: nat, out: seq<Byte>, room: nat)
    requires |out| < room && (Field(s, pos, 2) == 0 || Field(s, pos, 2) == 2)
    ensures Items(Literals(), Distances(), s, pos, out, room)
            == Items(Literals(), Distances(), s, pos + 2, out + [if Field(s, pos, 2) == 0 then 97 else 98], room)
  {
    hide Symbol, Field, Items, Literals;
    LiteralCounts();
    var n := if Field(s, pos, 2) == 0 then 97 else 98;
    LiteralAt(n);
    PairSymbol(Literals(), s, pos, n);
    LiteralStep(Literals(), Distances(), s, pos, out, room, n, pos + 2);
  }

  lemma LiteralAt(n: nat)
    requires n in {97, 98, 256, 269}
    ensures |Literals()| == 270 && Literals()[n] == 2
  {
  }

  /** "abbbabaababb". */
  function Text(): seq<Byte> { [97, 98, 98, 98, 97, 98, 97, 97, 98, 97, 98, 98] }

  lemma LetterField(s: seq<Byte>, k: nat)
    requires BYTES <= s && k < 12
    ensures Field(s, 120 + 2 * k, 2) == if Text()[k] == 97 then 0 else 2
  {
    hide Field;
    BytesAre(s);
    var i, b := 15 + k / 4, 2 * (k % 4);
    assert 8 * i + b == 120 + 2 * k;
    FieldAt(s, i, b, 2);
    LetterBits(k);
  }

  lemma LetterBits(k: nat)
    requires k < 12
    ensures (BYTES[15 + k / 4] as nat + 256 * (BYTES[16 + k / 4] as nat)) / Weight(2 * (k % 4)) % 4
            == if Text()[k] == 97 then 0 else 2
  {
    if k < 4 { } else if k < 8 { } else { }
  }

  lemma DataFields(s: seq<Byte>)
    requires BYTES <= s
    ensures Field(s, 144, 2) == 3 && Field(s, 146, 2) == 1 && Field(s, 148, 2) == 3 && Field(s, 150, 2) == 2
    ensures Field(s, 152, 2) == 1
  {
    hide Field;
    BytesAre(s);
    FieldAt(s, 18, 0, 2);
    FieldAt(s, 18, 2, 2);
    FieldAt(s, 18, 4, 2);
    FieldAt(s, 18, 6, 2);
    FieldAt(s, 19, 0, 2);
  }

  lemma {:induction false} TextRead(s: seq<Byte>, k: nat, room: nat)
    requires BYTES <= s && k <= 12 <= room
    ensures Items(Literals(), Distances(), s, 120, [], room)
            == Items(Literals(), Distances(), s, 120 + 2 * k, Text()[..k], room)
  {
    hide Field, Items, Literals, Distances;
    if k > 0 {
      TextRead(s, k - 1, room);
      LetterField(s, k - 1);
      TextLetters(k - 1);
      Letter(s, 120 + 2 * (k - 1), Text()[..k - 1], room);
      assert Text()[..k] == Text()[..k - 1] + [Text()[k - 1]];
    }
  }

  lemma TextLetters(k: nat)
    requires k < 12
    ensures |Text()| == 12 && Text()[k] in {97, 98}
  {
  }

  /** Twenty bytes from eleven back. */
  lemma MatchRead(s: seq<Byte>)
    requires BYTES <= s
    ensures ReadItem(Literals(), Distances(), s, 144) == Parsed(Match(20, 11), 152)
    ensures ReadItem(Literals(), Distances(), s, 152) == Parsed(EndOfBlock, 154)
  {
    hide Symbol, Field, Literals, DistanceBase, LengthBase, DistanceExtra, LengthExtra;
    DataFields(s);
    LiteralCounts();
    LiteralAt(269);
    LiteralAt(256);
    DistanceCounts();
    PairSymbol(Literals(), s, 144, 269);
    PairSymbol(Distances(), s, 148, 6);
    PairSymbol(Literals(), s, 152, 256);
    LengthRanges(12);
    DistanceRanges(6);
    Powers();
    MatchStep(12, Distances(), s, 146, 148, 6, 150);
  }

  /** "abbbabaababb" and after it eleven bytes and nine of them again. */
  function Output(): seq<Byte> {
    Text() + [98, 98, 98, 97, 98, 97, 97, 98, 97, 98, 98] + [98, 98, 98, 97, 98, 97, 97, 98, 97]
  }

  lemma OutputCopied()
    ensures Copied(Text(), 20, 11) == Output()
  {
    CopiedTo(0);
    assert Output()[..12] == Text();
  }

  lemma {:induction false} CopiedTo(k: nat)
    requires k <= 20
    ensures Copied(Output()[..12 + k], 20 - k, 11) == Output()
    decreases 20 - k
  {
    if k < 20 {
      CopiedTo(k + 1);
      assert Output()[..12 + k + 1] == Output()[..12 + k] + [Output()[12 + k]];
      assert Output()[12 + k] == Output()[..12 + k][12 + k - 11];
    } else {
      assert Output()[..32] == Output();
    }
  }

  /** What the whole stream decodes to. */
  lemma KnownOutput(s: seq<Byte>, room: nat)
    requires BYTES <= s && room >= 32
    ensures Inflated(s, false, room) == Done(154, Output())
  {
    hide ReadLengths, Symbol, ReadItem, Field, Hlit, Hdist, Hclen, CodeLengthLengths, Kraft, Literals, Distances, Items,
      Text, Output, Copied;
    HeaderFields(s);
    LengthsRead(s);
    KnownCounts();
    DynamicStep(s, 3);
    CodesRead(s);
    LiteralCounts();
    DistanceCounts();
    var all := Literals() + Distances();
    assert all[..270] == Literals() && all[270..] == Distances();
    TextRead(s, 12, room);
    TextIs();
    MatchRead(s);
    CopyStep(Literals(), Distances(), s, 144, Text(), room, 20, 11, 152);
    OutputCopied();
    EndStep(Literals(), Distances(), s, 152, Output(), room, 154);
  }

  lemma TextIs()
    ensures |Text()| == 12 && Text()[..12] == Text() && |Output()| == 32
  {
  }

  // ---- a checksum ----

  const WIKIPEDIA: seq<Byte> := [0x57, 0x69, 0x6B, 0x69, 0x70, 0x65, 0x64, 0x69, 0x61]

  const SUMS: seq<(nat, nat)> :=
    [(1, 0), (88, 88), (193, 281), (300, 581), (405, 986), (517, 1503), (618, 2121), (718, 2839), (823, 3662),
     (920, 4582)]

  lemma {:induction false} ChecksumAt(k: nat)
    requires k <= 9
    ensures Adler(WIKIPEDIA[..k]) == SUMS[k]
  {
    if k > 0 {
      ChecksumAt(k - 1);
      assert WIKIPEDIA[..k][..k - 1] == WIKIPEDIA[..k - 1];
    }
  }

  /** The checksum of "Wikipedia" is 0x11E60398. */
  lemma KnownChecksum()
    ensures Adler(WIKIPEDIA) == (0x0398, 0x11E6)
  {
    ChecksumAt(9);
    assert WIKIPEDIA[..9] == WIKIPEDIA;
  }
}

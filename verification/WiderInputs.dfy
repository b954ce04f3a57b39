/**
Streams that the decoder takes and the standards do not, one for each way in which `InflateStandard.Wider` lets them
differ. Each is followed by any bytes, so that neither the end of the input nor the checksum is the reason, except where
it is meant to be.
 */
module WiderInputs {
  import opened Bits
  import opened CanonicalCode
  import opened InflateSpec
  import opened InflateStandard
  import opened LsbStream
  import opened Wrappers

  // ---- fields at known places ----

  lemma BitOfField(s: seq<Byte>, pos: nat)
    ensures StreamBit(s, pos) == (Field(s, pos, 1) == 1)
  {
    var w := Window(s, pos, 1);
    assert w[0] == StreamBit(s, pos) && w[1..] == [];
    assert LsbVal(w) == Bit(w[0]) + 2 * LsbVal(w[1..]);
  }

  // ---- an empty stored block ----

  /** A final block of length 0 after the two bytes of a header. */
  lemma EmptyBlock(s: seq<Byte>, room: nat)
    requires |s| >= 7 && s[2..7] == [1, 0, 0, 0xFF, 0xFF]
    ensures Field(s, 16, 1) == 1 && Field(s, 17, 2) == 0 && Blocks(s, 16, [], room) == Done(56, [])
    ensures !BlocksWider(s, 16, [], room, WindowSize(s, true))
  {
    assert s[2] == 1 && s[3] == 0 && s[4] == 0 && s[5] == 0xFF && s[6] == 0xFF;
    FieldInWord(s, 2, 0, 1);
    FieldInWord(s, 2, 1, 2);
    FieldOfWord(s, 3);
    FieldOfWord(s, 5);
    assert s[7..7] == [];
  }

  /** A header with a window of 65536 bytes. */
  lemma LargeWindowTaken(s: seq<Byte>, room: nat)
    requires |s| >= 7 && s[..7] == [0x88, 0x1C, 1, 0, 0, 0xFF, 0xFF]
    ensures Inflated(s, true, room) == Done(56, []) && StandardInflated(s, true, room) == Wrong
  {
    assert s[2..7] == s[..7][2..];
    EmptyBlock(s, room);
  }

  /** The same block after a header that is right: what the standard makes of it is up to the checksum. */
  lemma ChecksumIgnored(s: seq<Byte>, room: nat)
    requires |s| >= 7 && s[..7] == [0x78, 0x9C, 1, 0, 0, 0xFF, 0xFF]
    ensures Inflated(s, true, room) == Done(56, [])
    ensures StandardInflated(s, true, room)
            == if |s| >= 11 && s[7..11] == [0, 0, 0, 1] then Done(56, []) else Wrong
  {
    hide Blocks, BlocksWider, StandardInflated, WindowSize, Checked;
    assert s[2..7] == s[..7][2..];
    EmptyBlock(s, room);
    EmptyChecked(s);
    assert s[0] == 0x78 && s[1] == 0x9C;
    InflatedIsStandard(s, true, room);
  }

  lemma EmptyChecked(s: seq<Byte>)
    ensures Checked(s, 56, []) <==> |s| >= 11 && s[7..11] == [0, 0, 0, 1]
  {
    if |s| >= 11 {
      assert s[7..11] == [s[7], s[8], s[9], s[10]];
    }
  }

  /** The codes of the least length are numbered from 0. */
  lemma FirstCodes(lens: seq<nat>, s: seq<Byte>, pos: nat, n: nat)
    requires n < |lens| && 0 < lens[n] <= 16 && NoneShorter(lens, lens[n])
    requires MsbVal(Window(s, pos, lens[n])) == Count(lens[..n], lens[n])
    ensures Symbol(lens, s, pos) == Parsed(n, pos + lens[n])
  {
    NoShorterCodes(lens, lens[n], lens[n] - 1);
    WindowSplit(s, pos, 16, lens[n]);
    DecodeUnique(lens, Window(s, pos, 16), n);
  }

  // ---- a block with too many literal and length codes ----

  /** A final block with 287 literal and length codes, of which only the end of the block has a length, and one distance
      code without any; see `TooManyCodes`. */
  predicate CrowdedBlock(s: seq<Byte>) {
    |s| >= 9 && s[..9] == [0xF5, 0x20, 0x80, 0x20, 0xFF, 0xD7, 0x52, 0, 0]
  }

  lemma Bytes(s: seq<Byte>)
    requires CrowdedBlock(s)
    ensures s[0] == 0xF5 && s[1] == 0x20 && s[2] == 0x80 && s[3] == 0x20 && s[4] == 0xFF && s[5] == 0xD7
    ensures s[6] == 0x52 && s[7] == 0 && s[8] == 0
  {
    assert forall i :: 0 <= i < 9 ==> s[i] == s[..9][i];
  }

  lemma CountFields()
    ensures Low(Shr(0x20F5, 0), 1) == 1 && Low(Shr(0x20F5, 1), 2) == 2 && Low(Shr(0x20F5, 3), 5) == 30
    ensures Low(Shr(0x8020, 0), 5) == 0 && Low(Shr(0x8020, 5), 4) == 1
  {
  }

  lemma LengthFields()
    ensures Low(Shr(0x2080, 1), 3) == 0 && Low(Shr(0x2080, 4), 3) == 0 && Low(Shr(0x2080, 7), 3) == 1
    ensures Low(Shr(0xFF20, 2), 3) == 0 && Low(Shr(0xFF20, 5), 3) == 1
  {
    assert Shr(0x2080, 1) == 0x1040 && Shr(0x1040, 3) == 0x208 && Shr(0x208, 3) == 0x41;
    assert Shr(0x2080, 4) == Shr(0x1040, 3) && Shr(0x2080, 7) == Shr(0x208, 3);
    assert Shr(0xFF20, 2) == 0x3FC8 && Shr(0x3FC8, 3) == 0x7F9 && Shr(0xFF20, 5) == Shr(0x3FC8, 3);
  }

  lemma RunFields()
    ensures Low(Shr(0xD7FF, 0), 1) == 1 && Low(Shr(0xD7FF, 1), 7) == 127
    ensures Low(Shr(0x52D7, 0), 1) == 1 && Low(Shr(0x52D7, 1), 7) == 107
    ensures Low(Shr(0x0052, 0), 1) == 0 && Low(Shr(0x0052, 1), 1) == 1 && Low(Shr(0x0052, 2), 7) == 20
  {
    LowSeven();
    assert Shr(0xD7FF, 0) == 0xD7FF && Shr(0x52D7, 0) == 0x52D7 && Shr(0x0052, 0) == 0x0052;
    assert Shr(0xD7FF, 1) == 0x6BFF && Shr(0x52D7, 1) == 0x296B && Shr(0x0052, 1) == 0x29 && Shr(0x0052, 2) == 0x14;
  }

  lemma LowSeven()
    ensures Low(0x6BFF, 7) == 127 && Low(0x296B, 7) == 107 && Low(0x14, 7) == 20
  {
    assert Low(0xD7F, 4) == 15 && Low(0x6BFF, 7) == 7 + 8 * Low(0xD7F, 4);
    assert Low(0x52D, 4) == 13 && Low(0x296B, 7) == 3 + 8 * Low(0x52D, 4);
    assert Low(2, 4) == 2 && Low(0x14, 7) == 4 + 8 * Low(2, 4);
  }

  lemma Counts(s: seq<Byte>)
    requires CrowdedBlock(s)
    ensures Field(s, 0, 1) == 1 && Field(s, 1, 2) == 2
    ensures Hlit(s, 3) == 287 && Hdist(s, 3) == 1 && Hclen(s, 3) == 5
  {
    hide Low, Shr, Field;
    Bytes(s);
    FieldInWord(s, 0, 0, 1);
    FieldInWord(s, 0, 1, 2);
    FieldInWord(s, 0, 3, 5);
    FieldInWord(s, 1, 0, 5);
    FieldInWord(s, 1, 5, 4);
    CountFields();
  }

  /** Lengths 8 and runs of more than ten zeros are told apart by one bit. */
  function TwoCodes(): seq<nat> { seq(19, n => if n == 8 || n == 18 then 1 else 0) }

  lemma TwoCodesRead(s: seq<Byte>)
    requires CrowdedBlock(s)
    ensures CodeLengthLengths(s, 17, 5) == TwoCodes()
  {
    hide Low, Shr, Field;
    Bytes(s);
    FieldInWord(s, 2, 1, 3);
    FieldInWord(s, 2, 4, 3);
    FieldInWord(s, 2, 7, 3);
    FieldInWord(s, 3, 2, 3);
    FieldInWord(s, 3, 5, 3);
    LengthFields();
    assert ORDER[0] == 16 && ORDER[1] == 17 && ORDER[2] == 18 && ORDER[3] == 0 && ORDER[4] == 8;
    var none := CodeLengthLengths(s, 17, 0);
    assert CodeLengthLengths(s, 17, 1) == none[16 := 0];
    assert CodeLengthLengths(s, 17, 2) == none;
    assert CodeLengthLengths(s, 17, 3) == none[18 := 1];
    assert CodeLengthLengths(s, 17, 4) == none[18 := 1];
    assert CodeLengthLengths(s, 17, 5) == none[18 := 1][8 := 1];
  }

  lemma TwoCodesCounted()
    ensures Count(TwoCodes()[..8], 1) == 0 && Count(TwoCodes()[..18], 1) == 1 && Count(TwoCodes(), 1) == 2
    ensures Kraft(TwoCodes())
  {
    var cl := TwoCodes();
    CountNone(cl[..8], 1);
    CountStep(cl, 8, 1);
    CountSkips(cl[..18], 9, 1);
    assert cl[..18][..9] == cl[..9];
    CountStep(cl, 18, 1);
    assert cl[..19] == cl;
    UniformKraft(cl, 1);
  }

  lemma TwoCodesSymbol(s: seq<Byte>, pos: nat)
    ensures Symbol(TwoCodes(), s, pos) == Parsed(if StreamBit(s, pos) then 18 else 8, pos + 1)
  {
    TwoCodesCounted();
    var w := Window(s, pos, 1);
    assert w[..0] == [];
    assert MsbVal(w) == 2 * MsbVal(w[..0]) + Bit(w[0]);
    FirstCodes(TwoCodes(), s, pos, if StreamBit(s, pos) then 18 else 8);
  }

  /** One length of 8 after 256 zeros, and 31 more zeros. */
  function Crowd(): seq<nat> { Repeat(0, 256) + [8] + Repeat(0, 31) }

  lemma CrowdRead(s: seq<Byte>)
    requires CrowdedBlock(s)
    ensures ReadLengths(TwoCodes(), s, 32, 288, []) == Parsed(Crowd(), 57)
  {
    hide Symbol, Field, ReadLengths, StreamBit, TwoCodes, Low, Shr;
    Bytes(s);
    RunFields();
    var cl := TwoCodes();
    Run18(cl, s, 4, 0, 127, []);
    Run18(cl, s, 5, 0, 107, [] + Repeat(0, 138));
    var acc := [] + Repeat(0, 138) + Repeat(0, 118);
    FieldInWord(s, 6, 0, 1);
    BitOfField(s, 48);
    TwoCodesSymbol(s, 48);
    LengthStep(cl, s, 48, 288, acc, 8, 49);
    Run18(cl, s, 6, 1, 20, acc + [8]);
    assert acc == Repeat(0, 256);
    LengthsEnd(cl, s, 57, 288, Crowd());
  }

  lemma LengthsEnd(cl: seq<nat>, s: seq<Byte>, pos: nat, total: nat, acc: seq<nat>)
    requires |acc| == total
    ensures ReadLengths(cl, s, pos, total, acc) == Parsed(acc, pos)
  {
  }

  /** A run of zeros whose code is bit `k` of byte `i`. */
  lemma Run18(cl: seq<nat>, s: seq<Byte>, i: nat, k: nat, n: nat, acc: seq<nat>)
    requires cl == TwoCodes() && k + 8 <= 16 && |acc| + n + 11 <= 288
    requires Low(Shr(ByteAt(s, i) + 256 * ByteAt(s, i + 1), k), 1) == 1
    requires Low(Shr(ByteAt(s, i) + 256 * ByteAt(s, i + 1), k + 1), 7) == n
    ensures ReadLengths(cl, s, 8 * i + k, 288, acc) == ReadLengths(cl, s, 8 * i + k + 8, 288, acc + Repeat(0, n + 11))
  {
    hide Symbol, Field, ReadLengths, StreamBit, TwoCodes, Low, Shr;
    var pos := 8 * i + k;
    FieldInWord(s, i, k, 1);
    FieldInWord(s, i, k + 1, 7);
    BitOfField(s, pos);
    TwoCodesSymbol(s, pos);
    RunStep(cl, s, pos, 288, acc, 18, pos + 1);
  }

  /** The literal and length code of the block: the end of the block has eight zeros, and nothing else has a code. */
  lemma CrowdSplit()
    ensures SplitCodes(Crowd(), 287, 57) == Parsed(Codes(Crowd()[..287], [0]), 57)
    ensures Count(Crowd()[..256], 8) == 0
  {
    var lit := Crowd()[..287];
    CountNone(lit[..256], 8);
    assert lit[..256] == Crowd()[..256];
    CountStep(lit, 256, 8);
    CountSkips(lit, 257, 8);
    Powers();
    UniformKraft(lit, 8);
    assert Crowd()[287..] == [0];
    CountNone([0], 8);
    UniformKraft([0], 8);
  }

  /** Eight bits of the last bytes are zeros. */
  lemma EndRead(s: seq<Byte>)
    requires CrowdedBlock(s)
    ensures ReadItem(Crowd()[..287], [0], s, 57) == Parsed(EndOfBlock, 65)
  {
    hide Symbol;
    Bytes(s);
    var lit, w := Crowd()[..287], Window(s, 57, 8);
    forall k | 0 <= k < 8 ensures !w[k] {
      BitOfByte(s, (57 + k) / 8, (57 + k) % 8);
      ZeroBit((57 + k) % 8);
    }
    assert w == [] + Zeros(8);
    MsbValZeros([], 8);
    ShlMonotone(0, 1, 8);
    CrowdSplit();
    assert lit[..256] == Crowd()[..256];
    FirstCodes(lit, s, 57, 256);
  }

  lemma {:induction false} ZeroBit(k: nat)
    ensures Shr(0, k) == 0
  {
    if k > 0 { ZeroBit(k - 1); }
  }

  lemma TooManyCodes(s: seq<Byte>, room: nat)
    requires CrowdedBlock(s)
    ensures Inflated(s, false, room) == Done(65, []) && StandardInflated(s, false, room) == Wrong
  {
    hide ReadLengths, Symbol, ReadItem, Field, Hlit, Hdist, Hclen, CodeLengthLengths, Kraft, SplitCodes, Crowd,
    TwoCodes;
    Counts(s);
    TwoCodesRead(s);
    TwoCodesCounted();
    DynamicStep(s, 3);
    CrowdRead(s);
    CrowdSplit();
    EndRead(s);
    EndStep(Crowd()[..287], [0], s, 57, [], room, 65);
  }

  // ---- a match further back than the window ----

  /** A header with a window of 256 bytes, a stored block of 257 and a block with fixed codes: a match of length 3 at
      distance 257, and the end. */
  predicate FarBack(s: seq<Byte>, payload: seq<Byte>) {
    && |payload| == 257 && |s| >= 268
    && s[..7] == [0x08, 0x1D, 0, 1, 1, 0xFE, 0xFE] && s[7..264] == payload && s[264..268] == [3, 6, 0, 0]
  }

  lemma FarBackBytes(s: seq<Byte>, payload: seq<Byte>)
    requires FarBack(s, payload)
    ensures s[0] == 0x08 && s[1] == 0x1D && s[2] == 0 && s[3] == 1 && s[4] == 1 && s[5] == 0xFE && s[6] == 0xFE
    ensures s[264] == 3 && s[265] == 6 && s[266] == 0 && s[267] == 0
  {
    assert forall i :: 0 <= i < 7 ==> s[i] == s[..7][i];
    assert forall i :: 0 <= i < 4 ==> s[264 + i] == s[264..268][i];
  }

  lemma FarBackStored(s: seq<Byte>, payload: seq<Byte>, room: nat)
    requires FarBack(s, payload) && room >= 260
    ensures Field(s, 16, 1) == 0 && Field(s, 17, 2) == 0
    ensures Block(s, 19, 0, [], room) == Done(2112, payload)
  {
    hide Field;
    FarBackBytes(s, payload);
    FieldInWord(s, 2, 0, 1);
    FieldInWord(s, 2, 1, 2);
    assert Low(Shr(0x0100, 0), 1) == 0 && Low(Shr(0x0100, 1), 2) == 0;
    FieldOfWord(s, 3);
    FieldOfWord(s, 5);
    assert [] + s[7..264] == payload;
  }

  lemma FarBackBits(s: seq<Byte>, payload: seq<Byte>, i: nat)
    requires FarBack(s, payload) && 2112 <= i < 2144
    ensures StreamBit(s, i) == (i in {2112, 2113, 2121, 2122})
  {
    FarBackBytes(s, payload);
    BitOfByte(s, i / 8, i % 8);
    ZeroBit(i % 8);
    SmallBytes(i % 8);
  }

  lemma SmallBytes(k: nat)
    requires k < 8
    ensures (Shr(3, k) % 2 == 1) == (k < 2)
    ensures (Shr(6, k) % 2 == 1) == (1 <= k < 3)
  {
    if k >= 1 { assert Shr(3, k) == Shr(1, k - 1) && Shr(6, k) == Shr(3, k - 1); }
    if k >= 2 {
      ZeroBit(k - 2);
      assert Shr(1, k - 1) == 0 && Shr(3, k - 1) == Shr(1, k - 2);
    }
    if k >= 3 {
      ZeroBit(k - 3);
      assert Shr(1, k - 2) == 0;
    }
  }

  lemma FarBackWindows(s: seq<Byte>, payload: seq<Byte>)
    requires FarBack(s, payload)
    ensures Window(s, 2112, 1) == [true] && Window(s, 2113, 2) == [true, false]
    ensures Window(s, 2115, 7) == Zeros(6) + [true] && Window(s, 2122, 5) == [true] + Zeros(4)
    ensures Window(s, 2127, 7) == Zeros(7) && Window(s, 2134, 7) == Zeros(7)
  {
    hide FarBack, StreamBit;
    forall i | 2112 <= i < 2144 ensures StreamBit(s, i) == (i in {2112, 2113, 2121, 2122}) {
      FarBackBits(s, payload, i);
    }
  }

  lemma ZerosValue(n: nat)
    ensures LsbVal(Zeros(n)) == 0 && MsbVal(Zeros(n)) == 0
  {
    LsbValZeros([], n);
    MsbValZeros([], n);
    ShlMonotone(0, 1, n);
    assert [] + Zeros(n) == Zeros(n);
  }

  lemma FarBackFields(s: seq<Byte>, payload: seq<Byte>)
    requires FarBack(s, payload)
    ensures Field(s, 2112, 1) == 1 && Field(s, 2113, 2) == 1 && Field(s, 2127, 7) == 0
    ensures MsbVal(Window(s, 2115, 7)) == 1 && MsbVal(Window(s, 2122, 5)) == 16 && MsbVal(Window(s, 2134, 7)) == 0
  {
    hide FarBack, Window, Zeros, Shl;
    FarBackWindows(s, payload);
    ZerosValue(6);
    ZerosValue(7);
    assert (Zeros(6) + [true])[..|Zeros(6)|] == Zeros(6);
    MsbValZeros([true], 4);
    assert [true][..0] == [] && [true][1..] == [] && [true, false][1..] == [false] && [false][1..] == [];
    assert LsbVal([false]) == 0 && LsbVal([true, false]) == 1 + 2 * LsbVal([false]);
    assert MsbVal([true]) == 1;
    ShiftNibble(1);
  }

  lemma FixedCounts()
    ensures var codes := FixedCodes();
            && Count(codes.lit[..256], 7) == 0 && Count(codes.lit[..257], 7) == 1 && Count(codes.dist[..16], 5) == 16
            && NoneShorter(codes.lit, 7) && NoneShorter(codes.dist, 5)
            && |codes.lit| == 288 && |codes.dist| == 32 && codes.lit[256] == 7 && codes.lit[257] == 7
               && codes.dist[16] == 5
  {
    var codes := FixedCodes();
    CountNone(codes.lit[..256], 7);
    CountStep(codes.lit, 256, 7);
    CountAll(codes.dist[..16], 5);
  }

  /** The distances of code 16 begin after those of 16 codes. */
  lemma FarDistance()
    ensures DistanceBase(16) == 257 && DistanceExtra(16) == 7 && LengthBase(0) == 3 && LengthExtra(0) == 0
  {
    assert DistanceBase(4) == 5;
    assert DistanceBase(8) == 17;
    Powers();
    assert Pow2(6) == 2 * Pow2(5);
    assert DistanceBase(12) == 65;
  }

  lemma FarBackItems(s: seq<Byte>, payload: seq<Byte>)
    requires FarBack(s, payload)
    ensures var codes := FixedCodes();
            && ReadItem(codes.lit, codes.dist, s, 2115) == Parsed(Match(3, 257), 2134)
            && ReadItem(codes.lit, codes.dist, s, 2134) == Parsed(EndOfBlock, 2141)
  {
    hide Symbol, Field, FixedCodes, NoneShorter, Count, MsbVal, DistanceBase, LengthBase, Window;
    var codes := FixedCodes();
    FarBackFields(s, payload);
    FixedCounts();
    FarDistance();
    FirstCodes(codes.lit, s, 2115, 257);
    FirstCodes(codes.dist, s, 2122, 16);
    FirstCodes(codes.lit, s, 2134, 256);
    FieldOfNone(s, 2122);
    MatchStep(0, codes.dist, s, 2122, 2122, 16, 2127);
  }

  lemma FieldOfNone(s: seq<Byte>, pos: nat)
    ensures Field(s, pos, 0) == 0
  {
  }

  lemma CopiedThree(out: seq<Byte>)
    requires |out| == 257
    ensures Copied(out, 3, 257) == out + out[..3]
  {
    var a := out + [out[0]];
    var b := a + [out[1]];
    var c := b + [out[2]];
    assert Copied(c, 0, 257) == c;
    assert Copied(b, 1, 257) == c;
    assert Copied(a, 2, 257) == c;
    assert c == out + out[..3];
  }

  lemma FarMatchTaken(s: seq<Byte>, payload: seq<Byte>, room: nat)
    requires FarBack(s, payload) && room >= 260
    ensures Inflated(s, true, room) == Done(2141, payload + payload[..3])
    ensures StandardInflated(s, true, room) == Wrong
  {
    hide ReadItem, Field, FixedCodes, Symbol, Items, Copied, Pow2;
    var codes := FixedCodes();
    FarBackBytes(s, payload);
    FarBackStored(s, payload, room);
    FarBackFields(s, payload);
    FarBackItems(s, payload);
    CopiedThree(payload);
    CopyStep(codes.lit, codes.dist, s, 2115, payload, room, 3, 257, 2134);
    EndStep(codes.lit, codes.dist, s, 2134, payload + payload[..3], room, 2141);
    Powers();
    InflatedIsStandard(s, true, room);
    assert Block(s, 2115, 1, payload, room) == Done(2141, payload + payload[..3]);
    assert WindowSize(s, true) == 256;
    assert FarItems(codes.lit, codes.dist, s, 2115, payload, room, 256);
    assert BlocksWider(s, 2112, payload, room, 256);
    BlocksStep(s, 2112, payload, room);
    BlocksStep(s, 16, [], room);
  }
}

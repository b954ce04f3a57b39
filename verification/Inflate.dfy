/**
The zlib decoder of 3rd_party/imageHelper/stb_image.h. The decoder keeps up to 32 bits in a
buffer, refills it byte by byte, pads it once at the end of the input and looks symbols up in
tables; `InflateSpec` does none of this. The ghost field `pos` is the number of stream bits that
have been used up.
 */
module Inflate {
  import opened Bits
  import opened BitReverse
  import opened CanonicalCode
  import opened InflateSpec
  import opened InflateStandard
  import opened LsbStream
  import opened ZHuffman
  import opened Wrappers

  const UINT_MAX: nat := 0xFFFF_FFFF

  /** The entries of the match length base table. */
  function LengthBaseTable(i: nat): nat {
    match i
    case 0 => 3 case 1 => 4 case 2 => 5 case 3 => 6 case 4 => 7 case 5 => 8
    case 6 => 9 case 7 => 10 case 8 => 11 case 9 => 13 case 10 => 15 case 11 => 17
    case 12 => 19 case 13 => 23 case 14 => 27 case 15 => 31 case 16 => 35 case 17 => 43
    case 18 => 51 case 19 => 59 case 20 => 67 case 21 => 83 case 22 => 99 case 23 => 115
    case 24 => 131 case 25 => 163 case 26 => 195 case 27 => 227 case 28 => 258
    case _ => 0
  }

  /** The entries of the match length extra bits table. */
  function LengthExtraTable(i: nat): nat {
    match i
    case 0 => 0 case 1 => 0 case 2 => 0 case 3 => 0 case 4 => 0 case 5 => 0
    case 6 => 0 case 7 => 0 case 8 => 1 case 9 => 1 case 10 => 1 case 11 => 1
    case 12 => 2 case 13 => 2 case 14 => 2 case 15 => 2 case 16 => 3 case 17 => 3
    case 18 => 3 case 19 => 3 case 20 => 4 case 21 => 4 case 22 => 4 case 23 => 4
    case 24 => 5 case 25 => 5 case 26 => 5 case 27 => 5
    case _ => 0
  }

  /** The entries of the distance base table. */
  function DistBaseTable(i: nat): nat {
    match i
    case 0 => 1 case 1 => 2 case 2 => 3 case 3 => 4 case 4 => 5 case 5 => 7
    case 6 => 9 case 7 => 13 case 8 => 17 case 9 => 25 case 10 => 33 case 11 => 49
    case 12 => 65 case 13 => 97 case 14 => 129 case 15 => 193 case 16 => 257 case 17 => 385
    case 18 => 513 case 19 => 769 case 20 => 1025 case 21 => 1537 case 22 => 2049 case 23 => 3073
    case 24 => 4097 case 25 => 6145 case 26 => 8193 case 27 => 12289 case 28 => 16385 case 29 => 24577
    case _ => 0
  }

  /** The entries of the distance extra bits table. */
  function DistExtraTable(i: nat): nat {
    match i
    case 0 => 0 case 1 => 0 case 2 => 0 case 3 => 0 case 4 => 1 case 5 => 1
    case 6 => 2 case 7 => 2 case 8 => 3 case 9 => 3 case 10 => 4 case 11 => 4
    case 12 => 5 case 13 => 5 case 14 => 6 case 15 => 6 case 16 => 7 case 17 => 7
    case 18 => 8 case 19 => 8 case 20 => 9 case 21 => 9 case 22 => 10 case 23 => 10
    case 24 => 11 case 25 => 11 case 26 => 12 case 27 => 12 case 28 => 13 case 29 => 13
    case _ => 0
  }

  function PowerTable(n: nat): nat {
    match n
    case 0 => 1 case 1 => 2 case 2 => 4 case 3 => 8 case 4 => 16 case 5 => 32 case 6 => 64
    case 7 => 128 case 8 => 256 case 9 => 512 case 10 => 1024 case 11 => 2048 case 12 => 4096
    case _ => 8192
  }

  lemma {:induction false} SmallPowers(n: nat)
    requires n < 14
    ensures Pow2(n) == PowerTable(n)
  {
    if n > 0 { SmallPowers(n - 1); }
  }

  lemma LengthTableStep(k: nat)
    requires 0 < k < 28
    ensures LengthBaseTable(k) == LengthBaseTable(k - 1) + PowerTable(LengthExtra(k - 1))
    ensures LengthExtraTable(k) == LengthExtra(k)
  {
    if k <= 8 {
    } else if k <= 12 {
    } else if k <= 16 {
    } else if k <= 20 {
    } else if k <= 24 {
    }
  }

  lemma {:induction false} LengthBases(k: nat)
    requires k < 28
    ensures LengthBaseTable(k) == LengthBase(k)
  {
    if k > 0 {
      LengthBases(k - 1);
      SmallPowers(LengthExtra(k - 1));
      LengthTableStep(k);
    }
  }

  /** The base and extra-bits tables hold what the code ranges of RFC 1951 come to. */
  lemma LengthTable(k: nat)
    requires k < 29
    ensures LengthBaseTable(k) == LengthBase(k) && LengthExtraTable(k) == LengthExtra(k)
  {
    if k < 28 { LengthBases(k); }
    if 0 < k < 28 { LengthTableStep(k); }
  }

  lemma {:induction false} DistTable(k: nat)
    requires k < 30
    ensures DistBaseTable(k) == DistanceBase(k) && DistExtraTable(k) == DistanceExtra(k)
  {
    if k > 0 {
      DistTable(k - 1);
      SmallPowers(DistExtraTable(k - 1));
    }
  }

  method LengthEntry(k: nat) returns (base: nat, extra: nat)
    requires k < 29
    ensures base == LengthBase(k) && extra == LengthExtra(k) <= 5
  {
    LengthTable(k);
    base, extra := LengthBaseTable(k), LengthExtraTable(k);
  }

  method DistEntry(k: nat) returns (base: nat, extra: nat)
    requires k < 30
    ensures base == DistanceBase(k) && extra == DistanceExtra(k) <= 13
  {
    DistTable(k);
    base, extra := DistBaseTable(k), DistExtraTable(k);
  }

  function U32(x: nat): nat {
    x % 0x1_0000_0000
  }

  lemma KraftSumLast(lens: seq<nat>, l: nat, v: nat)
    requires lens != [] && lens[|lens| - 1] == v && 0 < v <= l
    ensures KraftSum(lens, l) == KraftSum(lens[..|lens| - 1], l) + Pow2(l - v)
  {
  }

  lemma {:induction false} KraftRun(lens: seq<nat>, v: nat, n: nat, l: nat)
    requires 0 < v <= l
    ensures KraftSum(lens + Repeat(v, n), l) == KraftSum(lens, l) + n * Pow2(l - v)
  {
    hide Pow2, KraftSum;
    var p := Pow2(l - v);
    if n == 0 {
      assert lens + Repeat(v, 0) == lens;
      assert n * p == 0;
    } else {
      KraftRun(lens, v, n - 1, l);
      KraftSumLast(lens + Repeat(v, n), l, v);
      assert (lens + Repeat(v, n))[..|lens| + n - 1] == lens + Repeat(v, n - 1);
      assert n * p == (n - 1) * p + p;
    }
  }

  /** The lengths of the fixed codes fill up the code space exactly. */
  lemma FixedKraft()
    ensures Kraft(FixedCodes().lit) && Kraft(FixedCodes().dist)
    ensures Lengths(FixedCodes().lit) && Lengths(FixedCodes().dist)
  {
    var a, b, c, d := Repeat(8, 144), Repeat(9, 112), Repeat(7, 24), Repeat(8, 8);
    assert FixedCodes().lit == [] + a + b + c + d;
    KraftRun([], 8, 144, MAX_LENGTH);
    KraftRun([] + a, 9, 112, MAX_LENGTH);
    KraftRun([] + a + b, 7, 24, MAX_LENGTH);
    KraftRun([] + a + b + c, 8, 8, MAX_LENGTH);
    assert FixedCodes().dist == [] + Repeat(5, 32);
    KraftRun([], 5, 32, MAX_LENGTH);
    SmallPowers(6);
    SmallPowers(7);
    SmallPowers(8);
    SmallPowers(10);
    Powers();
  }

  class ZBuf {
    const zbuffer: seq<Byte>
    var zpos: nat
    var numBits: nat
    var codeBuffer: nat
    var hitZeofOnce: bool
    ghost var pos: nat

    var zout: array<Byte>
    var zoutPos: nat
    const zExpandable: bool

    const zLength: Table
    const zDistance: Table

    constructor (input: seq<Byte>, obuf: array<Byte>, expandable: bool)
      ensures zbuffer == input && zout == obuf && zExpandable == expandable && zpos == 0 && zoutPos == 0
      ensures fresh(zLength) && fresh(zDistance) && zLength != zDistance
    {
      zbuffer := input;
      zpos, numBits, codeBuffer, hitZeofOnce, pos := 0, 0, 0, false, 0;
      zout, zoutPos, zExpandable := obuf, 0, expandable;
      var t := new Table();
      zLength := t;
      t := new Table();
      zDistance := t;
    }

    // ---- the bit buffer ----

    /** The buffer holds the next `numBits` bits of the stream, and the bytes not yet read follow
        them. Once all bytes are read, the zeros that pad the stream follow; after the padding of
        16 bits has been inserted, at least those are buffered or used up. */
    ghost predicate Synced()
      reads this`zpos, this`numBits, this`codeBuffer, this`hitZeofOnce, this`pos
    {
      && numBits <= 32
      && codeBuffer == Field(zbuffer, pos, numBits)
      && (pos + numBits) % 8 == 0
      && zpos <= |zbuffer|
      && (zpos < |zbuffer| ==> pos + numBits == 8 * zpos)
      && (zpos == |zbuffer| ==> pos + numBits >= 8 * zpos)
      && (hitZeofOnce ==> zpos == |zbuffer| && pos + numBits >= 8 * |zbuffer| + 16)
    }

    /** More bits have been used than the input has. */
    ghost predicate Overrun()
      reads this`pos
    {
      pos > 8 * |zbuffer|
    }

    method Zget8() returns (b: Byte)
      requires zpos <= |zbuffer|
      modifies this`zpos
      ensures b == ByteAt(zbuffer, old(zpos))
      ensures zpos == if old(zpos) < |zbuffer| then old(zpos) + 1 else old(zpos)
    {
      if zpos >= |zbuffer| { return 0; }
      b := zbuffer[zpos];
      zpos := zpos + 1;
    }

    lemma ByteShiftFits(b: Byte, n: nat)
      requires n <= 24
      ensures U32(Shl(b, n)) == Shl(b, n)
    {
      Powers();
      ShlMonotone(b, 256, n);
      ShlAdd(1, 8, n);
      Pow2Monotone(8 + n, 32);
      ShlAdd(1, 16, 16);
      Power32();
    }

    lemma Power32()
      ensures Pow2(32) == 0x1_0000_0000
    {
      Powers();
      ShlAdd(1, 16, 8);
      ShlAdd(1, 24, 8);
      assert Shl(1, 24) == 0x100_0000 by { ShlAdd(1, 16, 4); ShlAdd(1, 20, 4); }
    }

    /** Reads one byte, or a zero byte after the end, into the top of the buffer. */
    method FillByte()
      requires Synced() && numBits <= 24
      modifies this`zpos, this`numBits, this`codeBuffer
      ensures Synced() && numBits == old(numBits) + 8
    {
      ghost var i := (pos + numBits) / 8;
      assert pos + numBits == 8 * i;
      AppendByte(zbuffer, pos, numBits, i);
      ByteShiftFits(ByteAt(zbuffer, i), numBits);
      var b := Zget8();
      codeBuffer := Or(codeBuffer, U32(Shl(b, numBits)));
      numBits := numBits + 8;
    }

    method FillBits()
      requires Synced() && numBits <= 24
      modifies this`zpos, this`numBits, this`codeBuffer
      ensures Synced() && numBits > 24
    {
      var more := true;
      while more
        invariant Synced()
        invariant more <==> numBits <= 24
        decreases 32 - numBits
      {
        LsbValBound(Window(zbuffer, pos, numBits));
        if codeBuffer >= Pow2(numBits) {
          // the end-of-input fallback is never taken
          assert false;
        }
        FillByte();
        more := numBits <= 24;
      }
    }

    /** Drops the next `n` bits. */
    method Consume(n: nat)
      requires Synced() && n <= numBits
      modifies this`numBits, this`codeBuffer, this`pos
      ensures Synced() && pos == old(pos) + n && numBits == old(numBits) - n
    {
      LsbValSplit(Window(zbuffer, pos, numBits), n);
      WindowSplit(zbuffer, pos, numBits, n);
      codeBuffer := Shr(codeBuffer, n);
      numBits := numBits - n;
      pos := pos + n;
    }

    /** The buffered low bits are the next bits of the stream. */
    lemma Peek(n: nat)
      requires Synced() && n <= numBits
      ensures Low(codeBuffer, n) == Field(zbuffer, pos, n)
    {
      LsbValSplit(Window(zbuffer, pos, numBits), n);
      WindowSplit(zbuffer, pos, numBits, n);
    }

    method Zreceive(n: nat) returns (k: nat)
      requires Synced() && n <= 16
      modifies this`zpos, this`numBits, this`codeBuffer, this`pos
      ensures Synced() && pos == old(pos) + n && numBits + n <= 32
      ensures k == Field(zbuffer, old(pos), n) < Pow2(n)
      ensures old(numBits) >= n ==> numBits == old(numBits) - n
    {
      if numBits < n { FillBits(); }
      Peek(n);
      AndMask(codeBuffer, n);
      LsbValBound(Window(zbuffer, pos, n));
      k := And(codeBuffer, Pow2(n) - 1);
      Consume(n);
    }

    // ---- one symbol ----

    /** The first length above the fast ones whose shifted end is above `k`; 16 if there is none. */
    static method FirstLength(z: Table, k: nat, ghost lens: seq<nat>, ghost w: seq<bool>) returns (s: nat)
      requires z.For(lens) && |w| == 16 && k == MsbVal(w)
      requires forall n: nat :: Matches(lens, w, n) ==> lens[n] > FAST_BITS
      ensures FAST_BITS < s <= 16
      ensures s < 16 ==> MsbVal(w[..s]) < EndCode(lens, s)
      ensures MsbVal(w[..s - 1]) >= EndCode(lens, s - 1)
    {
      MsbValBound(w);
      Powers();
      CodesCover(lens, w, FAST_BITS);
      s := FAST_BITS + 1;
      while k >= z.maxCode[s]
        invariant FAST_BITS < s <= 16
        invariant MsbVal(w[..s - 1]) >= EndCode(lens, s - 1)
        decreases 16 - s
      {
        BelowShiftedEnd(lens, w, s);
        s := s + 1;
      }
      BelowShiftedEnd(lens, w, s);
    }

    /** The symbol in the slot of the first `s` bits of `k`. */
    static method SlotValue(z: Table, k: nat, s: nat, ghost lens: seq<nat>, ghost w: seq<bool>) returns (sym: nat)
      requires z.For(lens) && |w| == 16 && k == MsbVal(w) && FAST_BITS < s < 16
      requires MsbVal(w[..s]) < EndCode(lens, s)
      requires MsbVal(w[..s - 1]) >= EndCode(lens, s - 1)
      ensures Matches(lens, w, sym) && lens[sym] == s
    {
      BelowShiftedEnd(lens, w, s);
      ghost var n := SlowLookup(lens, w, s);
      var b := Shr(k, 16 - s) - z.firstCode[s] + z.firstSymbol[s];
      assert b == SlotOf(lens, n);
      if b >= SYMBOLS || z.size[b] != s {
        // the corruption checks never fire
        assert false;
      }
      sym := z.value[b];
    }

    /** The symbol with a code longer than the fast ones, and its length; a negative symbol if no
        codeword begins the bits. */
    static method LookupSlow(z: Table, codeBuffer: nat, ghost lens: seq<nat>, ghost w: seq<bool>)
      returns (sym: int, s: nat)
      requires z.For(lens) && |w| == 16 && Low(codeBuffer, 16) == LsbVal(w)
      requires forall n: nat :: Matches(lens, w, n) ==> lens[n] > FAST_BITS
      ensures sym >= 0 ==> Matches(lens, w, sym) && lens[sym] == s
      ensures sym < 0 ==> Decode(lens, w) == None
    {
      var k := MsbOfLow16(codeBuffer, w);
      s := FirstLength(z, k, lens, w);
      if s >= 16 {
        CodesCover(lens, w, MAX_LENGTH);
        return -1, s;
      }
      sym := SlotValue(z, k, s, lens, w);
    }

    static method Lookup(z: Table, codeBuffer: nat, ghost lens: seq<nat>, ghost w: seq<bool>)
      returns (sym: int, s: nat)
      requires z.For(lens) && |w| == 16 && Low(codeBuffer, 16) == LsbVal(w)
      ensures sym >= 0 ==> Matches(lens, w, sym) && lens[sym] == s
      ensures sym < 0 ==> Decode(lens, w) == None
    {
      FastIndex(codeBuffer, w);
      FastLookup(z.fast, lens, w);
      var b := z.fast[And(codeBuffer, FAST_SIZE - 1)];
      if b != 0 {
        sym, s := And(b, 511), Shr(b, 9);
      } else {
        sym, s := LookupSlow(z, codeBuffer, lens, w);
      }
    }

    static lemma FastIndex(codeBuffer: nat, w: seq<bool>)
      requires |w| == 16 && Low(codeBuffer, 16) == LsbVal(w)
      ensures And(codeBuffer, FAST_SIZE - 1) == LsbVal(w[..FAST_BITS])
    {
      Powers();
      AndMask(codeBuffer, FAST_BITS);
      LowLow(codeBuffer, 16, FAST_BITS);
      LsbValSplit(w, FAST_BITS);
    }

    /** After the last byte, sixteen more zero bits may be taken as buffered. */
    method Pad()
      requires Synced() && numBits < 16 && zpos == |zbuffer|
      modifies this`numBits, this`hitZeofOnce
      ensures Synced() && numBits == old(numBits) + 16
    {
      hide LsbStream.Field;
      PadZeros(zbuffer, pos, numBits, 16);
      hitZeofOnce := true;
      numBits := numBits + 16;
    }

    /** Decodes one symbol. A negative result means that no codeword comes next, or that more bits
        had been used than the input has. */
    method HuffmanDecode(z: Table, ghost lens: seq<nat>) returns (sym: int)
      requires Synced() && z.For(lens)
      modifies this`zpos, this`numBits, this`codeBuffer, this`pos, this`hitZeofOnce
      ensures Synced()
      ensures sym >= 0 ==> Symbol(lens, zbuffer, old(pos)) == Parsed(sym, pos)
      ensures sym < 0 ==> Symbol(lens, zbuffer, old(pos)) == Malformed || old(Overrun())
    {
      hide Table.For, Matches, CanonicalCode.Decode;
      if numBits < 16 {
        if zpos >= |zbuffer| {
          if hitZeofOnce { return -1; }
          Pad();
        } else {
          FillBits();
        }
      }
      Peek(16);
      var s;
      sym, s := Lookup(z, codeBuffer, lens, Window(zbuffer, pos, 16));
      if sym >= 0 {
        DecodeUnique(lens, Window(zbuffer, pos, 16), sym);
        Consume(s);
      }
    }

    // ---- the output buffer ----

    ghost predicate Ready()
      reads this`zout, this`zoutPos
    {
      && zoutPos <= zout.Length <= UINT_MAX
      && (zExpandable ==> zout.Length > 0)
      && zLength != zDistance
    }

    /** What has been decoded so far. */
    ghost function Out(): seq<Byte>
      requires Ready()
      reads this`zout, this`zoutPos, zout
    {
      zout[..zoutPos]
    }

    /** The largest size that doubling `limit` reaches within an unsigned int. */
    static ghost function Grown(limit: nat): (g: nat)
      requires 0 < limit <= UINT_MAX
      ensures limit <= g <= UINT_MAX
      decreases UINT_MAX - limit
    {
      if limit > UINT_MAX / 2 then limit else Grown(2 * limit)
    }

    /** The size that doubling ends with: doubled once more it is no unsigned integer. */
    static lemma {:induction false} GrownIs(limit: nat) returns (k: nat)
      requires 0 < limit <= UINT_MAX
      ensures Grown(limit) == Shl(limit, k) && Shl(limit, k + 1) > UINT_MAX
      decreases UINT_MAX - limit
    {
      if limit > UINT_MAX / 2 {
        k := 0;
      } else {
        k := GrownIs(2 * limit);
        ShlAdd(limit, 1, k);
        ShlAdd(limit, 1, k + 1);
        k := k + 1;
      }
    }

    /** How much output there can be. */
    ghost function Room(): nat
      requires Ready()
      reads this`zout, this`zoutPos
    {
      if zExpandable then Grown(zout.Length) else zout.Length
    }

    /** Makes room for `n` bytes after the first `cur`, if there can be. */
    method Zexpand(cur: nat, n: nat) returns (ok: bool)
      requires Ready() && cur <= zout.Length < cur + n
      modifies this`zout, this`zoutPos
      ensures Ready() && Room() == old(Room()) && (zout == old(zout) || fresh(zout))
      ensures zoutPos == cur && (ok <==> cur + n <= Room())
      ensures ok ==> cur + n <= zout.Length && zout[..cur] == old(zout[..cur])
    {
      zoutPos := cur;
      if !zExpandable { return false; }
      var limit := zout.Length;
      if UINT_MAX - cur < n { return false; }
      while cur + n > limit
        invariant zout.Length <= limit <= UINT_MAX && Grown(limit) == Room()
        decreases UINT_MAX - limit
      {
        if limit > UINT_MAX / 2 { return false; }
        limit := limit * 2;
      }
      var q := new Byte[limit];
      forall i | 0 <= i < zout.Length { q[i] := zout[i]; }
      assert q[..cur] == zout[..cur];
      zout := q;
      return true;
    }

    lemma CopiedNone(out: seq<Byte>, dist: nat)
      requires 0 < dist <= |out|
      ensures Copied(out, 0, dist) == out
    {
    }

    /** Copies one byte from `dist` back. */
    method CopyByte(at: nat, dist: nat, v: Byte, ghost left: nat)
      requires 0 < dist <= at < zout.Length && v == zout[at - dist]
      modifies zout
      ensures Copied(old(zout[..at]), left + 1, dist) == Copied(zout[..at + 1], left, dist)
      ensures zout[at] == v && forall i :: 0 <= i < at ==> zout[i] == old(zout[i])
    {
      ghost var before := zout[..at];
      zout[at] := v;
      assert zout[..at + 1] == before + [before[|before| - dist]];
    }

    /** Copies `len` bytes from `dist` bytes back, one by one. */
    method CopyMatch(cur: nat, len: nat, dist: nat)
      requires 0 < dist <= cur && cur + len <= zout.Length
      modifies zout
      ensures zout[..cur + len] == Copied(old(zout[..cur]), len, dist)
    {
      hide Copied;
      ghost var result := Copied(zout[..cur], len, dist);
      if dist == 1 {
        var v := zout[cur - 1];
        for i := 0 to len
          invariant zout[cur + i - 1] == v
          invariant result == Copied(zout[..cur + i], len - i, dist)
        {
          CopyByte(cur + i, dist, v, len - i - 1);
        }
      } else {
        var p := cur - dist;
        for i := 0 to len
          invariant result == Copied(zout[..cur + i], len - i, dist)
        {
          CopyByte(cur + i, dist, zout[p + i], len - i - 1);
        }
      }
      CopiedNone(zout[..cur + len], dist);
    }

    // ---- a block of literals and matches ----

    /** The number in the next `n` bits, if any are wanted. */
    method ExtraBits(n: nat) returns (k: nat)
      requires Synced() && n <= 16
      modifies this`zpos, this`numBits, this`codeBuffer, this`pos
      ensures Synced() && pos == old(pos) + n
      ensures k == Field(zbuffer, old(pos), n)
    {
      k := 0;
      if n != 0 { k := Zreceive(n); }
    }

    method MatchItem(k: nat, ghost dist: seq<nat>) returns (r: Option<Item>)
      requires k < 29 && Synced() && zDistance.For(dist)
      modifies this`zpos, this`numBits, this`codeBuffer, this`pos, this`hitZeofOnce
      ensures Synced()
      ensures r.Some? ==> ReadMatch(k, dist, zbuffer, old(pos)) == Parsed(r.value, pos)
      ensures r.None? ==> Hopeless(zbuffer, ReadMatch(k, dist, zbuffer, old(pos)))
    {
      hide Synced, Table.For, InflateSpec.Symbol, LsbStream.Field, InflateSpec.ReadMatch, InflateSpec.Hopeless;
      var base, extra := LengthEntry(k);
      var more := ExtraBits(extra);
      ghost var mid := pos;
      var d := HuffmanDecode(zDistance, dist);
      if d < 0 || d >= 30 {
        MatchFails(k, dist, zbuffer, old(pos), mid);
        return None;
      }
      MatchStep(k, dist, zbuffer, old(pos), mid, d, pos);
      var dbase, dextra := DistEntry(d);
      var dmore := ExtraBits(dextra);
      r := Some(Match(base + more, dbase + dmore));
    }

    /** The next literal, match or end of block. */
    method NextItem(ghost lit: seq<nat>, ghost dist: seq<nat>) returns (r: Option<Item>)
      requires Synced() && zLength.For(lit) && zDistance.For(dist)
      modifies this`zpos, this`numBits, this`codeBuffer, this`pos, this`hitZeofOnce
      ensures Synced()
      ensures r.Some? ==> ReadItem(lit, dist, zbuffer, old(pos)) == Parsed(r.value, pos)
      ensures r.None? ==> Hopeless(zbuffer, ReadItem(lit, dist, zbuffer, old(pos)))
    {
      var z := HuffmanDecode(zLength, lit);
      if z < 256 {
        if z < 0 { return None; }
        return Some(Literal(z));
      }
      if z == 256 {
        if hitZeofOnce && numBits < 16 { return None; }
        return Some(EndOfBlock);
      }
      if z >= 286 { return None; }
      r := MatchItem(z - 257, dist);
    }

    /** Appends one byte to the first `cur`. */
    method PutLiteral(cur: nat, b: Byte) returns (ok: bool)
      requires Ready() && cur <= zout.Length
      modifies this`zout, this`zoutPos, zout
      ensures Ready() && Room() == old(Room()) && (zout == old(zout) || fresh(zout))
      ensures ok <==> cur + 1 <= Room()
      ensures ok ==> cur + 1 <= zout.Length && zout[..cur + 1] == old(zout[..cur]) + [b]
    {
      if cur >= zout.Length {
        ok := Zexpand(cur, 1);
        if !ok { return; }
      }
      GrownBound();
      zout[cur] := b;
      ok := true;
    }

    /** Appends a match to the first `cur` bytes. */
    method PutMatch(cur: nat, len: nat, dist: nat) returns (ok: bool)
      requires Ready() && 0 < dist <= cur <= zout.Length
      modifies this`zout, this`zoutPos, zout
      ensures Ready() && Room() == old(Room()) && (zout == old(zout) || fresh(zout))
      ensures ok <==> cur + len <= Room()
      ensures ok ==> cur + len <= zout.Length && zout[..cur + len] == Copied(old(zout[..cur]), len, dist)
    {
      if len > zout.Length - cur {
        ok := Zexpand(cur, len);
        if !ok { return; }
      }
      GrownBound();
      CopyMatch(cur, len, dist);
      ok := true;
    }

    /** Records that the first `cur` bytes are the output. */
    method Finish(cur: nat)
      requires Ready() && cur <= zout.Length
      modifies this`zoutPos
      ensures Ready() && Out() == zout[..cur] && Room() == old(Room())
    {
      zoutPos := cur;
    }

    lemma GrownBound()
      requires Ready()
      ensures zoutPos <= zout.Length <= Room()
    {
    }

    method ParseHuffmanBlock(ghost lit: seq<nat>, ghost dist: seq<nat>) returns (ok: bool)
      requires Ready() && Synced() && zLength.For(lit) && zDistance.For(dist)
      modifies this, zout
      ensures Ready() && Synced() && Room() == old(Room()) && (zout == old(zout) || fresh(zout))
      ensures ok ==> Items(lit, dist, zbuffer, old(pos), old(Out()), Room()) == Done(pos, Out())
      ensures !ok ==> Lost(zbuffer, Items(lit, dist, zbuffer, old(pos), old(Out()), Room()))
    {
      hide Synced, Ready, Room, Grown, Table.For, InflateSpec.Items, InflateSpec.ReadItem;
      GrownBound();
      var cur := zoutPos;
      ghost var room := Room();
      ghost var outcome := Items(lit, dist, zbuffer, pos, Out(), room);
      while true
        invariant Ready() && Synced() && Room() == room && (zout == old(zout) || fresh(zout))
        invariant cur <= zout.Length <= room
        invariant outcome == Items(lit, dist, zbuffer, pos, zout[..cur], room)
        decreases room - cur
      {
        ghost var at, out := pos, zout[..cur];
        var item := NextItem(lit, dist);
        match item {
          case None =>
            ItemFails(lit, dist, zbuffer, at, out, room);
            return false;
          case Some(EndOfBlock) =>
            EndStep(lit, dist, zbuffer, at, out, room, pos);
            Finish(cur);
            return true;
          case Some(Literal(b)) =>
            LiteralStep(lit, dist, zbuffer, at, out, room, b, pos);
            ok := PutLiteral(cur, b);
            if !ok { return; }
            cur := cur + 1;
          case Some(Match(len, distance)) =>
            CopyStep(lit, dist, zbuffer, at, out, room, len, distance, pos);
            if cur < distance { return false; }
            ok := PutMatch(cur, len, distance);
            if !ok { return; }
            cur := cur + len;
        }
        GrownBound();
      }
    }

    // ---- dynamic codes ----

    /** The lengths of the code length code, in the order of the alphabet. */
    method ReadCodeLengthSizes(hclen: nat) returns (sizes: seq<nat>)
      requires Synced() && hclen <= 19
      modifies this`zpos, this`numBits, this`codeBuffer, this`pos
      ensures Synced() && pos == old(pos) + 3 * hclen
      ensures sizes == CodeLengthLengths(zbuffer, old(pos), hclen) && Lengths(sizes)
    {
      hide Synced, LsbStream.Field;
      var codelengthSizes := seq(19, _ => 0);
      Powers();
      for i := 0 to hclen
        invariant Synced() && pos == old(pos) + 3 * i
        invariant codelengthSizes == CodeLengthLengths(zbuffer, old(pos), i) && Lengths(codelengthSizes)
      {
        var s := Zreceive(3);
        codelengthSizes := codelengthSizes[ORDER[i] := s];
      }
      sizes := codelengthSizes;
    }

    /** How many lengths the run code `c` stands for. */
    method ReadRun(c: nat) returns (count: nat)
      requires Synced() && 16 <= c < 19
      modifies this`zpos, this`numBits, this`codeBuffer, this`pos
      ensures Synced() && pos == old(pos) + RunExtra(c)
      ensures count == RunLeast(c) + Field(zbuffer, old(pos), RunExtra(c))
    {
      hide Synced, LsbStream.Field;
      if c == 16 {
        count := Zreceive(2);
        count := count + 3;
      } else if c == 17 {
        count := Zreceive(3);
        count := count + 3;
      } else {
        count := Zreceive(7);
        count := count + 11;
      }
    }

    method ReadCodeLengths(z: Table, ghost cl: seq<nat>, ntot: nat) returns (ok: bool, lencodes: array<nat>)
      requires Synced() && z.For(cl) && ntot <= 320
      modifies this`zpos, this`numBits, this`codeBuffer, this`pos, this`hitZeofOnce
      ensures Synced() && fresh(lencodes) && lencodes.Length == 455
      ensures ok ==> ReadLengths(cl, zbuffer, old(pos), ntot, []) == Parsed(lencodes[..ntot], pos)
      ensures ok ==> Lengths(lencodes[..ntot])
      ensures !ok ==> Hopeless(zbuffer, ReadLengths(cl, zbuffer, old(pos), ntot, []))
    {
      hide Synced, Table.For, LsbStream.Field, InflateSpec.Symbol, InflateSpec.ReadLengths;
      lencodes := new nat[455];
      var n := 0;
      ghost var all := ReadLengths(cl, zbuffer, pos, ntot, []);
      while n < ntot
        invariant Synced() && n <= ntot
        invariant Lengths(lencodes[..n])
        invariant all == ReadLengths(cl, zbuffer, pos, ntot, lencodes[..n])
      {
        ghost var at, acc := pos, lencodes[..n];
        var c := HuffmanDecode(z, cl);
        if c < 0 || c >= 19 {
          LengthsFail(cl, zbuffer, at, ntot, acc);
          return false, lencodes;
        }
        if c < 16 {
          LengthStep(cl, zbuffer, at, ntot, acc, c, pos);
          lencodes[n] := c;
          assert lencodes[..n + 1] == acc + [c];
          n := n + 1;
        } else {
          RunStep(cl, zbuffer, at, ntot, acc, c, pos);
          var fill := 0;
          var count := ReadRun(c);
          if c == 16 {
            if n == 0 { return false, lencodes; }
            fill := lencodes[n - 1];
          }
          if ntot - n < count { return false, lencodes; }
          forall i | n <= i < n + count { lencodes[i] := fill; }
          assert lencodes[..n + count] == acc + Repeat(fill, count);
          n := n + count;
        }
      }
      LengthsDone(cl, ntot, lencodes[..n]);
      ok := true;
    }

    lemma LengthsDone(cl: seq<nat>, ntot: nat, acc: seq<nat>)
      requires |acc| == ntot
      ensures ReadLengths(cl, zbuffer, pos, ntot, acc) == Parsed(acc, pos)
    {
    }

    /** Reads the codes of a dynamic block into the two tables. */
    method ComputeHuffmanCodes() returns (ok: bool, ghost codes: Codes)
      requires Synced() && zLength != zDistance
      modifies this`zpos, this`numBits, this`codeBuffer, this`pos, this`hitZeofOnce, zLength, zDistance
      ensures Synced()
      ensures ok ==> DynamicCodes(zbuffer, old(pos)) == Parsed(codes, pos)
      ensures ok ==> zLength.For(codes.lit) && zDistance.For(codes.dist)
      ensures !ok ==> Hopeless(zbuffer, DynamicCodes(zbuffer, old(pos)))
    {
      hide Synced, Table.For, LsbStream.Field, InflateSpec.ReadLengths, InflateSpec.SplitCodes, Kraft,
           InflateSpec.DynamicCodes, CodeLengthLengths, Lengths;
      Powers();
      codes := Codes([], []);
      DynamicStep(zbuffer, pos);
      var hlit := Zreceive(5);
      hlit := hlit + 257;
      var hdist := Zreceive(5);
      hdist := hdist + 1;
      var hclen := Zreceive(4);
      hclen := hclen + 4;
      var ntot := hlit + hdist;
      var sizes := ReadCodeLengthSizes(hclen);
      var zCodelength := new Table();
      ok := zCodelength.Build(sizes);
      if !ok { return; }
      var lencodes;
      ok, lencodes := ReadCodeLengths(zCodelength, sizes, ntot);
      if !ok { return; }
      ok, codes := BuildTables(lencodes, hlit, ntot, pos);
    }

    method BuildTables(lencodes: array<nat>, hlit: nat, ntot: nat, ghost next: nat) returns (ok: bool,
        ghost codes: Codes)
      requires zLength != zDistance && hlit <= ntot <= lencodes.Length && Lengths(lencodes[..ntot])
      requires hlit <= SYMBOLS && ntot - hlit <= SYMBOLS
      modifies zLength, zDistance
      ensures ok ==> zLength.For(codes.lit) && zDistance.For(codes.dist)
      ensures SplitCodes(lencodes[..ntot], hlit, next) == if ok then Parsed(codes, next) else Malformed
    {
      hide Table.For, Kraft;
      ghost var lens := lencodes[..ntot];
      assert lencodes[..hlit] == lens[..hlit] && lencodes[hlit..ntot] == lens[hlit..];
      codes := Codes(lens[..hlit], lens[hlit..]);
      ok := zLength.Build(lencodes[..hlit]);
      if !ok { return; }
      ok := zDistance.Build(lencodes[hlit..ntot]);
    }

    // ---- stored blocks ----

    lemma ComplementOf(len: nat, i: nat)
      requires len == Field(zbuffer, i, 16)
      ensures len <= 0xFFFF && Xor(len, 0xFFFF) == 0xFFFF - len
    {
      Powers();
      LsbValBound(Window(zbuffer, i, 16));
      XorOnes(len, 16);
    }

    lemma AndSeven(n: nat)
      ensures And(n, 7) == n % 8
    {
      Powers();
      AndMask(n, 3);
      LowThree(n);
    }

    lemma LowTwo(x: nat)
      ensures Low(x, 2) == x % 4
    {
      assert Low(x / 2, 1) == x / 2 % 2 + 2 * Low(x / 2 / 2, 0);
    }

    lemma LowThree(x: nat)
      ensures Low(x, 3) == x % 8
    {
      LowTwo(x / 2);
      assert Low(x, 3) == x % 2 + 2 * Low(x / 2, 2);
    }

    lemma LowFour(x: nat)
      ensures Low(x, 4) == x % 16
    {
      LowThree(x / 2);
      assert Low(x, 4) == x % 2 + 2 * Low(x / 2, 3);
    }

    lemma AlignUp(pos: nat, n: nat)
      requires (pos + n) % 8 == 0 && n <= 30
      ensures pos + n % 8 == 8 * ((pos + 7) / 8) && n - n % 8 <= 24
    {
    }

    /** Drops the rest of the current byte. */
    method AlignToByte()
      requires Synced() && numBits <= 30
      modifies this`zpos, this`numBits, this`codeBuffer, this`pos
      ensures Synced() && numBits <= 24 && pos == 8 * ((old(pos) + 7) / 8)
    {
      hide LsbStream.Field, And;
      AndSeven(numBits);
      AlignUp(pos, numBits);
      if And(numBits, 7) != 0 {
        var _ := Zreceive(And(numBits, 7));
      }
    }

    /** On a byte boundary, whole bytes are buffered. */
    lemma WholeBytes()
      requires Synced() && pos % 8 == 0
      ensures numBits % 8 == 0
    {
    }

    /** Takes the next byte out of the bit buffer. */
    method DrainByte() returns (b: Byte)
      requires Synced() && 8 <= numBits && pos % 8 == 0
      modifies this`numBits, this`codeBuffer, this`pos
      ensures Synced() && pos == old(pos) + 8 && numBits == old(numBits) - 8
      ensures b == ByteAt(zbuffer, old(pos) / 8)
    {
      Powers();
      Peek(8);
      AndMask(codeBuffer, 8);
      WindowOfByte(zbuffer, pos / 8);
      b := And(codeBuffer, 255);
      Consume(8);
    }

    /** Reads the next byte of the input when the bit buffer is empty. */
    method FetchByte() returns (b: Byte)
      requires Synced() && numBits == 0
      modifies this`zpos, this`pos
      ensures Synced() && pos == old(pos) + 8
      ensures b == ByteAt(zbuffer, old(pos) / 8)
    {
      b := Zget8();
      pos := pos + 8;
    }

    /** The four bytes of a stored block's header, some of which may be in the bit buffer. */
    method StoredHeader() returns (len: nat, nlen: nat)
      requires Synced() && numBits <= 30
      modifies this`zpos, this`numBits, this`codeBuffer, this`pos
      ensures Synced() && numBits == 0
      ensures var p := (old(pos) + 7) / 8;
              pos == 8 * (p + 4) && len == Field(zbuffer, 8 * p, 16) && nlen == Field(zbuffer, 8 * p + 16, 16)
    {
      hide Synced, LsbStream.Field, ByteAt;
      AlignToByte();
      ghost var p := pos / 8;
      var header := new Byte[4];
      var k := 0;
      while numBits > 0
        invariant Synced() && numBits + 8 * k <= 24 && pos == 8 * (p + k)
        invariant forall i :: 0 <= i < k ==> header[i] == ByteAt(zbuffer, p + i)
        decreases numBits
      {
        WholeBytes();
        var b := DrainByte();
        header[k] := b;
        k := k + 1;
      }
      while k < 4
        invariant k <= 4 && Synced() && numBits == 0 && pos == 8 * (p + k)
        invariant forall i :: 0 <= i < k ==> header[i] == ByteAt(zbuffer, p + i)
      {
        var b := FetchByte();
        header[k] := b;
        k := k + 1;
      }
      FieldOfWord(zbuffer, p);
      FieldOfWord(zbuffer, p + 2);
      assert 8 * (p + 2) == 8 * p + 16;
      len := header[1] as nat * 256 + header[0];
      nlen := header[3] as nat * 256 + header[2];
    }

    /** Copies `len` bytes of the input to the output. */
    method CopyStored(len: nat) returns (ok: bool)
      requires Ready() && zpos + len <= |zbuffer|
      modifies this`zout, this`zoutPos, zout
      ensures Ready() && Room() == old(Room()) && (zout == old(zout) || fresh(zout))
      ensures ok <==> |old(Out())| + len <= Room()
      ensures ok ==> Out() == old(Out()) + zbuffer[zpos..zpos + len]
    {
      if zoutPos + len > zout.Length {
        ok := Zexpand(zoutPos, len);
        if !ok { return; }
      }
      GrownBound();
      ok := true;
      forall i | 0 <= i < len { zout[zoutPos + i] := zbuffer[zpos + i]; }
      assert zout[..zoutPos + len] == old(Out()) + zbuffer[zpos..zpos + len];
      zoutPos := zoutPos + len;
    }

    /** The payload begins where the header ends, unless the header ran past the input. */
    lemma PayloadStart(len: nat, nlen: nat)
      requires Synced() && numBits == 0 && pos >= 32 && pos % 8 == 0
      requires len == Field(zbuffer, pos - 32, 16) && nlen == Field(zbuffer, pos - 16, 16) && len + nlen == 0xFFFF
      ensures zpos + len <= |zbuffer| <==> pos / 8 + len <= |zbuffer|
      ensures zpos + len <= |zbuffer| ==> zpos == pos / 8
    {
      hide LsbStream.Field;
      FieldOfWord(zbuffer, pos / 8 - 2);
      assert 8 * (pos / 8 - 2) == pos - 16;
    }

    method SkipBytes(len: nat)
      requires Synced() && numBits == 0 && pos == 8 * zpos && zpos + len <= |zbuffer|
      modifies this`zpos, this`pos
      ensures Synced() && pos == old(pos) + 8 * len && zpos == old(zpos) + len
    {
      zpos := zpos + len;
      pos := pos + 8 * len;
    }

    method ParseUncompressedBlock() returns (ok: bool)
      requires Ready() && Synced() && numBits <= 30
      modifies this, zout
      ensures Ready() && Synced() && Room() == old(Room()) && (zout == old(zout) || fresh(zout))
      ensures ok <==> Stored(zbuffer, old(pos), old(Out()), Room()).Done?
      ensures ok ==> Stored(zbuffer, old(pos), old(Out()), Room()) == Done(pos, Out())
    {
      hide LsbStream.Field;
      ghost var p := (pos + 7) / 8;
      var len, nlen := StoredHeader();
      ComplementOf(len, 8 * p);
      if nlen != Xor(len, 0xFFFF) { return false; }
      PayloadStart(len, nlen);
      if zpos + len > |zbuffer| { return false; }
      ok := CopyStored(len);
      if !ok { return; }
      SkipBytes(len);
    }

    // ---- the stream ----

    method ParseZlibHeader() returns (ok: bool)
      requires zpos == 0
      modifies this`zpos
      ensures ok <==> Header(zbuffer, 0)
      ensures ok ==> zpos == 2 <= |zbuffer|
    {
      hide And;
      var cmf := Zget8();
      var flg := Zget8();
      HeaderFields(cmf, flg);
      if zpos >= |zbuffer| { return false; }
      if (cmf as nat * 256 + flg) % 31 != 0 { return false; }
      if And(flg, 32) != 0 { return false; }
      if And(cmf, 15) != 8 { return false; }
      ok := true;
    }

    /** The masks of the header check pick out the compression method and the dictionary flag. */
    lemma HeaderFields(cmf: Byte, flg: Byte)
      ensures And(cmf, 15) == cmf % 16
      ensures And(flg, 32) == 32 * (flg / 32 % 2)
    {
      Powers();
      AndMask(cmf, 4);
      LowFour(cmf);
      AndHalf(flg, 16);
      AndHalf(flg / 2, 8);
      AndHalf(flg / 2 / 2, 4);
      AndHalf(flg / 2 / 2 / 2, 2);
      AndHalf(flg / 2 / 2 / 2 / 2, 1);
      AndOne(flg / 2 / 2 / 2 / 2 / 2);
    }

    lemma AndHalf(x: nat, y: nat)
      ensures And(x, 2 * y) == 2 * And(x / 2, y)
    {
    }

    lemma AndOne(x: nat)
      ensures And(x, 1) == x % 2
    {
    }

    /** The fixed codes are those of the default length tables, and they are prefix codes. */
    method BuildFixed() returns (ok: bool)
      requires zLength != zDistance
      modifies zLength, zDistance
      ensures ok ==> zLength.For(FixedCodes().lit) && zDistance.For(FixedCodes().dist)
      ensures ok
    {
      FixedKraft();
      ok := zLength.Build(FixedCodes().lit);
      if !ok { return; }
      ok := zDistance.Build(FixedCodes().dist);
    }

    /** Decodes the body of a block of the given kind. */
    method ParseBlock(kind: nat) returns (ok: bool)
      requires Ready() && Synced() && numBits <= 30
      modifies this, zout, zLength, zDistance
      ensures Ready() && Synced() && Room() == old(Room()) && (zout == old(zout) || fresh(zout))
      ensures ok ==> Block(zbuffer, old(pos), kind, old(Out()), Room()) == Done(pos, Out())
      ensures !ok ==> Lost(zbuffer, Block(zbuffer, old(pos), kind, old(Out()), Room()))
    {
      hide Synced, Table.For, InflateSpec.Items, InflateSpec.DynamicCodes, InflateSpec.Stored;
      if kind == 0 {
        ok := ParseUncompressedBlock();
      } else if kind == 1 {
        ok := BuildFixed();
        ok := ParseHuffmanBlock(FixedCodes().lit, FixedCodes().dist);
      } else if kind == 2 {
        ghost var codes;
        ok, codes := ComputeHuffmanCodes();
        if !ok { return; }
        ok := ParseHuffmanBlock(codes.lit, codes.dist);
      } else {
        ok := false;
      }
    }

    /** Decodes blocks up to the final one. */
    method ParseBlocks() returns (ok: bool)
      requires Ready() && Synced()
      modifies this, zout, zLength, zDistance
      ensures Ready() && Room() == old(Room()) && (zout == old(zout) || fresh(zout))
      ensures ok ==> Blocks(zbuffer, old(pos), old(Out()), Room()) == Done(pos, Out())
      ensures !ok ==> Lost(zbuffer, Blocks(zbuffer, old(pos), old(Out()), Room()))
    {
      hide Synced, InflateSpec.Block, InflateSpec.Blocks, LsbStream.Field;
      ghost var outcome := Blocks(zbuffer, pos, Out(), Room());
      ghost var room := Room();
      var final := false;
      while !final
        invariant Ready() && Synced() && Room() == room && (zout == old(zout) || fresh(zout))
        invariant outcome == if final then Done(pos, Out()) else Blocks(zbuffer, pos, Out(), room)
        decreases !final, 8 * |zbuffer| - pos
      {
        ghost var at, out := pos, Out();
        GrownBound();
        BlocksStep(zbuffer, at, out, room);
        var bit := Zreceive(1);
        var kind := Zreceive(2);
        ok := ParseBlock(kind);
        if !ok { return; }
        final := bit == 1;
      }
      ok := true;
    }

    /** Decodes a zlib stream, or a bare DEFLATE stream, from the beginning of the input. */
    method ParseZlib(parseHeader: bool) returns (ok: bool)
      requires Ready() && zpos == zoutPos == 0
      modifies this, zout, zLength, zDistance
      ensures Ready()
      ensures ok ==> Inflated(zbuffer, parseHeader, old(Room())).Done?
                     && Inflated(zbuffer, parseHeader, old(Room())).out == Out()
      ensures !ok ==> Lost(zbuffer, Inflated(zbuffer, parseHeader, old(Room())))
    {
      hide InflateSpec.Blocks, InflateSpec.Header;
      if parseHeader {
        ok := ParseZlibHeader();
        if !ok { return; }
      }
      numBits, codeBuffer, hitZeofOnce, pos := 0, 0, false, 8 * zpos;
      assert Out() == [];
      ok := ParseBlocks();
    }
  }

  /** Decodes into a buffer that grows from `initialSize` bytes. What comes out is what the standards say, unless the
      input is in one of the named ways wider than they allow; what they allow and fits the room is decoded. */
  method ZlibDecodeMalloc(input: seq<Byte>, initialSize: nat, parseHeader: bool) returns (r: Option<seq<Byte>>)
    requires 0 < initialSize <= UINT_MAX
    ensures r.Some? ==> Wider(input, parseHeader, ZBuf.Grown(initialSize))
                        || exists next :: StandardInflated(input, parseHeader, ZBuf.Grown(initialSize))
                                          == Done(next, r.value)
    ensures r.None? ==> Lost(input, StandardInflated(input, parseHeader, ZBuf.Grown(initialSize)))
    ensures r.Some? ==> exists next :: Inflated(input, parseHeader, ZBuf.Grown(initialSize)) == Done(next, r.value)
    ensures r.None? ==> Lost(input, Inflated(input, parseHeader, ZBuf.Grown(initialSize)))
  {
    hide Inflated, Wider, StandardInflated, InflateSpec.Lost;
    InflatedIsStandard(input, parseHeader, ZBuf.Grown(initialSize));
    LostInBoth(input, StandardInflated(input, parseHeader, ZBuf.Grown(initialSize)),
               Inflated(input, parseHeader, ZBuf.Grown(initialSize)));
    var obuf := new Byte[initialSize];
    var a := new ZBuf(input, obuf, true);
    ghost var room := a.Room();
    var ok := a.ParseZlib(parseHeader);
    if !ok { return None; }
    assert Inflated(input, parseHeader, room) == Done(Inflated(input, parseHeader, room).next, a.Out());
    a.GrownBound();
    r := Some(a.zout[..a.zoutPos]);
  }

  lemma LostInBoth(s: seq<Byte>, standard: Outcome, taken: Outcome)
    requires standard == Wrong || standard == taken
    ensures Lost(s, taken) ==> Lost(s, standard)
  {
  }
}

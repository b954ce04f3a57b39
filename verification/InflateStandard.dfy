/**
The streams that RFC 1950 and RFC 1951 allow, and how much more the decoder takes. `InflateSpec` describes what the
decoder takes: it does not look at the window size in the header, at the upper limit of the number of literal codes or
at the checksum after the data. Here those rules are added, and shown to be all that differs.
 */
module InflateStandard {
  import opened Bits
  import opened InflateSpec
  import opened LsbStream

  // ---- the rules (sections 2.2 of RFC 1950 and 3.2.7 of RFC 1951) ----

  /** The window of a zlib stream is no larger than 32768 bytes. */
  predicate StandardHeader(s: seq<Byte>, i: nat) {
    Header(s, i) && s[i] / 16 <= 7
  }

  /** How far back a match may go: as far as the header says, or as distances can. */
  function WindowSize(s: seq<Byte>, header: bool): nat {
    if header && s != [] then Pow2(s[0] / 16 + 8) else 0x8000
  }

  /** Some match goes further back than the window. */
  ghost predicate FarItems(lit: seq<nat>, dist: seq<nat>, s: seq<Byte>, pos: nat, out: seq<Byte>, room: nat,
      window: nat)
    requires |out| <= room
    decreases room - |out|
  {
    match ReadItem(lit, dist, s, pos)
    case Malformed => false
    case Parsed(EndOfBlock, _) => false
    case Parsed(Literal(b), next) => |out| + 1 <= room && FarItems(lit, dist, s, next, out + [b], room, window)
    case Parsed(Match(length, distance), next) =>
      distance <= |out|
      && (distance > window
          || (|out| + length <= room && FarItems(lit, dist, s, next, Copied(out, length, distance), room, window)))
  }

  /** A block is against the rules: a dynamic one with codes for more than 286 literals and lengths, or one with a match
      that goes too far. */
  ghost predicate BlockWider(s: seq<Byte>, pos: nat, kind: nat, out: seq<Byte>, room: nat, window: nat)
    requires |out| <= room
  {
    if kind == 1 then FarItems(FixedCodes().lit, FixedCodes().dist, s, pos, out, room, window)
    else
      kind == 2
      && (Hlit(s, pos) > 286
          || match DynamicCodes(s, pos)
             case Malformed => false
             case Parsed(codes, next) => FarItems(codes.lit, codes.dist, s, next, out, room, window))
  }

  ghost function StandardBlocks(s: seq<Byte>, pos: nat, out: seq<Byte>, room: nat, window: nat): (r: Outcome)
    requires |out| <= room
    ensures r.Done? ==> r.next > pos && |r.out| <= room
    decreases 8 * |s| - pos
  {
    if pos >= 8 * |s| || BlockWider(s, pos + 3, Field(s, pos + 1, 2), out, room, window) then Wrong
    else
      match Block(s, pos + 3, Field(s, pos + 1, 2), out, room)
      case Wrong => Wrong
      case NoRoom => NoRoom
      case Done(next, out') =>
        if Field(s, pos, 1) == 1 then Done(next, out') else StandardBlocks(s, next, out', room, window)
  }

  /** The two sums of the Adler-32 checksum (section 8.2 of RFC 1950). */
  function Adler(out: seq<Byte>): (nat, nat) {
    if out == [] then (1, 0)
    else
      var before := Adler(out[..|out| - 1]);
      var a := (before.0 + out[|out| - 1]) % 65521;
      (a, (before.1 + a) % 65521)
  }

  /** The checksum stands on the first whole byte after the data, its highest byte first. */
  predicate Checked(s: seq<Byte>, next: nat, out: seq<Byte>) {
    var p, sums := (next + 7) / 8, Adler(out);
    p + 4 <= |s| && s[p] as nat * 256 + s[p + 1] == sums.1 && s[p + 2] as nat * 256 + s[p + 3] == sums.0
  }

  /** What the input decodes to by the standards. */
  ghost function StandardInflated(s: seq<Byte>, header: bool, room: nat): (r: Outcome)
    ensures r.Done? ==> |r.out| <= room
  {
    if header && !StandardHeader(s, 0) then Wrong
    else
      var r := StandardBlocks(s, if header then 16 else 0, [], room, WindowSize(s, header));
      if header && r.Done? && !Checked(s, r.next, r.out) then Wrong else r
  }

  // ---- what the decoder takes beyond the standards ----

  /** Some block that the decoder comes to is against the rules. */
  ghost predicate BlocksWider(s: seq<Byte>, pos: nat, out: seq<Byte>, room: nat, window: nat)
    requires |out| <= room
    decreases 8 * |s| - pos
  {
    pos < 8 * |s|
    && (BlockWider(s, pos + 3, Field(s, pos + 1, 2), out, room, window)
        || var r := Block(s, pos + 3, Field(s, pos + 1, 2), out, room);
           r.Done? && Field(s, pos, 1) != 1 && BlocksWider(s, r.next, r.out, room, window))
  }

  /** The ways in which the decoder takes more: too large a window, a block against the rules, no right checksum. */
  ghost predicate Wider(s: seq<Byte>, header: bool, room: nat) {
    var start := if header then 16 else 0;
    || (header && Header(s, 0) && s[0] / 16 > 7)
    || BlocksWider(s, start, [], room, WindowSize(s, header))
    || (header && var r := Blocks(s, start, [], room); r.Done? && !Checked(s, r.next, r.out))
  }

  lemma {:induction false} BlocksAreStandard(s: seq<Byte>, pos: nat, out: seq<Byte>, room: nat, window: nat)
    requires |out| <= room
    ensures StandardBlocks(s, pos, out, room, window)
            == if BlocksWider(s, pos, out, room, window) then Wrong else Blocks(s, pos, out, room)
    decreases 8 * |s| - pos
  {
    hide Block, BlockWider;
    if pos < 8 * |s| {
      var r := Block(s, pos + 3, Field(s, pos + 1, 2), out, room);
      if r.Done? && Field(s, pos, 1) != 1 { BlocksAreStandard(s, r.next, r.out, room, window); }
    }
  }

  /** The standards allow exactly what the decoder takes, but for those. */
  lemma InflatedIsStandard(s: seq<Byte>, header: bool, room: nat)
    ensures StandardInflated(s, header, room) == if Wider(s, header, room) then Wrong else Inflated(s, header, room)
  {
    hide Blocks, StandardBlocks, BlocksWider, Checked, WindowSize;
    BlocksAreStandard(s, if header then 16 else 0, [], room, WindowSize(s, header));
  }
}

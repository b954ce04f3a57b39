/**
What a DEFLATE stream means: RFC 1951 as functions of the input bytes and a bit position, with
no bit buffer, no tables and no look-ahead. Reading past the end of the input yields zero bits.
Rules that the decoder does not enforce are not here; `InflateStandard` has them.
 */
module InflateSpec {
  import opened Bits
  import opened CanonicalCode
  import opened LsbStream
  import opened Wrappers

  datatype Parsed<+T> = Parsed(value: T, next: nat) | Malformed

  /** One Huffman-coded symbol; 16 bits are more than any code has. */
  ghost function Symbol(lens: seq<nat>, s: seq<Byte>, pos: nat): (r: Parsed<nat>)
    ensures r.Parsed? ==> r.next > pos
  {
    match Decode(lens, Window(s, pos, 16))
    case None => Malformed
    case Some(n) => Parsed(n, pos + lens[n])
  }

  // ---- literals and matches (3.2.5) ----

  /** The extra bits of length code `257 + k`. */
  function LengthExtra(k: nat): nat {
    if k < 8 || k == 28 then 0 else (k - 4) / 4
  }

  /** The least length of length code `257 + k`: the codes divide up 3, 4, 5, ... in order, except
      that the last one is 258 alone. */
  function LengthBase(k: nat): nat {
    if k == 28 then 258 else if k == 0 then 3 else LengthBase(k - 1) + Pow2(LengthExtra(k - 1))
  }

  function DistanceExtra(k: nat): nat {
    if k < 2 then 0 else (k - 2) / 2
  }

  function DistanceBase(k: nat): nat {
    if k == 0 then 1 else DistanceBase(k - 1) + Pow2(DistanceExtra(k - 1))
  }

  datatype Item = Literal(value: Byte) | Match(length: nat, distance: nat) | EndOfBlock

  ghost function ReadItem(lit: seq<nat>, dist: seq<nat>, s: seq<Byte>, pos: nat): (r: Parsed<Item>)
    ensures r.Parsed? ==> r.next > pos
    ensures r.Parsed? && r.value.Match? ==> r.value.length > 0 && r.value.distance > 0
  {
    match Symbol(lit, s, pos)
    case Malformed => Malformed
    case Parsed(n, next) =>
      if n < 256 then Parsed(Literal(n), next)
      else if n == 256 then Parsed(EndOfBlock, next)
      else if n >= 286 then Malformed
      else ReadMatch(n - 257, dist, s, next)
  }

  ghost function ReadMatch(k: nat, dist: seq<nat>, s: seq<Byte>, pos: nat): (r: Parsed<Item>)
    requires k < 29
    ensures r.Parsed? ==> r.next > pos && r.value.Match? && r.value.length > 0 && r.value.distance > 0
  {
    BasesPositive(k);
    var length := LengthBase(k) + Field(s, pos, LengthExtra(k));
    match Symbol(dist, s, pos + LengthExtra(k))
    case Malformed => Malformed
    case Parsed(d, next) =>
      if d >= 30 then Malformed
      else
        BasesPositive(d);
        Parsed(Match(length, DistanceBase(d) + Field(s, next, DistanceExtra(d))), next + DistanceExtra(d))
  }

  lemma {:induction false} BasesPositive(k: nat)
    ensures LengthBase(k) > 0 && DistanceBase(k) > 0
  {
    if k > 0 { BasesPositive(k - 1); }
  }

  /** The last `distance` bytes of the output, repeated: copied bytes can be copied again. */
  function Copied(out: seq<Byte>, length: nat, distance: nat): (r: seq<Byte>)
    requires 0 < distance <= |out|
    ensures |r| == |out| + length
    decreases length
  {
    if length == 0 then out else Copied(out + [out[|out| - distance]], length - 1, distance)
  }

  /** A decoded stretch ends at bit `next` with output `out`; or the stream is wrong; or the output
      does not fit into `room` bytes. */
  datatype Outcome = Done(next: nat, out: seq<Byte>) | Wrong | NoRoom

  /** The items of one block, appended to `out`. */
  ghost function Items(lit: seq<nat>, dist: seq<nat>, s: seq<Byte>, pos: nat, out: seq<Byte>, room: nat): (r: Outcome)
    requires |out| <= room
    ensures r.Done? ==> r.next > pos && |r.out| <= room
    decreases room - |out|
  {
    match ReadItem(lit, dist, s, pos)
    case Malformed => Wrong
    case Parsed(EndOfBlock, next) => Done(next, out)
    case Parsed(Literal(b), next) =>
      if |out| + 1 > room then NoRoom else Items(lit, dist, s, next, out + [b], room)
    case Parsed(Match(length, distance), next) =>
      if distance > |out| then Wrong
      else if |out| + length > room then NoRoom
      else Items(lit, dist, s, next, Copied(out, length, distance), room)
  }

  // ---- code lengths (3.2.6 and 3.2.7) ----

  /** The order in which the lengths of the code length codes are sent. */
  const ORDER: seq<nat> := [16, 17, 18, 0, 8, 7, 9, 6, 10, 5, 11, 4, 12, 3, 13, 2, 14, 1, 15]

  /** The `count` three-bit lengths at `pos`, put in their places. */
  function CodeLengthLengths(s: seq<Byte>, pos: nat, count: nat): (lens: seq<nat>)
    requires count <= 19
    ensures |lens| == 19
  {
    if count == 0 then seq(19, _ => 0)
    else CodeLengthLengths(s, pos, count - 1)[ORDER[count - 1] := Field(s, pos + 3 * (count - 1), 3)]
  }

  function Repeat(v: nat, n: nat): seq<nat> {
    seq(n, _ => v)
  }

  /** Code lengths up to a total of `total`, run-length encoded with the code `cl`. */
  ghost function ReadLengths(cl: seq<nat>, s: seq<Byte>, pos: nat, total: nat, acc: seq<nat>): (r: Parsed<seq<nat>>)
    requires |acc| <= total
    ensures r.Parsed? ==> r.next >= pos && |r.value| == total
    decreases total - |acc|
  {
    if |acc| == total then Parsed(acc, pos)
    else
      match Symbol(cl, s, pos)
      case Malformed => Malformed
      case Parsed(c, next) =>
        if c < 16 then ReadLengths(cl, s, next, total, acc + [c])
        else if c == 16 then
          if acc == [] then Malformed
          else Run(cl, s, next, total, acc, acc[|acc| - 1], 3, 2)
        else if c == 17 then Run(cl, s, next, total, acc, 0, 3, 3)
        else if c == 18 then Run(cl, s, next, total, acc, 0, 11, 7)
        else Malformed
  }

  /** A run of `v`, `least` long or longer by the number in the next `extra` bits. */
  ghost function Run(cl: seq<nat>, s: seq<Byte>, pos: nat, total: nat, acc: seq<nat>, v: nat, least: nat, extra: nat)
    : (r: Parsed<seq<nat>>)
    requires |acc| < total && least > 0
    ensures r.Parsed? ==> r.next >= pos && |r.value| == total
    decreases total - |acc|, 0
  {
    var n := least + Field(s, pos, extra);
    if |acc| + n > total then Malformed
    else ReadLengths(cl, s, pos + extra, total, acc + Repeat(v, n))
  }

  datatype Codes = Codes(lit: seq<nat>, dist: seq<nat>)

  /** The counts that begin a dynamic block: how many literal, distance and code length codes. The first may be up to
      288. */
  function Hlit(s: seq<Byte>, pos: nat): nat { Field(s, pos, 5) + 257 }

  function Hdist(s: seq<Byte>, pos: nat): nat { Field(s, pos + 5, 5) + 1 }

  function Hclen(s: seq<Byte>, pos: nat): (n: nat)
    ensures n <= 19
  {
    LsbValBound(Window(s, pos + 10, 4));
    Powers();
    Field(s, pos + 10, 4) + 4
  }

  /** The code lengths that begin a dynamic block. */
  ghost function DynamicCodes(s: seq<Byte>, pos: nat): (r: Parsed<Codes>)
    ensures r.Parsed? ==> r.next >= pos
  {
    var cl := CodeLengthLengths(s, pos + 14, Hclen(s, pos));
    if !Kraft(cl) then Malformed
    else
      match ReadLengths(cl, s, pos + 14 + 3 * Hclen(s, pos), Hlit(s, pos) + Hdist(s, pos), [])
      case Malformed => Malformed
      case Parsed(lens, next) => SplitCodes(lens, Hlit(s, pos), next)
  }

  /** The first `hlit` lengths are those of the literal and length code. */
  ghost function SplitCodes(lens: seq<nat>, hlit: nat, next: nat): (r: Parsed<Codes>)
    requires hlit <= |lens|
    ensures r.Parsed? ==> r.next == next
  {
    if Kraft(lens[..hlit]) && Kraft(lens[hlit..]) then Parsed(Codes(lens[..hlit], lens[hlit..]), next) else Malformed
  }

  /** The code lengths of blocks with fixed codes. */
  function FixedCodes(): Codes {
    Codes(seq(288, n requires 0 <= n < 288 => if n < 144 then 8 else if n < 256 then 9 else if n < 280 then 7 else 8),
          seq(32, _ => 5))
  }

  // ---- blocks (3.2.3 and 3.2.4) ----

  /** A stored block: after the rest of the current byte, a length, its complement and that many
      bytes, which must all be there. */
  function Stored(s: seq<Byte>, pos: nat, out: seq<Byte>, room: nat): (r: Outcome)
    ensures r.Done? ==> r.next > pos && |r.out| <= room
  {
    var p := (pos + 7) / 8;
    var len, nlen := Field(s, 8 * p, 16), Field(s, 8 * p + 16, 16);
    if len + nlen != 0xFFFF || p + 4 + len > |s| then Wrong
    else if |out| + len > room then NoRoom
    else Done(8 * (p + 4 + len), out + s[p + 4..p + 4 + len])
  }

  ghost function Block(s: seq<Byte>, pos: nat, kind: nat, out: seq<Byte>, room: nat): (r: Outcome)
    requires |out| <= room
    ensures r.Done? ==> r.next > pos && |r.out| <= room
  {
    if kind == 0 then Stored(s, pos, out, room)
    else if kind == 1 then Items(FixedCodes().lit, FixedCodes().dist, s, pos, out, room)
    else if kind == 2 then
      match DynamicCodes(s, pos)
      case Malformed => Wrong
      case Parsed(codes, next) => Items(codes.lit, codes.dist, s, next, out, room)
    else Wrong
  }

  /** Blocks up to and including the final one. Every block begins inside the input. */
  ghost function Blocks(s: seq<Byte>, pos: nat, out: seq<Byte>, room: nat): (r: Outcome)
    requires |out| <= room
    ensures r.Done? ==> r.next > pos && |r.out| <= room
    decreases 8 * |s| - pos
  {
    if pos >= 8 * |s| then Wrong
    else
      match Block(s, pos + 3, Field(s, pos + 1, 2), out, room)
      case Wrong => Wrong
      case NoRoom => NoRoom
      case Done(next, out') => if Field(s, pos, 1) == 1 then Done(next, out') else Blocks(s, next, out', room)
  }

  /** A zlib header (section 2.2 of RFC 1950) with data after it: compression method 8, no preset
      dictionary, and check bits that make the two bytes a multiple of 31; the window may have any size. */
  predicate Header(s: seq<Byte>, i: nat) {
    i + 2 < |s| && s[i] % 16 == 8 && s[i + 1] / 32 % 2 == 0 && (s[i] as nat * 256 + s[i + 1]) % 31 == 0
  }

  /** What the whole input decodes to. */
  ghost function Inflated(s: seq<Byte>, header: bool, room: nat): (r: Outcome)
    ensures r.Done? ==> |r.out| <= room
  {
    if header && !Header(s, 0) then Wrong else Blocks(s, if header then 16 else 0, [], room)
  }

  // ---- one step of each definition ----

  lemma MatchStep(k: nat, dist: seq<nat>, s: seq<Byte>, pos: nat, mid: nat, d: nat, next: nat)
    requires k < 29 && d < 30 && mid == pos + LengthExtra(k) && Symbol(dist, s, mid) == Parsed(d, next)
    ensures ReadMatch(k, dist, s, pos)
            == Parsed(Match(LengthBase(k) + Field(s, pos, LengthExtra(k)),
                            DistanceBase(d) + Field(s, next, DistanceExtra(d))),
                      next + DistanceExtra(d))
  {
    hide Symbol, Field, LengthBase, DistanceBase;
  }

  /** Parsing cannot succeed within the input. */
  ghost predicate Hopeless<T>(s: seq<Byte>, r: Parsed<T>) {
    r.Malformed? || r.next > 8 * |s|
  }

  ghost predicate Lost(s: seq<Byte>, r: Outcome) {
    !r.Done? || r.next > 8 * |s|
  }

  lemma MatchFails(k: nat, dist: seq<nat>, s: seq<Byte>, pos: nat, mid: nat)
    requires k < 29 && mid == pos + LengthExtra(k)
    requires Symbol(dist, s, mid) == Malformed || mid > 8 * |s| || Symbol(dist, s, mid).value >= 30
    ensures Hopeless(s, ReadMatch(k, dist, s, pos))
  {
  }

  lemma ItemFails(lit: seq<nat>, dist: seq<nat>, s: seq<Byte>, pos: nat, out: seq<Byte>, room: nat)
    requires |out| <= room && Hopeless(s, ReadItem(lit, dist, s, pos))
    ensures Lost(s, Items(lit, dist, s, pos, out, room))
  {
  }

  lemma EndStep(lit: seq<nat>, dist: seq<nat>, s: seq<Byte>, pos: nat, out: seq<Byte>, room: nat, next: nat)
    requires |out| <= room && ReadItem(lit, dist, s, pos) == Parsed(EndOfBlock, next)
    ensures Items(lit, dist, s, pos, out, room) == Done(next, out)
  {
  }

  lemma LiteralStep(lit: seq<nat>, dist: seq<nat>, s: seq<Byte>, pos: nat, out: seq<Byte>, room: nat, b: Byte,
      next: nat)
    requires |out| <= room && ReadItem(lit, dist, s, pos) == Parsed(Literal(b), next)
    ensures Items(lit, dist, s, pos, out, room)
            == if |out| + 1 > room then NoRoom else Items(lit, dist, s, next, out + [b], room)
  {
  }

  lemma CopyStep(lit: seq<nat>, dist: seq<nat>, s: seq<Byte>, pos: nat, out: seq<Byte>, room: nat,
                 len: nat, distance: nat, next: nat)
    requires |out| <= room && ReadItem(lit, dist, s, pos) == Parsed(Match(len, distance), next)
    ensures distance > 0
    ensures Items(lit, dist, s, pos, out, room)
            == if distance > |out| then Wrong
               else if |out| + len > room then NoRoom
               else Items(lit, dist, s, next, Copied(out, len, distance), room)
  {
  }

  lemma LengthStep(cl: seq<nat>, s: seq<Byte>, pos: nat, total: nat, acc: seq<nat>, c: nat, next: nat)
    requires |acc| < total && Symbol(cl, s, pos) == Parsed(c, next) && c < 16
    ensures ReadLengths(cl, s, pos, total, acc) == ReadLengths(cl, s, next, total, acc + [c])
  {
    hide Symbol;
  }

  /** The least count and the number of extra bits of the run codes 16, 17 and 18. */
  function RunLeast(c: nat): nat { if c == 18 then 11 else 3 }

  function RunExtra(c: nat): nat { if c == 16 then 2 else if c == 17 then 3 else 7 }

  lemma RunStep(cl: seq<nat>, s: seq<Byte>, pos: nat, total: nat, acc: seq<nat>, c: nat, next: nat)
    requires |acc| < total && Symbol(cl, s, pos) == Parsed(c, next) && 16 <= c < 19
    ensures var n := RunLeast(c) + Field(s, next, RunExtra(c));
            ReadLengths(cl, s, pos, total, acc)
            == if (c == 16 && acc == []) || |acc| + n > total then Malformed
               else ReadLengths(cl, s, next + RunExtra(c), total,
                                acc + Repeat(if c == 16 then acc[|acc| - 1] else 0, n))
  {
    hide Symbol, Field;
  }

  lemma DynamicStep(s: seq<Byte>, pos: nat)
    ensures var cl := CodeLengthLengths(s, pos + 14, Hclen(s, pos));
            DynamicCodes(s, pos)
            == if !Kraft(cl) then Malformed
               else match ReadLengths(cl, s, pos + 14 + 3 * Hclen(s, pos), Hlit(s, pos) + Hdist(s, pos), [])
                    case Malformed => Malformed
                    case Parsed(lens, next) => SplitCodes(lens, Hlit(s, pos), next)
  {
  }

  lemma LengthsFail(cl: seq<nat>, s: seq<Byte>, pos: nat, total: nat, acc: seq<nat>)
    requires |acc| < total
    requires Symbol(cl, s, pos) == Malformed || pos > 8 * |s| || Symbol(cl, s, pos).value >= 19
    ensures Hopeless(s, ReadLengths(cl, s, pos, total, acc))
  {
    hide Symbol, Field;
  }

  lemma BlocksStep(s: seq<Byte>, pos: nat, out: seq<Byte>, room: nat)
    requires |out| <= room
    ensures var block := Block(s, pos + 3, Field(s, pos + 1, 2), out, room);
            if block.Done?
            then pos < 8 * |s| && block.next > pos
                 && Blocks(s, pos, out, room) == if Field(s, pos, 1) == 1 then block
                    else Blocks(s, block.next, block.out, room)
            else !Blocks(s, pos, out, room).Done?
    ensures Lost(s, Block(s, pos + 3, Field(s, pos + 1, 2), out, room)) ==> Lost(s, Blocks(s, pos, out, room))
  {
    if pos >= 8 * |s| {
      FieldBeyond(s, pos + 1, 2);
      StoredBeyond(s, pos + 3, out, room);
    }
  }

  lemma StoredBeyond(s: seq<Byte>, pos: nat, out: seq<Byte>, room: nat)
    requires pos >= 8 * |s|
    ensures Stored(s, pos, out, room) == Wrong
  {
    var p := (pos + 7) / 8;
    FieldBeyond(s, 8 * p, 16);
    FieldBeyond(s, 8 * p + 16, 16);
  }
}

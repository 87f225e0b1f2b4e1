/** The binary trace of the ICFP Programming Contest 2018 task description
    (its "Trace" section): the writer emits each round's commands in
    ascending bot-id order, one or two bytes per command; the reader turns a
    byte stream back into commands. Bit fields written with `or` and `shl`
    occupy disjoint bits, so they are sums of multiples of powers of two
    here, and `shr`/`and` on non-negative values are `/` and `%`. */
module Trace {
  import opened Geometry
  import opened Ordered
  import opened Wrappers
  import opened Commands

  /** A byte of the stream as `DataInputStream.read` returns it. */
  type Octet = b: int | 0 <= b < 256

  const HaltByte: Octet := 0xFF
  const WaitByte: Octet := 0xFE
  const FlipByte: Octet := 0xFD
  const SMoveOp := 4
  const LMoveOp := 12
  const FillOp := 3
  const FissionOp := 5
  const FusionPOp := 7
  const FusionSOp := 6

  // ---------------------------------------------------------------------
  // Field encoders (`TraceWriter` companion)

  /** 1, 2 or 3 for a linear delta along x, y or z. */
  function LinearAxis(d: Delta): (a: int)
    requires Linear(d)
    ensures 1 <= a <= 3
    ensures a == 1 ==> d.dy == 0 && d.dz == 0
    ensures a == 2 ==> d.dx == 0 && d.dz == 0
    ensures a == 3 ==> d.dx == 0 && d.dy == 0
  {
    if d.dx != 0 then 1 else if d.dy != 0 then 2 else 3
  }

  /** The signed length of a linear delta along its axis. */
  function Length(d: Delta): (n: int)
    requires Linear(d)
    ensures n != 0 && Abs(n) == Mlen(d)
  {
    if d.dx != 0 then d.dx else if d.dy != 0 then d.dy else d.dz
  }

  function ShortCode(d: Delta): (v: int)
    requires ShortLinear(d)
    ensures 0 <= v <= 10 && v != 5
  {
    Length(d) + 5
  }

  function LongCode(d: Delta): (v: int)
    requires LongLinear(d)
    ensures 0 <= v <= 30 && v != 15
  {
    Length(d) + 15
  }

  function NearCode(d: Delta): (v: int)
    requires Near(d)
    ensures 0 <= v <= 26 && v != 13
  {
    (d.dx + 1) * 9 + (d.dy + 1) * 3 + (d.dz + 1)
  }

  /** The deltas each command carries satisfy the writer's assertions. */
  predicate Encodable(c: Command) {
    match c
    case SMove(d) => LongLinear(d)
    case LMove(d0, d1) => ShortLinear(d0) && ShortLinear(d1)
    case Fill(d) => Near(d)
    case Fission(d, _) => Near(d)
    case FusionP(d) => Near(d)
    case FusionS(d) => Near(d)
    case _ => true
  }

  /** A fission's m fits the byte `writeByte` keeps. */
  predicate FitsByte(c: Command) {
    c.Fission? ==> 0 <= c.m < 256
  }

  /** The bytes `onStep` writes for one command. `writeByte(m)` keeps the
      low eight bits of m. */
  function Encode(c: Command): (bs: seq<Octet>)
    requires Encodable(c)
    ensures |bs| == if c.SMove? || c.LMove? || c.Fission? then 2 else 1
    ensures bs[0] == HaltByte <==> c.Halt?
    ensures bs[0] == WaitByte <==> c.Wait?
    ensures bs[0] == FlipByte <==> c.Flip?
  {
    match c
    case Halt => [HaltByte]
    case Wait => [WaitByte]
    case Flip => [FlipByte]
    case SMove(d) => [SMoveOp + 16 * LinearAxis(d), LongCode(d)]
    case LMove(d0, d1) =>
      [LMoveOp + 64 * LinearAxis(d1) + 16 * LinearAxis(d0), 16 * ShortCode(d1) + ShortCode(d0)]
    case Fill(d) => [FillOp + 8 * NearCode(d)]
    case Fission(d, m) => [FissionOp + 8 * NearCode(d), m % 256]
    case FusionP(d) => [FusionPOp + 8 * NearCode(d)]
    case FusionS(d) => [FusionSOp + 8 * NearCode(d)]
  }

  /** The commands' encodings, one after another. */
  function EncodeAll(cs: seq<Command>): (bs: seq<Octet>)
    requires forall i :: 0 <= i < |cs| ==> Encodable(cs[i])
    ensures |cs| <= |bs| <= 2 * |cs|
  {
    if |cs| == 0 then [] else Encode(cs[0]) + EncodeAll(cs[1..])
  }

  /** A round's commands in ascending bot-id order (`SortedMap` iteration). */
  function InIdOrder(round: map<int, Command>): (cs: seq<Command>)
    ensures |cs| == |round|
    ensures forall i :: 0 <= i < |cs| ==>
      Ascending(round.Keys)[i] in round && cs[i] == round[Ascending(round.Keys)[i]]
  {
    var ids := Ascending(round.Keys);
    seq(|ids|, i requires 0 <= i < |ids| => round[ids[i]])
  }

  /** `onStep`: the round's commands in ascending bot-id order. */
  function EncodeRound(round: map<int, Command>): (bs: seq<Octet>)
    requires forall id | id in round :: Encodable(round[id])
    ensures |round| <= |bs| <= 2 * |round|
  {
    var cs := InIdOrder(round);
    assert forall i :: 0 <= i < |cs| ==> Encodable(cs[i]);
    EncodeAll(cs)
  }

  // ---------------------------------------------------------------------
  // Decoder (`TraceReader`)

  datatype DecodeError = InvalidInputStream

  /** `stream.read()` at position i: the byte, or -1 past the end. */
  function ReadAt(bs: seq<Octet>, i: nat): (v: int)
    ensures -1 <= v < 256
    ensures v == -1 <==> i >= |bs|
    ensures i < |bs| ==> v == bs[i]
  {
    if i < |bs| then bs[i] else -1
  }

  function ShortDelta(axis: int, v: int): (r: Result<Delta, DecodeError>)
    ensures r.Ok? <==> 1 <= axis <= 3
  {
    if axis == 1 then Ok(Delta(v - 5, 0, 0))
    else if axis == 2 then Ok(Delta(0, v - 5, 0))
    else if axis == 3 then Ok(Delta(0, 0, v - 5))
    else Err(InvalidInputStream)
  }

  function LongDelta(axis: int, v: int): (r: Result<Delta, DecodeError>)
    ensures r.Ok? <==> 1 <= axis <= 3
  {
    if axis == 1 then Ok(Delta(v - 15, 0, 0))
    else if axis == 2 then Ok(Delta(0, v - 15, 0))
    else if axis == 3 then Ok(Delta(0, 0, v - 15))
    else Err(InvalidInputStream)
  }

  /** Base-3 digits dx+1, dy+1, dz+1 of v (v = byte shr 3, so 0..31). */
  function NearDelta(v: nat): (d: Delta)
    ensures -1 <= d.dy <= 1 && -1 <= d.dz <= 1 && -1 <= d.dx
  {
    var dz := v % 3 - 1;
    var v0 := v / 3;
    var dy := v0 % 3 - 1;
    var v1 := v0 / 3;
    var dx := v1 - 1;
    Delta(dx, dy, dz)
  }

  /** How the LMove branch splits its fields: `Unmasked` as the reader is
      written (axis0 = byte shr 4, v0 = (byte1 shl 4) shr 4), `Masked` with
      the two-bit and four-bit masks the format calls for. */
  datatype LMoveFields = Unmasked | Masked

  /** The LMove branch: axes and short-linear codes of both legs. */
  function ReadLMove(b: Octet, byte1: int, fields: LMoveFields): (r: Result<Command, DecodeError>)
    requires -1 <= byte1 < 256
    ensures r.Ok? ==> r.value.LMove?
  {
    var axis0 := if fields == Masked then (b / 16) % 4 else b / 16;
    var axis1 := b / 64;
    var v0 := if fields == Masked then byte1 % 16 else byte1;
    var v1 := byte1 / 16;
    var d0 :- ShortDelta(axis0, v0);
    var d1 :- ShortDelta(axis1, v1);
    Ok(LMove(d0, d1))
  }

  /** One command from the front of the stream and the number of bytes
      consumed. A second byte read past the end is -1 and consumes nothing. */
  function ReadCommand(bs: seq<Octet>, fields: LMoveFields): (r: Result<(Command, nat), DecodeError>)
    requires |bs| > 0
    ensures r.Ok? ==> 1 <= r.value.1 <= |bs|
    ensures bs[0] == HaltByte ==> r == Ok((Halt, 1))
    ensures bs[0] == WaitByte ==> r == Ok((Wait, 1))
    ensures bs[0] == FlipByte ==> r == Ok((Flip, 1))
    ensures bs[0] < FlipByte && bs[0] % 8 < 3 ==> r.Err?
  {
    var b := bs[0];
    if b == HaltByte then Ok((Halt, 1))
    else if b == WaitByte then Ok((Wait, 1))
    else if b == FlipByte then Ok((Flip, 1))
    else
      var c :- ReadOperation(b, ReadAt(bs, 1), fields);
      Ok((c, if TwoBytes(c) && |bs| >= 2 then 2 else 1))
  }

  /** SMove, LMove and Fission take a second byte. */
  predicate TwoBytes(c: Command) {
    c.SMove? || c.LMove? || c.Fission?
  }

  /** The dispatch on the opcode in the low three bits; `next` is the
      following `read()`. */
  function ReadOperation(b: Octet, next: int, fields: LMoveFields): (r: Result<Command, DecodeError>)
    requires -1 <= next < 256
    ensures b % 8 < 3 ==> r.Err?
    ensures r.Ok? ==> (TwoBytes(r.value) <==> b % 8 == SMoveOp || b % 8 == FissionOp)
  {
    if b % 8 == SMoveOp then
      if (b / 8) % 2 == 0 then
        var d :- LongDelta(b / 16, next);
        Ok(SMove(d))
      else
        ReadLMove(b, next, fields)
    else if b % 8 == FillOp then Ok(Fill(NearDelta(b / 8)))
    else if b % 8 == FissionOp then Ok(Fission(NearDelta(b / 8), next))
    else if b % 8 == FusionPOp then Ok(FusionP(NearDelta(b / 8)))
    else if b % 8 == FusionSOp then Ok(FusionS(NearDelta(b / 8)))
    else Err(InvalidInputStream)
  }

  /** `readAllCommands`: commands until the stream is exhausted; the first
      invalid byte aborts the whole read. */
  function ReadAllWith(bs: seq<Octet>, fields: LMoveFields): (r: Result<seq<Command>, DecodeError>)
    ensures r.Ok? ==> |r.value| <= |bs|
    decreases |bs|
  {
    if |bs| == 0 then Ok([])
    else
      var (c, n) :- ReadCommand(bs, fields);
      var rest :- ReadAllWith(bs[n..], fields);
      Ok([c] + rest)
  }

  /** The reader with the LMove fields masked. */
  function ReadAll(bs: seq<Octet>): (r: Result<seq<Command>, DecodeError>)
    ensures r.Ok? ==> |r.value| <= |bs|
  {
    ReadAllWith(bs, Masked)
  }

  // ---------------------------------------------------------------------
  // Round trip

  /** The short and long decoders invert the encoders on every axis. */
  lemma LinearRoundTrip(d: Delta)
    requires Linear(d)
    ensures Mlen(d) <= 5 ==> ShortDelta(LinearAxis(d), ShortCode(d)) == Ok(d)
    ensures Mlen(d) <= 15 ==> LongDelta(LinearAxis(d), LongCode(d)) == Ok(d)
  {
  }

  /** The near decoder inverts the near encoder on all 18 near deltas. */
  lemma NearRoundTrip(d: Delta)
    requires Near(d)
    ensures NearDelta(NearCode(d)) == d
  {
    NearDeltasAreTheNearDeltas(d);
    Base3Digits(d.dx + 1, d.dy + 1, d.dz + 1);
  }

  lemma Base3Digits(a: int, b: int, c: int)
    requires 0 <= a < 3 && 0 <= b < 3 && 0 <= c < 3
    ensures (a * 9 + b * 3 + c) % 3 == c && (a * 9 + b * 3 + c) / 3 == a * 3 + b
    ensures (a * 3 + b) % 3 == b && (a * 3 + b) / 3 == a
  {
  }

  /** An opcode in the low three bits under a field in the bits above. */
  lemma LowBits(op: int, field: int)
    requires 0 <= op < 8 && 0 <= field
    ensures (op + 8 * field) % 8 == op && (op + 8 * field) / 8 == field
  {
  }

  /** The fields of an SMove or LMove first byte. */
  lemma MoveByte(a1: int, a0: int)
    requires 0 <= a1 < 4 && 1 <= a0 <= 3
    ensures var b := LMoveOp + 64 * a1 + 16 * a0;
      b % 8 == SMoveOp && (b / 8) % 2 == 1 && (b / 16) % 4 == a0 && b / 16 == 4 * a1 + a0 && b / 64 == a1
    ensures var b := SMoveOp + 16 * a0;
      b % 8 == SMoveOp && (b / 8) % 2 == 0 && b / 16 == a0
  {
  }

  /** The two nibbles of an LMove second byte. */
  lemma Nibbles(hi: int, lo: int)
    requires 0 <= hi < 16 && 0 <= lo < 16
    ensures (16 * hi + lo) % 16 == lo && (16 * hi + lo) / 16 == hi
  {
  }

  /** The corrected LMove branch recovers both legs. */
  lemma LMoveRoundTrip(d0: Delta, d1: Delta)
    requires ShortLinear(d0) && ShortLinear(d1)
    ensures var bs := Encode(LMove(d0, d1));
      ReadLMove(bs[0], bs[1], Masked) == Ok(LMove(d0, d1))
  {
    var a0, a1, c0, c1 := LinearAxis(d0), LinearAxis(d1), ShortCode(d0), ShortCode(d1);
    EncodeLMove(d0, d1);
    LinearRoundTrip(d0);
    LinearRoundTrip(d1);
    ReadLMoveFields(a0, a1, c0, c1, d0, d1);
  }

  lemma EncodeLMove(d0: Delta, d1: Delta)
    requires ShortLinear(d0) && ShortLinear(d1)
    ensures Encode(LMove(d0, d1))[0] == LMoveOp + 64 * LinearAxis(d1) + 16 * LinearAxis(d0)
    ensures Encode(LMove(d0, d1))[1] == 16 * ShortCode(d1) + ShortCode(d0)
  {
  }

  /** The masked LMove branch on the two bytes built from both legs' axes
      and codes. */
  lemma ReadLMoveFields(a0: int, a1: int, c0: int, c1: int, d0: Delta, d1: Delta)
    requires 1 <= a0 <= 3 && 1 <= a1 <= 3 && 0 <= c0 < 16 && 0 <= c1 < 16
    requires ShortDelta(a0, c0) == Ok(d0) && ShortDelta(a1, c1) == Ok(d1)
    ensures ReadLMove(LMoveOp + 64 * a1 + 16 * a0, 16 * c1 + c0, Masked) == Ok(LMove(d0, d1))
  {
    MoveByte(a1, a0);
    Nibbles(c1, c0);
  }

  lemma ReadSMoveEncoded(d: Delta)
    requires LongLinear(d)
    ensures var bs := Encode(SMove(d)); ReadOperation(bs[0], bs[1], Masked) == Ok(SMove(d))
  {
    MoveByte(0, LinearAxis(d));
    LinearRoundTrip(d);
  }

  lemma ReadLMoveEncoded(d0: Delta, d1: Delta)
    requires ShortLinear(d0) && ShortLinear(d1)
    ensures var bs := Encode(LMove(d0, d1)); ReadOperation(bs[0], bs[1], Masked) == Ok(LMove(d0, d1))
  {
    LMoveRoundTrip(d0, d1);
    MoveByte(LinearAxis(d1), LinearAxis(d0));
  }

  /** The opcode of a command with a near delta. */
  function NearOp(c: Command): int
    requires c.Fill? || c.Fission? || c.FusionP? || c.FusionS?
  {
    match c
    case Fill(_) => FillOp
    case Fission(_, _) => FissionOp
    case FusionP(_) => FusionPOp
    case FusionS(_) => FusionSOp
  }

  /** The four commands with a near delta; `next` is what the following
      `read()` returns, which only a fission keeps. */
  lemma ReadNearEncoded(c: Command, next: int)
    requires c.Fill? || c.Fission? || c.FusionP? || c.FusionS?
    requires Encodable(c) && -1 <= next < 256
    ensures ReadOperation(Encode(c)[0], next, Masked) == Ok(if c.Fission? then Fission(c.delta, next) else c)
  {
    var n := NearCode(c.delta);
    assert Encode(c)[0] == NearOp(c) + 8 * n;
    NearRoundTrip(c.delta);
    ReadNearOp(NearOp(c), n, next, c.delta);
  }

  /** The opcode in the low three bits selects the command; the near code
      above it decodes to d. */
  lemma ReadNearOp(op: int, n: int, next: int, d: Delta)
    requires op == FillOp || op == FissionOp || op == FusionPOp || op == FusionSOp
    requires 0 <= n <= 26 && -1 <= next < 256 && NearDelta(n) == d
    ensures 0 <= op + 8 * n < 256
    ensures var r := ReadOperation(op + 8 * n, next, Masked);
      && (op == FillOp ==> r == Ok(Fill(d)))
      && (op == FissionOp ==> r == Ok(Fission(d, next)))
      && (op == FusionPOp ==> r == Ok(FusionP(d)))
      && (op == FusionSOp ==> r == Ok(FusionS(d)))
  {
    LowBits(op, n);
  }

  /** Reading a command's encoding, whatever follows it, gives back the
      command and consumes exactly its bytes. */
  lemma ReadEncoded(c: Command, rest: seq<Octet>)
    requires Encodable(c) && FitsByte(c)
    ensures ReadCommand(Encode(c) + rest, Masked) == Ok((c, |Encode(c)|))
  {
    var e := Encode(c);
    var bs := e + rest;
    assert bs[0] == e[0];
    if !c.Halt? && !c.Wait? && !c.Flip? {
      assert ReadAt(bs, 1) == if |e| == 2 then e[1] else ReadAt(bs, 1);
      ReadOperationIgnoresNext(c, e[0], ReadAt(bs, 1));
    }
  }

  /** The opcode dispatch inverts the first byte of every encoding, and the
      second byte of a two-byte one; a one-byte command does not look at
      the byte after it. */
  lemma ReadOperationIgnoresNext(c: Command, b: Octet, next: int)
    requires Encodable(c) && FitsByte(c) && !c.Halt? && !c.Wait? && !c.Flip?
    requires -1 <= next < 256 && b == Encode(c)[0]
    requires |Encode(c)| == 2 ==> next == Encode(c)[1]
    ensures ReadOperation(b, next, Masked) == Ok(c)
  {
    if c.SMove? {
      ReadSMoveEncoded(c.delta);
    } else if c.LMove? {
      ReadLMoveEncoded(c.delta0, c.delta1);
    } else {
      ReadNearEncoded(c, next);
      assert c.Fission? ==> next == c.m;
    }
  }

  /** Reading what the writer wrote gives back the commands, in order. */
  lemma {:induction false} ReadAllEncodeAll(cs: seq<Command>)
    requires forall i :: 0 <= i < |cs| ==> Encodable(cs[i]) && FitsByte(cs[i])
    ensures ReadAll(EncodeAll(cs)) == Ok(cs)
  {
    if |cs| > 0 {
      var e := Encode(cs[0]);
      var tail := EncodeAll(cs[1..]);
      ReadEncoded(cs[0], tail);
      assert (e + tail)[|e|..] == tail;
      ReadAllEncodeAll(cs[1..]);
      assert [cs[0]] + cs[1..] == cs;
    }
  }

  /** Outside the l-move branch the dispatch never looks at the l-move
      fields, so the reader as written agrees with the masked one. */
  lemma FieldsOnlyInLMove(b: Octet, next: int)
    requires -1 <= next < 256
    requires ReadOperation(b, next, Masked).Ok? && !ReadOperation(b, next, Masked).value.LMove?
    ensures ReadOperation(b, next, Unmasked) == ReadOperation(b, next, Masked)
  {
  }

  /** The reader as written decodes every encoding but an l-move's. */
  lemma ReadEncodedAsWritten(c: Command, rest: seq<Octet>)
    requires Encodable(c) && FitsByte(c) && !c.LMove?
    ensures ReadCommand(Encode(c) + rest, Unmasked) == Ok((c, |Encode(c)|))
  {
    var bs := Encode(c) + rest;
    ReadEncoded(c, rest);
    if bs[0] != HaltByte && bs[0] != WaitByte && bs[0] != FlipByte {
      FieldsOnlyInLMove(bs[0], ReadAt(bs, 1));
    }
  }

  /** Reading with the fields as the reader is written gives back every
      stream of encodable commands without an l-move. */
  lemma {:induction false} ReadAllAsWrittenEncodeAll(cs: seq<Command>)
    requires forall i :: 0 <= i < |cs| ==> Encodable(cs[i]) && FitsByte(cs[i]) && !cs[i].LMove?
    ensures ReadAllWith(EncodeAll(cs), Unmasked) == Ok(cs)
  {
    if |cs| > 0 {
      var e := Encode(cs[0]);
      var tail := EncodeAll(cs[1..]);
      ReadEncodedAsWritten(cs[0], tail);
      assert (e + tail)[|e|..] == tail;
      ReadAllAsWrittenEncodeAll(cs[1..]);
      assert [cs[0]] + cs[1..] == cs;
    }
  }

  /** A round written by `onStep` reads back as its commands in ascending
      bot-id order. */
  lemma ReadRound(round: map<int, Command>)
    requires forall id | id in round :: Encodable(round[id]) && FitsByte(round[id])
    ensures ReadAll(EncodeRound(round)) == Ok(InIdOrder(round))
  {
    var cs := InIdOrder(round);
    assert forall i :: 0 <= i < |cs| ==> Encodable(cs[i]) && FitsByte(cs[i]);
    ReadAllEncodeAll(cs);
  }

  /** `writeByte` keeps only the low eight bits of a fission's m, so an m
      outside 0..255 reads back reduced modulo 256. */
  lemma FissionArgumentWraps(d: Delta, m: int)
    requires Near(d)
    ensures ReadAll(Encode(Fission(d, m))) == Ok([Fission(d, m % 256)])
  {
    var bs := Encode(Fission(d, m));
    assert bs == Encode(Fission(d, m % 256));
    ReadAllEncodeAll([Fission(d, m % 256)]);
    assert EncodeAll([Fission(d, m % 256)]) == bs;
  }

  /** A two-byte command cut off after its first byte reads its second
      byte as -1 without an error: an SMove of length -16, which no writer
      emits, and a fission with m = -1. */
  lemma TruncatedSecondByte(d: Delta, e: Delta, m: int)
    requires LongLinear(d) && Near(e)
    ensures var r := ReadCommand([Encode(SMove(d))[0]], Masked);
      r.Ok? && r.value.0.SMove? && Mlen(r.value.0.delta) == 16 && !LongLinear(r.value.0.delta)
    ensures ReadCommand([Encode(Fission(e, m))[0]], Masked) == Ok((Fission(e, -1), 1))
  {
    MoveByte(0, LinearAxis(d));
    var b := Encode(SMove(d))[0];
    assert ReadOperation(b, -1, Masked).Ok?;
    ReadNearEncoded(Fission(e, m), -1);
  }

  /** As written, the reader rejects every LMove the writer emits: the
      first byte shifted right by four still holds axis1's bits, so axis0
      is at least 5. */
  lemma UnmaskedLMoveNeverReads(d0: Delta, d1: Delta)
    requires ShortLinear(d0) && ShortLinear(d1)
    ensures ReadAllWith(Encode(LMove(d0, d1)), Unmasked) == Err(InvalidInputStream)
  {
    var bs := Encode(LMove(d0, d1));
    MoveByte(LinearAxis(d1), LinearAxis(d0));
    assert ReadLMove(bs[0], bs[1], Unmasked).Err?;
  }
}

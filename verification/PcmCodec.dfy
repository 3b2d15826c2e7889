/** The audio codec: still, ramp and literal packets in one framed cell, and its strict decoder. */
module PcmCodec {
  import opened Prelude
  import opened ByteCodec
  import opened Segments

  const MAGIC: Bytes := [0x38, 0x44, 0x50, 0x43, 0x4d, 0x32]
  const SAMPLE_LIMIT := 100_000_000

  datatype PcmError =
    | StructError
    | InvalidHeader
    | Limit
    | Truncated
    | InvalidLength
    | TruncatedStatic
    | TruncatedRamp
    | TruncatedLiteral
    | UnknownMode
    | FramingMismatch

  datatype Packet =
    | Still(length: nat, value: int)
    | Ramp(length: nat, start: int, step: int)
    | Literal(samples: seq<int>)

  function Covers(p: Packet): nat {
    match p
    case Still(length, _) => length
    case Ramp(length, _, _) => length
    case Literal(samples) => |samples|
  }

  /** The samples a packet stands for. */
  function Expand(p: Packet): (s: seq<int>)
    ensures |s| == Covers(p)
  {
    match p
    case Still(length, v) => seq(length, k => v)
    case Ramp(length, start, step) => seq(length, k => start + step * k)
    case Literal(samples) => samples
  }

  // ----- segmentation --------------------------------------------------------------

  predicate Flat(s: seq<int>, i: nat) {
    i + 2 < |s| && s[i] == s[i + 1] == s[i + 2]
  }

  predicate Steady(s: seq<int>, i: nat) {
    i + 2 < |s| && s[i + 1] - s[i] == s[i + 2] - s[i + 1]
  }

  /** First position from `j` on where a still or ramp packet can start. */
  function LiteralEnd(s: seq<int>, j: nat): (e: nat)
    requires j <= |s|
    ensures j <= e <= |s|
    ensures e < |s| ==> Flat(s, e) || Steady(s, e)
    decreases |s| - j
  {
    if j < |s| && !Flat(s, j) && !Steady(s, j) then LiteralEnd(s, j + 1) else j
  }

  /** The packet the encoder cuts at position `i`. */
  function PacketAt(s: seq<int>, i: nat): (p: Packet)
    requires i < |s|
    ensures 1 <= Covers(p) <= |s| - i
    ensures !p.Literal? ==> Covers(p) >= 3
    ensures p.Literal? <==> !Flat(s, i) && !Steady(s, i)
    ensures p.Literal? && i + Covers(p) < |s| ==> Flat(s, i + Covers(p)) || Steady(s, i + Covers(p))
  {
    if Flat(s, i) then Still(RunEnd(s, i + 3, s[i]) - i, s[i])
    else if Steady(s, i) then
      var step := s[i + 1] - s[i];
      Ramp(RampEnd(s, i + 3, step) - i, s[i], step)
    else Literal(s[i..LiteralEnd(s, i + 1)])
  }

  function PacketsFrom(s: seq<int>, i: nat): (ps: seq<Packet>)
    requires i <= |s|
    ensures |ps| <= |s| - i
    decreases |s| - i
  {
    if i == |s| then [] else
      var p := PacketAt(s, i);
      [p] + PacketsFrom(s, i + Covers(p))
  }

  /**
   * Packets are maximal: three equal samples start a still packet, three in even steps a ramp, and
   * each runs as far as its pattern does; a literal packet ends at the first such place, and covers none.
   */
  lemma PacketIsMaximal(s: seq<int>, i: nat)
    requires i < |s|
    ensures var p := PacketAt(s, i);
            var e := i + Covers(p);
            && e <= |s|
            && (p.Still? <==> i <= |s| - 3 && s[i] == s[i + 1] && s[i] == s[i + 2])
            && (p.Ramp? <==> i <= |s| - 3 && s[i] != s[i + 1] && s[i + 1] - s[i] == s[i + 2] - s[i + 1])
            && (p.Still? && e < |s| ==> s[e] != s[i])
            && (p.Ramp? && e < |s| ==> s[e] - s[e - 1] != s[i + 1] - s[i])
            && (p.Literal? ==> forall k :: i <= k < e && k <= |s| - 3 ==> s[k + 1] - s[k] != s[k + 2] - s[k + 1])
            && (p.Literal? && e < |s| ==> e <= |s| - 3 && s[e + 1] - s[e] == s[e + 2] - s[e + 1])
  {
    hide Flat, Steady, LiteralEnd;
    StartsAre(s, i);
    if PacketAt(s, i).Literal? {
      LiteralIsPlain(s, i);
    }
  }

  lemma LiteralIsPlain(s: seq<int>, i: nat)
    requires i < |s| && PacketAt(s, i).Literal?
    ensures var e := i + Covers(PacketAt(s, i));
            && e <= |s|
            && (forall k :: i <= k < e && k <= |s| - 3 ==> s[k + 1] - s[k] != s[k + 2] - s[k + 1])
            && (e < |s| ==> e <= |s| - 3 && s[e + 1] - s[e] == s[e + 2] - s[e + 1])
  {
    hide Flat, Steady, LiteralEnd;
    var e := i + Covers(PacketAt(s, i));
    LiteralSkips(s, i + 1);
    StartsAre(s, e);
    forall k | i <= k < e && k <= |s| - 3
      ensures s[k + 1] - s[k] != s[k + 2] - s[k + 1]
    {
      StartsAre(s, k);
    }
  }

  lemma StartsAre(s: seq<int>, i: nat)
    ensures Flat(s, i) <==> i <= |s| - 3 && s[i] == s[i + 1] && s[i] == s[i + 2]
    ensures Steady(s, i) <==> i <= |s| - 3 && s[i + 1] - s[i] == s[i + 2] - s[i + 1]
  {
  }

  lemma {:induction false} LiteralSkips(s: seq<int>, j: nat)
    requires j <= |s|
    ensures forall k :: j <= k < LiteralEnd(s, j) ==> !Flat(s, k) && !Steady(s, k)
    decreases |s| - j
  {
    hide Flat, Steady;
    if j < |s| && !Flat(s, j) && !Steady(s, j) {
      LiteralSkips(s, j + 1);
    }
  }

  lemma RunIsExact(s: seq<int>, i: nat, e: nat)
    requires i < e <= |s| && forall m :: i <= m < e ==> s[m] == s[i]
    ensures Expand(Still(e - i, s[i])) == s[i..e]
  {
  }

  lemma RampIsExact(s: seq<int>, i: nat, e: nat, step: int)
    requires i < e <= |s|
    requires forall m :: i + 1 <= m < e ==> s[m] - s[m - 1] == step
    ensures Expand(Ramp(e - i, s[i], step)) == s[i..e]
  {
    var ramp := Expand(Ramp(e - i, s[i], step));
    forall k | 0 <= k < e - i
      ensures ramp[k] == s[i..e][k]
    {
      RampValue(s, i + 1, e, step, i + k);
      assert i + k - (i + 1) + 1 == k;
    }
  }

  lemma RampPacketIsExact(s: seq<int>, i: nat)
    requires !Flat(s, i) && Steady(s, i)
    ensures var p := PacketAt(s, i); Expand(p) == s[i..i + Covers(p)]
  {
    hide RampEnd, Expand;
    var step := s[i + 1] - s[i];
    var e := RampEnd(s, i + 3, step);
    RampIsExact(s, i, e, step) by {
      assert forall m :: i + 1 <= m < e ==> s[m] - s[m - 1] == step;
    }
    assert PacketAt(s, i) == Ramp(e - i, s[i], step);
  }

  /** A packet stands for exactly the samples it covers. */
  lemma PacketIsExact(s: seq<int>, i: nat)
    requires i < |s|
    ensures var p := PacketAt(s, i); Expand(p) == s[i..i + Covers(p)]
  {
    hide RunEnd, RampEnd, LiteralEnd, Steady;
    if Flat(s, i) {
      RunIsExact(s, i, RunEnd(s, i + 3, s[i]));
    } else if Steady(s, i) {
      RampPacketIsExact(s, i);
    }
  }

  // ----- packing -------------------------------------------------------------------

  predicate SamplesFit(s: seq<int>) {
    forall k :: 0 <= k < |s| ==> FitsI16(s[k])
  }

  /** `struct.pack(">{n}h", *s)`. */
  function Raw(s: seq<int>): (b: Bytes)
    requires SamplesFit(s)
    ensures |b| == 2 * |s|
  {
    if s == [] then [] else I16(s[0]) + Raw(s[1..])
  }

  function ReadRaw(b: Bytes, at: nat, count: nat): (s: seq<int>)
    requires at + 2 * count <= |b|
    ensures |s| == count && SamplesFit(s)
  {
    seq(count, k requires 0 <= k < count => ReadI16(b, at + 2 * k))
  }

  lemma {:induction false} ReadRawAt(b: Bytes, at: nat, s: seq<int>)
    requires SamplesFit(s) && At(b, at, Raw(s))
    ensures ReadRaw(b, at, |s|) == s
    decreases |s|
  {
    if s != [] {
      AtSplit(b, at, I16(s[0]), Raw(s[1..]));
      ReadI16At(b, at, s[0]);
      ReadRawAt(b, at + 2, s[1..]);
      assert forall k :: 0 < k < |s| ==> ReadRaw(b, at, |s|)[k] == ReadRaw(b, at + 2, |s| - 1)[k - 1];
    }
  }

  /** Every field of the packet fits. */
  predicate PacketFits(p: Packet) {
    && Covers(p) < U32_LIMIT
    && match p
       case Still(_, v) => FitsI16(v)
       case Ramp(_, start, step) => FitsI16(start) && FitsI32(step)
       case Literal(samples) => SamplesFit(samples)
  }

  function PackBody(p: Packet): Bytes
    requires PacketFits(p)
  {
    match p
    case Still(_, v) => I16(v)
    case Ramp(_, start, step) => I16(start) + I32(step)
    case Literal(samples) => Raw(samples)
  }

  function Tag(p: Packet): Byte {
    match p
    case Still(_, _) => 0
    case Ramp(_, _, _) => 1
    case Literal(_) => 2
  }

  function Pack(p: Packet): Bytes
    requires PacketFits(p)
  {
    [Tag(p)] + (U32(Covers(p)) + PackBody(p))
  }

  predicate AllFit(ps: seq<Packet>) {
    forall p :: p in ps ==> PacketFits(p)
  }

  function PackAll(ps: seq<Packet>): Bytes
    requires AllFit(ps)
  {
    if ps == [] then [] else Pack(ps[0]) + PackAll(ps[1..])
  }

  /** A step between 16-bit samples needs 17 signed bits. */
  predicate NarrowStep(p: Packet) {
    p.Ramp? ==> -0x1_0000 < p.step < 0x1_0000
  }

  lemma PacketAtFits(s: seq<int>, i: nat)
    requires i < |s| < U32_LIMIT && SamplesFit(s)
    ensures PacketFits(PacketAt(s, i)) && NarrowStep(PacketAt(s, i))
  {
    hide RunEnd, RampEnd, LiteralEnd;
  }

  /** Samples that fit give packets that fit, with narrow steps. */
  lemma {:induction false} PacketsFit(s: seq<int>, i: nat)
    requires i <= |s| < U32_LIMIT && SamplesFit(s)
    ensures AllFit(PacketsFrom(s, i))
    ensures forall p :: p in PacketsFrom(s, i) ==> NarrowStep(p)
    decreases |s| - i
  {
    hide PacketAt, PacketFits, NarrowStep;
    if i < |s| {
      PacketAtFits(s, i);
      PacketsFit(s, i + Covers(PacketAt(s, i)));
    }
  }

  datatype Bundle = Bundle(cell: Bytes, digest: Bytes)

  function Cell(n: nat, ps: seq<Packet>): Bytes
    requires n < U32_LIMIT && |ps| < U32_LIMIT && AllFit(ps)
  {
    MAGIC + (U32(n) + (U32(|ps|) + PackAll(ps)))
  }

  function Analyze(h: Sha256, s: seq<int>): Result<Bundle, PcmError> {
    if SamplesFit(s) && |s| < U32_LIMIT then
      PacketsFit(s, 0);
      Ok(Bundle(Cell(|s|, PacketsFrom(s, 0)), h(Raw(s))))
    else Err(StructError)
  }

  /** The loop that measures a literal: up to where a still or ramp packet can start. */
  method ScanLiteral(s: seq<int>, j: nat) returns (e: nat)
    requires j <= |s|
    ensures e == LiteralEnd(s, j)
  {
    e := j;
    while e < |s|
      invariant e <= |s| && LiteralEnd(s, e) == LiteralEnd(s, j)
    {
      if e + 2 < |s| && (s[e] == s[e + 1] == s[e + 2] || s[e + 1] - s[e] == s[e + 2] - s[e + 1]) {
        break;
      }
      e := e + 1;
    }
  }

  /** One turn of the encoder's loop: the packet that starts at `i`. */
  method CutPacket(s: seq<int>, i: nat) returns (p: Packet)
    requires i < |s|
    ensures p == PacketAt(s, i)
  {
    hide RunEnd, RampEnd, LiteralEnd;
    if i + 2 < |s| && s[i] == s[i + 1] == s[i + 2] {
      var j := ScanRun(s, i + 3, s[i]);
      p := Still(j - i, s[i]);
    } else if i + 2 < |s| && s[i + 1] - s[i] == s[i + 2] - s[i + 1] {
      var step := s[i + 1] - s[i];
      var j := ScanRamp(s, i + 3, step);
      p := Ramp(j - i, s[i], step);
    } else {
      var j := ScanLiteral(s, i + 1);
      p := Literal(s[i..j]);
    }
  }

  method AnalyzeAudioPcm(h: Sha256, s: seq<int>) returns (r: Result<Bundle, PcmError>)
    ensures r == Analyze(h, s)
  {
    hide PacketAt, PackAll, Raw, Cell, PacketFits;
    if !SamplesFit(s) || |s| >= U32_LIMIT {
      return Err(StructError);
    }
    PacketsFit(s, 0);
    var packets: seq<Packet> := [];
    var i := 0;
    while i < |s|
      invariant i <= |s|
      invariant packets + PacketsFrom(s, i) == PacketsFrom(s, 0)
    {
      var p := CutPacket(s, i);
      packets := packets + [p];
      i := i + Covers(p);
    }
    assert packets == PacketsFrom(s, 0);
    r := Ok(Bundle(Cell(|s|, packets), h(Raw(s))));
  }

  // ----- decoding -------------------------------------------------------------------

  /** Where the decoder stands: the next byte, and the samples produced so far. */
  datatype Cursor = Cursor(off: nat, values: seq<int>)

  function ParseOne(cell: Bytes, at: Cursor, n: nat): (r: Result<Cursor, PcmError>)
    ensures r.Ok? ==> at.off + 5 <= r.value.off <= |cell|
    ensures r.Ok? ==> |at.values| < |r.value.values| <= n
  {
    if at.off + 5 > |cell| then Err(Truncated) else
      var mode, length, off := cell[at.off], ReadU32(cell, at.off + 1), at.off + 5;
      if length < 1 || |at.values| + length > n then Err(InvalidLength)
      else if mode == 0 then
        if off + 2 > |cell| then Err(TruncatedStatic)
        else Ok(Cursor(off + 2, at.values + Expand(Still(length, ReadI16(cell, off)))))
      else if mode == 1 then
        if off + 6 > |cell| then Err(TruncatedRamp)
        else Ok(Cursor(off + 6, at.values + Expand(Ramp(length, ReadI16(cell, off), ReadI32(cell, off + 2)))))
      else if mode == 2 then
        if off + 2 * length > |cell| then Err(TruncatedLiteral)
        else Ok(Cursor(off + 2 * length, at.values + ReadRaw(cell, off, length)))
      else Err(UnknownMode)
  }

  function Parse(cell: Bytes, at: Cursor, count: nat, n: nat): Result<Cursor, PcmError>
    decreases count
  {
    if count == 0 then Ok(at) else
      match ParseOne(cell, at, n)
      case Err(e) => Err(e)
      case Ok(next) => Parse(cell, next, count - 1, n)
  }

  datatype Report = Report(values: seq<int>, byteExact: bool)

  function Reconstruct(h: Sha256, b: Bundle): Result<Report, PcmError> {
    if !(MAGIC <= b.cell) || |b.cell| < 14 then Err(InvalidHeader) else
      var n, count := ReadU32(b.cell, 6), ReadU32(b.cell, 10);
      if n > SAMPLE_LIMIT || count > n + 1 then Err(Limit) else
        match Parse(b.cell, Cursor(14, []), count, n)
        case Err(e) => Err(e)
        case Ok(end) =>
          if |end.values| != n || end.off != |b.cell| then Err(FramingMismatch)
          else if !SamplesFit(end.values) then Err(StructError)
          else Ok(Report(end.values, h(Raw(end.values)) == b.digest))
  }

  method ReconstructAudioPcm(h: Sha256, b: Bundle) returns (r: Result<Report, PcmError>)
    ensures r == Reconstruct(h, b)
  {
    hide Raw, ReadU32, Parse;
    var cell := b.cell;
    if !(MAGIC <= cell) || |cell| < 14 {
      return Err(InvalidHeader);
    }
    var n, count := ReadU32(cell, 6), ReadU32(cell, 10);
    if n > SAMPLE_LIMIT || count > n + 1 {
      return Err(Limit);
    }
    var parsed := ReadPackets(cell, count, n);
    if parsed.Err? {
      return Err(parsed.error);
    }
    var values := parsed.value.values;
    if |values| != n || parsed.value.off != |cell| {
      return Err(FramingMismatch);
    }
    if !SamplesFit(values) {
      return Err(StructError);
    }
    r := Ok(Report(values, h(Raw(values)) == b.digest));
  }

  /** The decoder's loop. */
  method ReadPackets(cell: Bytes, count: nat, n: nat) returns (r: Result<Cursor, PcmError>)
    ensures r == Parse(cell, Cursor(14, []), count, n)
  {
    hide ParseOne;
    var off, values := 14, [];
    for done := 0 to count
      invariant off >= 14
      invariant Parse(cell, Cursor(off, values), count - done, n) == Parse(cell, Cursor(14, []), count, n)
    {
      var next := ReadPacket(cell, off, values, n);
      if next.Err? {
        return Err(next.error);
      }
      off, values := next.value.off, next.value.values;
    }
    r := Ok(Cursor(off, values));
  }

  /** One turn of the decoder's loop. */
  method ReadPacket(cell: Bytes, start: nat, before: seq<int>, n: nat) returns (r: Result<Cursor, PcmError>)
    ensures r == ParseOne(cell, Cursor(start, before), n)
  {
    hide ReadU32, ReadI32, ReadI16;
    var off, values := start, before;
    if off + 5 > |cell| {
      return Err(Truncated);
    }
    var mode, length := cell[off], ReadU32(cell, off + 1);
    off := off + 5;
    if length < 1 || |values| + length > n {
      return Err(InvalidLength);
    }
    if mode == 0 {
      if off + 2 > |cell| {
        return Err(TruncatedStatic);
      }
      var v := ReadI16(cell, off);
      off := off + 2;
      values := values + seq(length, k => v);
    } else if mode == 1 {
      if off + 6 > |cell| {
        return Err(TruncatedRamp);
      }
      var first, step := ReadI16(cell, off), ReadI32(cell, off + 2);
      off := off + 6;
      values := values + seq(length, k => first + step * k);
    } else if mode == 2 {
      if off + 2 * length > |cell| {
        return Err(TruncatedLiteral);
      }
      values := values + ReadRaw(cell, off, length);
      off := off + 2 * length;
    } else {
      return Err(UnknownMode);
    }
    r := Ok(Cursor(off, values));
  }

  // ----- round trip -------------------------------------------------------------------

  /** Parsing one packed packet appends exactly the samples it stands for. */
  lemma ParsePacked(cell: Bytes, at: Cursor, p: Packet, n: nat)
    requires PacketFits(p) && At(cell, at.off, Pack(p))
    requires 1 <= Covers(p) && |at.values| + Covers(p) <= n
    ensures ParseOne(cell, at, n) == Ok(Cursor(at.off + |Pack(p)|, at.values + Expand(p)))
  {
    hide U32, ReadU32, PackBody, Expand, Raw;
    AtSplit(cell, at.off, [Tag(p)], U32(Covers(p)) + PackBody(p));
    AtSplit(cell, at.off + 1, U32(Covers(p)), PackBody(p));
    ReadU32At(cell, at.off + 1, Covers(p));
    ReadBodyAt(cell, at.off + 5, p);
  }

  /** The payload of a packet reads back as the packet's parameters. */
  lemma ReadBodyAt(cell: Bytes, off: nat, p: Packet)
    requires PacketFits(p) && At(cell, off, PackBody(p))
    ensures off + |PackBody(p)| <= |cell|
    ensures match p
            case Still(_, v) => |PackBody(p)| == 2 && ReadI16(cell, off) == v
            case Ramp(_, start, step) =>
              |PackBody(p)| == 6 && ReadI16(cell, off) == start && ReadI32(cell, off + 2) == step
            case Literal(samples) =>
              |PackBody(p)| == 2 * |samples| && Expand(p) == samples == ReadRaw(cell, off, |samples|)
  {
    hide I16, ReadI16, I32, ReadI32, Raw, ReadRaw;
    match p
    case Still(_, v) =>
      ReadI16At(cell, off, v);
    case Ramp(_, start, step) =>
      AtSplit(cell, off, I16(start), I32(step));
      ReadI16At(cell, off, start);
      ReadI32At(cell, off + 2, step);
    case Literal(samples) =>
      ReadRawAt(cell, off, samples);
  }

  lemma PackAllFirst(p: Packet, rest: seq<Packet>)
    requires AllFit([p] + rest)
    ensures PacketFits(p) && AllFit(rest) && PackAll([p] + rest) == Pack(p) + PackAll(rest)
  {
    hide PacketFits, Pack;
    assert ([p] + rest)[1..] == rest && p in [p] + rest;
    assert forall q :: q in rest ==> q in [p] + rest;
  }

  /** The samples a list of packets stands for. */
  function ExpandAll(ps: seq<Packet>): seq<int> {
    if ps == [] then [] else Expand(ps[0]) + ExpandAll(ps[1..])
  }

  /** Packets that fit and stand for at least one sample each. */
  predicate Packets(ps: seq<Packet>) {
    AllFit(ps) && forall p :: p in ps ==> Covers(p) >= 1
  }

  /** Parsing packed packets, whoever packed them, appends the samples they stand for. */
  lemma {:induction false} ParsePackets(cell: Bytes, at: Cursor, ps: seq<Packet>, n: nat)
    requires Packets(ps) && At(cell, at.off, PackAll(ps)) && |at.values| + |ExpandAll(ps)| <= n
    ensures Parse(cell, at, |ps|, n) == Ok(Cursor(at.off + |PackAll(ps)|, at.values + ExpandAll(ps)))
    decreases |ps|
  {
    hide Pack, ParseOne, PacketFits, Expand, At;
    if ps == [] {
      assert at.values + [] == at.values;
    } else {
      var p, rest := ps[0], ps[1..];
      assert ps == [p] + rest && p in ps;
      PackAllFirst(p, rest);
      AtSplit(cell, at.off, Pack(p), PackAll(rest));
      ParsePacked(cell, at, p, n);
      var next := Cursor(at.off + |Pack(p)|, at.values + Expand(p));
      assert forall q :: q in rest ==> q in ps;
      ParsePackets(cell, next, rest, n);
      assert next.values + ExpandAll(rest) == at.values + ExpandAll(ps);
    }
  }

  /** The encoder's packets stand for the samples they were cut from. */
  lemma {:induction false} PacketsExpand(s: seq<int>, i: nat)
    requires i <= |s|
    ensures ExpandAll(PacketsFrom(s, i)) == s[i..]
    ensures forall p :: p in PacketsFrom(s, i) ==> Covers(p) >= 1
    decreases |s| - i
  {
    hide PacketAt, Expand, ExpandAll, PacketsFrom;
    PacketsUnfold(s, i);
    if i < |s| {
      var p := PacketAt(s, i);
      var j := i + Covers(p);
      PacketIsExact(s, i);
      PacketsExpand(s, j);
      ExpandFirst(p, PacketsFrom(s, j));
      SliceJoin(s, i, j);
    }
  }

  lemma PacketsUnfold(s: seq<int>, i: nat)
    requires i <= |s|
    ensures i == |s| ==> PacketsFrom(s, i) == [] && ExpandAll(PacketsFrom(s, i)) == []
    ensures i < |s| ==> PacketsFrom(s, i) == [PacketAt(s, i)] + PacketsFrom(s, i + Covers(PacketAt(s, i)))
  {
    hide PacketAt;
  }

  lemma SliceJoin(s: seq<int>, i: nat, j: nat)
    requires i <= j <= |s|
    ensures s[i..j] + s[j..] == s[i..]
  {
  }

  lemma ExpandFirst(p: Packet, rest: seq<Packet>)
    ensures ExpandAll([p] + rest) == Expand(p) + ExpandAll(rest)
    ensures forall q :: q in [p] + rest ==> q == p || q in rest
  {
    hide Expand;
    assert ([p] + rest)[1..] == rest;
  }

  /** A literal packet is never followed by another: its end is where a regular packet starts. */
  lemma {:induction false} NoAdjacentLiterals(s: seq<int>, i: nat, k: nat)
    requires i <= |s| && k + 1 < |PacketsFrom(s, i)|
    ensures !(PacketsFrom(s, i)[k].Literal? && PacketsFrom(s, i)[k + 1].Literal?)
    decreases |s| - i
  {
    hide PacketAt, Flat, Steady;
    var p := PacketAt(s, i);
    if k > 0 {
      NoAdjacentLiterals(s, i + Covers(p), k - 1);
    }
  }

  /** There are at most (n + 1) / 2 packets. */
  lemma {:induction false} PacketCount(s: seq<int>, i: nat)
    requires i <= |s|
    ensures 2 * |PacketsFrom(s, i)| <= |s| - i + 1
    ensures i < |s| && !PacketAt(s, i).Literal? ==> 2 * |PacketsFrom(s, i)| <= |s| - i
    decreases |s| - i
  {
    hide PacketAt, Flat, Steady;
    if i < |s| {
      PacketCount(s, i + Covers(PacketAt(s, i)));
    }
  }

  lemma CellHeader(n: nat, count: nat, body: Bytes)
    requires n < U32_LIMIT && count < U32_LIMIT
    ensures var cell := MAGIC + (U32(n) + (U32(count) + body));
            && MAGIC <= cell && |cell| == 14 + |body|
            && ReadU32(cell, 6) == n && ReadU32(cell, 10) == count && At(cell, 14, body)
  {
    hide U32, ReadU32;
    var cell := MAGIC + (U32(n) + (U32(count) + body));
    assert At(cell, 6, U32(n) + (U32(count) + body));
    AtSplit(cell, 6, U32(n), U32(count) + body);
    AtSplit(cell, 10, U32(count), body);
    ReadU32At(cell, 6, n);
    ReadU32At(cell, 10, count);
  }

  /**
   * Every list of 16-bit samples the encoder accepts is given back exactly, with a matching
   * digest, if and only if it is no longer than the decoder's sample limit.
   */
  lemma RoundTrip(h: Sha256, s: seq<int>)
    requires Analyze(h, s).Ok?
    ensures |s| <= SAMPLE_LIMIT ==> Reconstruct(h, Analyze(h, s).value) == Ok(Report(s, true))
    ensures |s| > SAMPLE_LIMIT ==> Reconstruct(h, Analyze(h, s).value) == Err(Limit)
  {
    hide PackAll, U32, ReadU32, Raw, PacketsFrom, ExpandAll, SamplesFit, Reconstruct, AllFit;
    PacketsFit(s, 0);
    PacketCount(s, 0);
    var ps := PacketsFrom(s, 0);
    PacketsExpand(s, 0);
    assert s[0..] == s;
    CellHeader(|s|, |ps|, PackAll(ps));
    ReconstructPackets(h, Analyze(h, s).value, ps);
  }

  /** The encoder accepts lists its own decoder rejects: silence one sample beyond the limit. */
  lemma LongSilenceIsLost(h: Sha256)
    ensures var s := seq(100_000_001, k => 0);
            Analyze(h, s).Ok? && Reconstruct(h, Analyze(h, s).value) == Err(Limit)
  {
    hide Raw, Reconstruct, PacketsFrom, Cell;
    var s := seq(100_000_001, k => 0);
    assert SamplesFit(s);
    RoundTrip(h, s);
  }

  // ----- what the decoder accepts ------------------------------------------------------

  /** A turn of the decoder that succeeds has read a packed packet. */
  lemma ParseOneReads(cell: Bytes, at: Cursor, n: nat) returns (p: Packet)
    requires ParseOne(cell, at, n).Ok?
    ensures var next := ParseOne(cell, at, n).value;
            && PacketFits(p) && Covers(p) >= 1 && at.off + |Pack(p)| == next.off <= |cell|
            && At(cell, at.off, Pack(p)) && next.values == at.values + Expand(p)
  {
    hide U32, ReadU32, I16, ReadI16, I32, ReadI32, Raw, ReadRaw, At;
    var length, off := ReadU32(cell, at.off + 1), at.off + 5;
    if cell[at.off] == 0 {
      p := Still(length, ReadI16(cell, off));
      I16OfRead(cell, off);
    } else if cell[at.off] == 1 {
      p := Ramp(length, ReadI16(cell, off), ReadI32(cell, off + 2));
      I16OfRead(cell, off);
      I32OfRead(cell, off + 2);
      AtJoin(cell, off, I16(p.start), I32(p.step));
    } else {
      p := Literal(ReadRaw(cell, off, length));
      RawOfRead(cell, off, length);
    }
    hide ParseOne;
    PackedHere(cell, at.off, p);
  }

  lemma PackedHere(cell: Bytes, at: nat, p: Packet)
    requires PacketFits(p) && at + 5 <= |cell| && cell[at] == Tag(p) && ReadU32(cell, at + 1) == Covers(p)
    requires At(cell, at + 5, PackBody(p))
    ensures At(cell, at, Pack(p))
  {
    hide U32, ReadU32, PackBody;
    U32OfRead(cell, at + 1);
    AtJoin(cell, at + 1, U32(Covers(p)), PackBody(p));
    AtJoin(cell, at, [Tag(p)], U32(Covers(p)) + PackBody(p));
  }

  lemma {:induction false} RawOfRead(b: Bytes, at: nat, count: nat)
    requires at + 2 * count <= |b|
    ensures At(b, at, Raw(ReadRaw(b, at, count)))
    decreases count
  {
    hide I16, ReadI16;
    if count > 0 {
      var s := ReadRaw(b, at, count);
      assert s[1..] == ReadRaw(b, at + 2, count - 1) by {
        assert forall k :: 0 <= k < count - 1 ==> s[1..][k] == ReadI16(b, at + 2 * (k + 1));
      }
      I16OfRead(b, at);
      RawOfRead(b, at + 2, count - 1);
      AtJoin(b, at, I16(s[0]), Raw(s[1..]));
    }
  }

  lemma {:induction false} ParseReads(cell: Bytes, at: Cursor, count: nat, n: nat) returns (ps: seq<Packet>)
    requires Parse(cell, at, count, n).Ok? && at.off <= |cell|
    ensures var end := Parse(cell, at, count, n).value;
            && |ps| == count && Packets(ps) && at.off + |PackAll(ps)| == end.off <= |cell|
            && At(cell, at.off, PackAll(ps)) && end.values == at.values + ExpandAll(ps)
    decreases count
  {
    hide ParseOne, PacketFits, Pack, Expand;
    if count == 0 {
      ps := [];
    } else {
      var next := ParseOne(cell, at, n).value;
      var p := ParseOneReads(cell, at, n);
      var rest := ParseReads(cell, next, count - 1, n);
      ps := [p] + rest;
      assert ps[1..] == rest;
      assert forall q :: q in ps <==> q == p || q in rest;
      PackAllFirst(p, rest);
      var end := Parse(cell, at, count, n).value;
      assert cell[at.off..end.off] == cell[at.off..next.off] + cell[next.off..end.off];
      assert end.values == at.values + (Expand(p) + ExpandAll(rest));
    }
  }

  /** The cell holds these packets and nothing else, within the decoder's limit. */
  predicate Holds(cell: Bytes, ps: seq<Packet>) {
    && Packets(ps) && |ps| < U32_LIMIT && |ExpandAll(ps)| <= 100_000_000 && SamplesFit(ExpandAll(ps))
    && cell == [0x38, 0x44, 0x50, 0x43, 0x4d, 0x32] + (U32(|ExpandAll(ps)|) + (U32(|ps|) + PackAll(ps)))
  }

  lemma {:induction false} NoMorePackets(ps: seq<Packet>)
    requires forall p :: p in ps ==> Covers(p) >= 1
    ensures |ps| <= |ExpandAll(ps)|
  {
    if ps != [] {
      NoMorePackets(ps[1..]);
      assert ps[0] in ps;
    }
  }

  /** What the decoder makes of a cell that announces its packets and their samples rightly. */
  lemma ReconstructPackets(h: Sha256, b: Bundle, ps: seq<Packet>)
    requires Packets(ps) && SamplesFit(ExpandAll(ps)) && MAGIC <= b.cell && |b.cell| == 14 + |PackAll(ps)|
    requires ReadU32(b.cell, 6) == |ExpandAll(ps)| && ReadU32(b.cell, 10) == |ps| && At(b.cell, 14, PackAll(ps))
    ensures Reconstruct(h, b)
            == if |ExpandAll(ps)| > SAMPLE_LIMIT then Err(Limit)
               else Ok(Report(ExpandAll(ps), h(Raw(ExpandAll(ps))) == b.digest))
  {
    hide PackAll, ReadU32, Raw, Parse, ExpandAll, AllFit, At, SamplesFit;
    NoMorePackets(ps);
    assert [] + ExpandAll(ps) == ExpandAll(ps);
    ParsePackets(b.cell, Cursor(14, []), ps, |ExpandAll(ps)|);
  }

  lemma HeldIsAccepted(h: Sha256, b: Bundle, ps: seq<Packet>)
    requires Holds(b.cell, ps)
    ensures Reconstruct(h, b) == Ok(Report(ExpandAll(ps), h(Raw(ExpandAll(ps))) == b.digest))
  {
    hide PackAll, U32, ReadU32, Raw, ExpandAll, Packets, SamplesFit, Reconstruct, AllFit;
    assert AllFit(ps) by {
      PacketsAllFit(ps);
    }
    CellHeader(|ExpandAll(ps)|, |ps|, PackAll(ps));
    ReconstructPackets(h, b, ps);
  }

  lemma PacketsAllFit(ps: seq<Packet>)
    requires Packets(ps)
    ensures AllFit(ps)
  {
  }

  lemma AcceptedIsHeld(h: Sha256, b: Bundle) returns (ps: seq<Packet>)
    requires Reconstruct(h, b).Ok?
    ensures Holds(b.cell, ps)
  {
    hide PackAll, U32, ReadU32, Raw, Parse, ExpandAll, AllFit, SamplesFit, At, Packets;
    var cell := b.cell;
    var n, count := ReadU32(cell, 6), ReadU32(cell, 10);
    ps := ParseReads(cell, Cursor(14, []), count, n);
    assert [] + ExpandAll(ps) == ExpandAll(ps);
    CellIs(cell, n, count, PackAll(ps)) by {
      PacketsAllFit(ps);
    }
  }

  lemma CellIs(cell: Bytes, n: nat, count: nat, body: Bytes)
    requires |cell| == 14 + |body| && MAGIC <= cell && n == ReadU32(cell, 6) && count == ReadU32(cell, 10) && At(cell, 14, body)
    ensures cell == MAGIC + (U32(n) + (U32(count) + body))
  {
    hide U32, ReadU32;
    U32OfRead(cell, 6);
    U32OfRead(cell, 10);
    AtJoin(cell, 10, U32(count), body);
    AtJoin(cell, 6, U32(n), U32(count) + body);
    assert cell == cell[..6] + cell[6..14 + |body|];
  }

  /**
   * The decoder accepts exactly the cells that hold packets, and gives the samples these stand for.
   * They are reported as exact if and only if their digest is the bundle's.
   */
  lemma AcceptsIff(h: Sha256, b: Bundle)
    ensures Reconstruct(h, b).Ok? <==> exists ps :: Holds(b.cell, ps)
    ensures forall ps :: Holds(b.cell, ps) ==>
              Reconstruct(h, b) == Ok(Report(ExpandAll(ps), h(Raw(ExpandAll(ps))) == b.digest))
  {
    hide Reconstruct, Holds, Raw, ExpandAll;
    forall ps | Holds(b.cell, ps)
      ensures SamplesFit(ExpandAll(ps))
      ensures Reconstruct(h, b) == Ok(Report(ExpandAll(ps), h(Raw(ExpandAll(ps))) == b.digest))
    {
      HeldFits(b.cell, ps);
      HeldIsAccepted(h, b, ps);
    }
    if Reconstruct(h, b).Ok? {
      var ps := AcceptedIsHeld(h, b);
    }
  }

  lemma HeldFits(cell: Bytes, ps: seq<Packet>)
    requires Holds(cell, ps)
    ensures SamplesFit(ExpandAll(ps))
  {
  }

  /**
   * A cell put in place of the one the encoder made: it is reported as exact if and only if its
   * samples have the digest of the originals. Exact with other samples would be a collision.
   */
  lemma ForeignCell(h: Sha256, s: seq<int>, cell: Bytes)
    requires Analyze(h, s).Ok? && Reconstruct(h, Bundle(cell, Analyze(h, s).value.digest)).Ok?
    ensures var r := Reconstruct(h, Bundle(cell, Analyze(h, s).value.digest)).value;
            && SamplesFit(s) && SamplesFit(r.values)
            && (r.byteExact <==> h(Raw(r.values)) == h(Raw(s)))
            && (r.byteExact && r.values != s ==> Raw(r.values) != Raw(s) && h(Raw(r.values)) == h(Raw(s)))
  {
    hide Reconstruct, Raw, ExpandAll, Holds, Cell, SamplesFit, PacketsFrom;
    var b := Bundle(cell, Analyze(h, s).value.digest);
    var ps := AcceptedIsHeld(h, b);
    HeldFits(cell, ps);
    HeldIsAccepted(h, b, ps);
    if Raw(ExpandAll(ps)) == Raw(s) {
      RawApart(ExpandAll(ps), s);
    }
  }

  /** Different samples have different bytes. */
  lemma RawApart(s: seq<int>, t: seq<int>)
    requires SamplesFit(s) && SamplesFit(t) && Raw(s) == Raw(t)
    ensures s == t
  {
    hide Raw, ReadRaw;
    assert |Raw(s)| == |Raw(t)|;
    assert Raw(s)[0..|Raw(s)|] == Raw(s);
    ReadRawAt(Raw(s), 0, s);
    ReadRawAt(Raw(s), 0, t);
  }

  /** The encoder accepts every list of 16-bit samples whose length fits 32 bits, and raises the error of the packing otherwise. */
  lemma AnalyzesIff(h: Sha256, s: seq<int>)
    ensures Analyze(h, s).Ok? <==> |s| < 0x1_0000_0000 && forall k :: 0 <= k < |s| ==> -0x8000 <= s[k] < 0x8000
    ensures Analyze(h, s).Ok? ==> Analyze(h, s).value.digest == h(Raw(s))
    ensures Analyze(h, s).Err? ==> Analyze(h, s) == Err(StructError)
  {
    hide Raw, Cell, PacketsFrom;
  }

  /** What a rejection says is true of the cell. */
  lemma RejectionIsReal(h: Sha256, b: Bundle)
    ensures var r := Reconstruct(h, b);
            && (r == Err(InvalidHeader) <==> |b.cell| < 14 || b.cell[..6] != [0x38, 0x44, 0x50, 0x43, 0x4d, 0x32])
            && (r != Err(InvalidHeader) ==>
                  |b.cell| >= 14
                  && (r == Err(Limit) <==> ReadU32(b.cell, 6) > 100_000_000 || ReadU32(b.cell, 10) > ReadU32(b.cell, 6) + 1))
  {
    hide ReadU32, SamplesFit, Raw, ParseOne;
    if |b.cell| >= 14 && MAGIC <= b.cell {
      ParseErrors(b.cell, Cursor(14, []), ReadU32(b.cell, 10), ReadU32(b.cell, 6));
    }
  }

  lemma {:induction false} ParseErrors(cell: Bytes, at: Cursor, count: nat, n: nat)
    ensures Parse(cell, at, count, n) !in {Err(InvalidHeader), Err(Limit), Err(FramingMismatch), Err(StructError)}
    decreases count
  {
    hide ReadU32, ReadI16, ReadI32, ReadRaw;
    if count > 0 && ParseOne(cell, at, n).Ok? {
      ParseErrors(cell, ParseOne(cell, at, n).value, count - 1, n);
    }
  }

  /** The decoder's turn at `at`: which rejection means what. */
  lemma TurnRejects(cell: Bytes, at: Cursor, n: nat)
    ensures var r := ParseOne(cell, at, n);
            && (r == Err(Truncated) <==> |cell| - at.off < 5)
            && (|cell| - at.off >= 5 ==>
                  var mode, length, left := cell[at.off], ReadU32(cell, at.off + 1), |cell| - at.off - 5;
                  && (r == Err(InvalidLength) <==> length == 0 || length > n - |at.values|)
                  && (0 < length <= n - |at.values| ==>
                        && (r == Err(TruncatedStatic) <==> mode == 0 && left < 2)
                        && (r == Err(TruncatedRamp) <==> mode == 1 && left < 6)
                        && (r == Err(TruncatedLiteral) <==> mode == 2 && left < 2 * length)
                        && (r == Err(UnknownMode) <==> mode > 2)))
  {
    hide ReadU32, ReadI16, ReadI32, ReadRaw, Expand;
  }

  // ----- framing over arbitrary bytes ---------------------------------------------------

  /** Bytes after the point a parse stopped at have no influence on it. */
  lemma ParseOneIgnoresTail(cell: Bytes, tail: Bytes, at: Cursor, n: nat)
    requires ParseOne(cell, at, n).Ok?
    ensures ParseOne(cell + tail, at, n) == ParseOne(cell, at, n)
  {
    hide Expand;
    var longer := cell + tail;
    var off := at.off + 5;
    var length := ReadU32(cell, at.off + 1);
    assert ReadU32(longer, at.off + 1) == length;
    if cell[at.off] == 2 {
      assert ReadRaw(longer, off, length) == ReadRaw(cell, off, length);
    } else if cell[at.off] == 1 {
      assert ReadI32(longer, off + 2) == ReadI32(cell, off + 2);
    }
  }

  lemma {:induction false} ParseIgnoresTail(cell: Bytes, tail: Bytes, at: Cursor, count: nat, n: nat)
    requires Parse(cell, at, count, n).Ok?
    ensures Parse(cell + tail, at, count, n) == Parse(cell, at, count, n)
    decreases count
  {
    hide ParseOne;
    if count > 0 {
      ParseOneIgnoresTail(cell, tail, at, n);
      ParseIgnoresTail(cell, tail, ParseOne(cell, at, n).value, count - 1, n);
    }
  }

  /**
   * Accepted cells form a prefix-free code: appending any bytes to an accepted cell, and hence
   * cutting any bytes off one, gives a cell that is rejected, whatever digest comes with it.
   */
  lemma PrefixFree(h: Sha256, cell: Bytes, tail: Bytes, d: Bytes, d': Bytes)
    requires Reconstruct(h, Bundle(cell, d)).Ok? && tail != []
    ensures Reconstruct(h, Bundle(cell + tail, d')) == Err(FramingMismatch)
  {
    hide Parse;
    var n, count := ReadU32(cell, 6), ReadU32(cell, 10);
    ParseIgnoresTail(cell, tail, Cursor(14, []), count, n);
    assert ReadU32(cell + tail, 6) == n && ReadU32(cell + tail, 10) == count;
    assert MAGIC <= cell + tail;
  }

  /** Every proper prefix of an accepted cell is rejected. */
  lemma TruncationRejected(h: Sha256, cell: Bytes, k: nat, d: Bytes, d': Bytes)
    requires Reconstruct(h, Bundle(cell, d)).Ok? && k < |cell|
    ensures Reconstruct(h, Bundle(cell[..k], d')).Err?
  {
    if Reconstruct(h, Bundle(cell[..k], d')).Ok? {
      assert cell == cell[..k] + cell[k..];
      PrefixFree(h, cell[..k], cell[k..], d', d);
    }
  }

  /** A parse never leaves the cell, never exceeds the announced count, and only moves forward. */
  lemma {:induction false} ParseStaysInside(cell: Bytes, at: Cursor, count: nat, n: nat)
    requires at.off <= |cell| && |at.values| <= n && Parse(cell, at, count, n).Ok?
    ensures var end := Parse(cell, at, count, n).value;
            && at.off + 5 * count <= end.off <= |cell|
            && |at.values| + count <= |end.values| <= n
            && at.values <= end.values
    decreases count
  {
    if count > 0 {
      var next := ParseOne(cell, at, n).value;
      assert at.values <= next.values;
      ParseStaysInside(cell, next, count - 1, n);
    }
  }

  /** Where the fields of a packet are: its kind, the samples it covers, and what it says of them. */
  lemma PacketLayout(p: Packet)
    requires PacketFits(p)
    ensures var b := Pack(p);
            && |b| >= 5 && ReadU32(b, 1) == Covers(p)
            && match p
               case Still(_, v) => b[0] == 0 && |b| == 7 && ReadI16(b, 5) == v
               case Ramp(_, start, step) => b[0] == 1 && |b| == 11 && ReadI16(b, 5) == start && ReadI32(b, 7) == step
               case Literal(samples) => b[0] == 2 && |b| == 5 + 2 * |samples| && ReadRaw(b, 5, |samples|) == samples
  {
    hide U32, ReadU32, PackBody, Raw, ReadRaw, ReadI16, ReadI32, Covers;
    var b := Pack(p);
    assert At(b, 0, [Tag(p)] + (U32(Covers(p)) + PackBody(p)));
    AtSplit(b, 0, [Tag(p)], U32(Covers(p)) + PackBody(p));
    AtSplit(b, 1, U32(Covers(p)), PackBody(p));
    ReadU32At(b, 1, Covers(p));
    ReadBodyAt(b, 5, p);
  }

  /** The header is there, and what it announces is within the limits. */
  predicate Announces(cell: Bytes, count: nat, n: nat) {
    && |cell| >= 14 && cell[..6] == [0x38, 0x44, 0x50, 0x43, 0x4d, 0x32]
    && n == ReadU32(cell, 6) <= 100_000_000 && count == ReadU32(cell, 10) <= n + 1
  }

  /** The packets the cell begins with, and the place behind them. */
  ghost predicate Begins(cell: Bytes, ps: seq<Packet>, n: nat, at: Cursor) {
    && Packets(ps) && |ExpandAll(ps)| <= n && At(cell, 14, PackAll(ps))
    && at == Cursor(14 + |PackAll(ps)|, ExpandAll(ps))
  }

  /** A cell is rejected for the first of its announced packets that cannot be read. */
  lemma FirstFault(h: Sha256, b: Bundle, ps: seq<Packet>, at: Cursor, count: nat, n: nat)
    requires Announces(b.cell, count, n) && Begins(b.cell, ps, n, at) && |ps| < count && ParseOne(b.cell, at, n).Err?
    ensures Reconstruct(h, b) == Err(ParseOne(b.cell, at, n).error)
  {
    hide ReadU32, Raw, ParseOne, SamplesFit, ExpandAll, PackAll, Packets, At;
    assert [] + ExpandAll(ps) == ExpandAll(ps);
    ParsePackets(b.cell, Cursor(14, []), ps, n);
    ParseOn(b.cell, Cursor(14, []), |ps|, count, n);
  }

  lemma {:induction false} ParseOn(cell: Bytes, at: Cursor, done: nat, count: nat, n: nat)
    requires done <= count && Parse(cell, at, done, n).Ok?
    ensures Parse(cell, at, count, n) == Parse(cell, Parse(cell, at, done, n).value, count - done, n)
    decreases done
  {
    hide ParseOne;
    if done > 0 {
      ParseOn(cell, ParseOne(cell, at, n).value, done - 1, count - 1, n);
    }
  }

  /** If all can be read, what is left over, a count that is not met, or a sample that does not fit is told apart. */
  lemma LastFault(h: Sha256, b: Bundle, ps: seq<Packet>, at: Cursor, count: nat, n: nat)
    requires Announces(b.cell, count, n) && Begins(b.cell, ps, n, at) && |ps| == count
    ensures Reconstruct(h, b) ==
            if |at.values| != n || at.off != |b.cell| then Err(FramingMismatch)
            else if !SamplesFit(at.values) then Err(StructError)
            else Ok(Report(at.values, h(Raw(at.values)) == b.digest))
  {
    hide ReadU32, Raw, Parse, SamplesFit, ExpandAll, PackAll, Packets, At;
    assert [] + ExpandAll(ps) == ExpandAll(ps);
    ParsePackets(b.cell, Cursor(14, []), ps, n);
  }
}

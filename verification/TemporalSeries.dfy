/** The time-series channel of the transceiver: still-then-moving cells, and their decoder. */
module TemporalSeries {
  import opened Prelude
  import opened ByteCodec
  import opened Segments
  import FileDelta

  const MODE_TEMPORAL: Byte := 10

  datatype PyError = StructError | IndexError

  /** `at`, then `still` copies of `start`, then `active` steps of `velocity`. */
  datatype Cell = Cell(at: nat, still: nat, active: nat, start: int, netDelta: int, velocity: int)

  function Next(c: Cell): nat {
    c.at + c.still + c.active
  }

  /** The cell the encoder cuts at position `i`: both of its parts are as long as they can be. */
  function CellAt(s: seq<int>, i: nat): (c: Cell)
    requires i < |s|
    ensures c.at == i && c.still >= 1 && Next(c) <= |s|
    ensures Next(c) < |s| ==> Next(c) >= i + 2 && s[Next(c)] - s[Next(c) - 1] != c.velocity
    ensures c.active == 0 <==> i + c.still == |s|
    ensures c.active > 0 ==> c.velocity != 0
  {
    var rem := RunEnd(s, i + 1, s[i]);
    if rem < |s| then
      var velocity := s[rem] - s[i];
      var active := RampEnd(s, rem, velocity) - rem;
      Cell(i, rem - i, active, s[i], velocity * active, velocity)
    else
      Cell(i, rem - i, 0, s[i], 0, 0)
  }

  function CellsFrom(s: seq<int>, i: nat): seq<Cell>
    requires i <= |s|
    decreases |s| - i
  {
    if i == |s| then [] else [CellAt(s, i)] + CellsFrom(s, Next(CellAt(s, i)))
  }

  // ----- what a cell says ------------------------------------------------------

  /** The sample a cell prescribes at position `k`. */
  function Sample(c: Cell, k: nat): int
    requires c.at <= k < Next(c)
  {
    if k < c.at + c.still then c.start else c.start + c.velocity * (k - c.at - c.still + 1)
  }

  lemma CellIsExact(s: seq<int>, i: nat, k: nat)
    requires i < |s| && i <= k < Next(CellAt(s, i))
    ensures Sample(CellAt(s, i), k) == s[k]
  {
    var rem := RunEnd(s, i + 1, s[i]);
    if rem <= k {
      var velocity := s[rem] - s[i];
      RampValue(s, rem, RampEnd(s, rem, velocity), velocity, k);
    }
  }

  /** The net change of a cell is the difference of two samples. */
  lemma NetDeltaIsDifference(s: seq<int>, i: nat)
    requires i < |s|
    ensures var c := CellAt(s, i); c.netDelta == s[Next(c) - 1] - s[i]
  {
    var rem := RunEnd(s, i + 1, s[i]);
    if rem < |s| {
      CellIsExact(s, i, Next(CellAt(s, i)) - 1);
    } else {
      assert s[|s| - 1] == s[i];
    }
  }

  // ----- packing -----------------------------------------------------------------

  predicate CellFits(c: Cell) {
    && c.at < U32_LIMIT && c.still < U32_LIMIT && c.active < U32_LIMIT
    && FitsI32(c.start) && FitsI32(c.netDelta) && FitsI32(c.velocity)
  }

  function PackCell(c: Cell): (b: Bytes)
    requires CellFits(c)
    ensures |b| == 24
  {
    U32(c.at) + (U32(c.still) + (U32(c.active) + (I32(c.start) + (I32(c.netDelta) + I32(c.velocity)))))
  }

  function ReadCell(b: Bytes, at: nat): (c: Cell)
    requires at + 24 <= |b|
    ensures CellFits(c)
  {
    Cell(ReadU32(b, at), ReadU32(b, at + 4), ReadU32(b, at + 8),
         ReadI32(b, at + 12), ReadI32(b, at + 16), ReadI32(b, at + 20))
  }

  lemma ReadCellAt(b: Bytes, at: nat, c: Cell)
    requires CellFits(c) && At(b, at, PackCell(c))
    ensures ReadCell(b, at) == c
  {
    hide U32, I32, ReadU32, ReadI32;
    AtSplit(b, at, U32(c.at), U32(c.still) + (U32(c.active) + (I32(c.start) + (I32(c.netDelta) + I32(c.velocity)))));
    AtSplit(b, at + 4, U32(c.still), U32(c.active) + (I32(c.start) + (I32(c.netDelta) + I32(c.velocity))));
    AtSplit(b, at + 8, U32(c.active), I32(c.start) + (I32(c.netDelta) + I32(c.velocity)));
    AtSplit(b, at + 12, I32(c.start), I32(c.netDelta) + I32(c.velocity));
    AtSplit(b, at + 16, I32(c.netDelta), I32(c.velocity));
    ReadU32At(b, at, c.at);
    ReadU32At(b, at + 4, c.still);
    ReadU32At(b, at + 8, c.active);
    ReadI32At(b, at + 12, c.start);
    ReadI32At(b, at + 16, c.netDelta);
    ReadI32At(b, at + 20, c.velocity);
  }

  predicate AllFit(cells: seq<Cell>) {
    forall c :: c in cells ==> CellFits(c)
  }

  function PackCells(cells: seq<Cell>): (b: Bytes)
    requires AllFit(cells)
    ensures |b| == 24 * |cells|
  {
    if cells == [] then [] else PackCell(cells[0]) + PackCells(cells[1..])
  }

  predicate SamplesFit(s: seq<int>) {
    forall k :: 0 <= k < |s| ==> FitsI32(s[k])
  }

  /** `struct.pack(">{n}i", *s)`. */
  function Raw(s: seq<int>): Bytes
    requires SamplesFit(s)
  {
    if s == [] then [] else I32(s[0]) + Raw(s[1..])
  }

  function Encode(h: Sha256, s: seq<int>): Result<Bytes, PyError> {
    var cells := CellsFrom(s, 0);
    if SamplesFit(s) && |s| < U32_LIMIT && |cells| < U32_LIMIT && AllFit(cells) then
      Ok(FileDelta.MAGIC + [MODE_TEMPORAL] + h(Raw(s)) + (U32(|s|) + (U32(|cells|) + PackCells(cells))))
    else Err(StructError)
  }

  /** The two inner loops of the encoder: how long the sample stays, then how long it moves. */
  method CutCell(s: seq<int>, i: nat) returns (cell: Cell)
    requires i < |s|
    ensures cell == CellAt(s, i)
  {
    hide RunEnd, RampEnd;
    var v0 := s[i];
    var rem := ScanRun(s, i + 1, v0);
    var active, velocity := 0, 0;
    if rem < |s| {
      velocity := s[rem] - v0;
      var end := ScanRamp(s, rem, velocity);
      active := end - rem;
    }
    cell := Cell(i, rem - i, active, v0, velocity * active, velocity);
  }

  lemma CellsUnfold(s: seq<int>, i: nat)
    requires i < |s|
    ensures CellsFrom(s, i) == [CellAt(s, i)] + CellsFrom(s, Next(CellAt(s, i)))
  {
  }

  lemma AllFitAppend(cells: seq<Cell>, c: Cell, rest: seq<Cell>)
    ensures AllFit(cells + [c]) <==> AllFit(cells) && CellFits(c)
    ensures AllFit(cells + ([c] + rest)) ==> CellFits(c)
  {
    hide CellFits;
    assert forall d :: d in cells + [c] <==> d in cells || d == c;
    assert (cells + ([c] + rest))[|cells|] == c;
  }

  /** The encoder's outer loop; a cell that overflows its fields raises at once. */
  method CutCells(s: seq<int>) returns (cells: seq<Cell>, raised: bool)
    ensures raised <==> !AllFit(CellsFrom(s, 0))
    ensures !raised ==> cells == CellsFrom(s, 0)
  {
    hide CellAt, CellFits, CellsFrom, AllFit;
    cells := [];
    var i := 0;
    NoCellsAfter(s);
    while i < |s|
      invariant i <= |s|
      invariant cells + CellsFrom(s, i) == CellsFrom(s, 0)
      invariant AllFit(cells)
    {
      var cell := CutCell(s, i);
      CellsUnfold(s, i);
      AllFitAppend(cells, cell, CellsFrom(s, Next(cell)));
      if !CellFits(cell) {
        return [], true;
      }
      cells := cells + [cell];
      i := i + cell.still + cell.active;
    }
    assert cells + [] == cells;
    raised := false;
  }

  lemma NoCellsAfter(s: seq<int>)
    ensures AllFit([]) && CellsFrom(s, |s|) == []
  {
  }

  method EncodeTemporalSeries(h: Sha256, s: seq<int>) returns (r: Result<Bytes, PyError>)
    ensures r == Encode(h, s)
  {
    hide CellsFrom, PackCells, U32, Raw, CellFits;
    if !SamplesFit(s) {
      return Err(StructError);
    }
    var cells, raised := CutCells(s);
    if raised || |s| >= U32_LIMIT || |cells| >= U32_LIMIT {
      return Err(StructError);
    }
    r := Ok(FileDelta.MAGIC + [MODE_TEMPORAL] + h(Raw(s)) + (U32(|s|) + (U32(|cells|) + PackCells(cells))));
  }

  // ----- decoding ------------------------------------------------------------------

  /** Positions a cell writes all exist. */
  predicate Writable(n: nat, c: Cell) {
    (c.still > 0 ==> c.at + c.still <= n) && (c.active > 0 ==> Next(c) <= n)
  }

  function Write(recon: seq<int>, c: Cell): (w: seq<int>)
    requires Writable(|recon|, c)
    ensures |w| == |recon|
  {
    seq(|recon|, k requires 0 <= k < |recon| => if c.at <= k < Next(c) then Sample(c, k) else recon[k])
  }

  function Replay(pkt: Bytes, at: nat, count: nat, recon: seq<int>): Result<seq<int>, PyError>
    decreases count
  {
    if count == 0 then Ok(recon)
    else if at + 24 > |pkt| then Err(StructError)
    else
      var c := ReadCell(pkt, at);
      if Writable(|recon|, c) then Replay(pkt, at + 24, count - 1, Write(recon, c)) else Err(IndexError)
  }

  /** The decoder's report; the code exposes `series` only through its digest. */
  datatype Report = Report(series: seq<int>, byteExact: bool, cellCount: nat)

  function Decode(h: Sha256, pkt: Bytes): Result<Report, PyError> {
    if |pkt| < 49 then Err(StructError)
    else
      var n, count := ReadU32(pkt, 41), ReadU32(pkt, 45);
      match Replay(pkt, 49, count, seq(n, k => 0))
      case Err(e) => Err(e)
      case Ok(series) =>
        if SamplesFit(series) then Ok(Report(series, h(Raw(series)) == pkt[9..41], count)) else Err(StructError)
  }

  /** The two inner loops of the decoder: one cell written in place, sample by sample. */
  method WriteCell(recon: array<int>, c: Cell) returns (raised: bool)
    modifies recon
    ensures raised <==> !Writable(recon.Length, c)
    ensures !raised ==> recon[..] == Write(old(recon[..]), c)
  {
    for k := 0 to c.still
      invariant k > 0 ==> c.at + k <= recon.Length
      invariant forall m :: 0 <= m < recon.Length ==>
                  recon[m] == if c.at <= m < c.at + k then c.start else old(recon[m])
    {
      if c.at + k >= recon.Length {
        return true;
      }
      recon[c.at + k] := c.start;
    }
    for a := 1 to c.active + 1
      invariant a > 1 ==> c.at + c.still + a - 1 <= recon.Length
      invariant forall m :: 0 <= m < recon.Length ==>
                  recon[m] == if c.at <= m < c.at + c.still + a - 1 then Sample(c, m) else old(recon[m])
    {
      if c.at + c.still + a - 1 >= recon.Length {
        return true;
      }
      recon[c.at + c.still + a - 1] := c.start + c.velocity * a;
    }
    raised := false;
  }

  method DecodeTemporalSeries(h: Sha256, pkt: Bytes) returns (r: Result<Report, PyError>)
    ensures r == Decode(h, pkt)
  {
    hide ReadU32, Raw, Writable, Write, ReadCell;
    if |pkt| < 49 {
      return Err(StructError);
    }
    var n, count := ReadU32(pkt, 41), ReadU32(pkt, 45);
    var recon := new int[n](k => 0);
    assert recon[..] == seq(n, k => 0);
    var offset := 49;
    for done := 0 to count
      invariant offset >= 49
      invariant Replay(pkt, offset, count - done, recon[..]) == Replay(pkt, 49, count, seq(n, k => 0))
    {
      if offset + 24 > |pkt| {
        return Err(StructError);
      }
      var cell := ReadCell(pkt, offset);
      offset := offset + 24;
      var raised := WriteCell(recon, cell);
      if raised {
        return Err(IndexError);
      }
    }
    if !SamplesFit(recon[..]) {
      return Err(StructError);
    }
    r := Ok(Report(recon[..], h(Raw(recon[..])) == pkt[9..41], count));
  }

  // ----- theorems --------------------------------------------------------------------

  /** The cells partition the series: each starts where the one before ended, the last ends at n. */
  lemma {:induction false} CellsPartition(s: seq<int>, i: nat)
    requires i <= |s|
    ensures var cells := CellsFrom(s, i);
            && (cells == [] ==> i == |s|)
            && (cells != [] ==> cells[0].at == i && Next(cells[|cells| - 1]) == |s|)
            && (forall k :: 0 < k < |cells| ==> cells[k].at == Next(cells[k - 1]))
    decreases |s| - i
  {
    hide CellAt;
    if i < |s| {
      var c := CellAt(s, i);
      CellsPartition(s, Next(c));
      var cells, rest := CellsFrom(s, i), CellsFrom(s, Next(c));
      assert forall k :: 0 < k < |cells| ==> cells[k] == rest[k - 1];
    }
  }

  /** Every cell but the last covers at least two samples. */
  lemma {:induction false} CellCount(s: seq<int>, i: nat)
    requires i <= |s|
    ensures 2 * |CellsFrom(s, i)| <= |s| - i + 1
    ensures i == |s| ==> CellsFrom(s, i) == []
    decreases |s| - i
  {
    if i < |s| {
      CellCount(s, Next(CellAt(s, i)));
    }
  }

  lemma {:induction false} ReplayRebuilds(pkt: Bytes, at: nat, s: seq<int>, i: nat, recon: seq<int>)
    requires i <= |s| == |recon| && recon[..i] == s[..i]
    requires AllFit(CellsFrom(s, i)) && At(pkt, at, PackCells(CellsFrom(s, i)))
    ensures Replay(pkt, at, |CellsFrom(s, i)|, recon) == Ok(s)
    decreases |s| - i
  {
    hide PackCell, ReadCell, CellFits, CellAt;
    if i == |s| {
      assert recon == recon[..i] && s == s[..i];
    } else {
      var c := CellAt(s, i);
      var rest := CellsFrom(s, Next(c));
      assert CellsFrom(s, i)[0] == c && CellsFrom(s, i)[1..] == rest;
      AtSplit(pkt, at, PackCell(c), PackCells(rest));
      ReadCellAt(pkt, at, c);
      var next := Write(recon, c);
      forall k | 0 <= k < Next(c)
        ensures next[k] == s[k]
      {
        if i <= k {
          CellIsExact(s, i, k);
        } else {
          assert recon[k] == recon[..i][k] == s[..i][k];
        }
      }
      ReplayRebuilds(pkt, at + 24, s, Next(c), next);
    }
  }

  lemma PacketFields(head: Bytes, digest: Bytes, n: nat, count: nat, cells: Bytes)
    requires |head| == 9 && |digest| == 32 && n < U32_LIMIT && count < U32_LIMIT
    ensures var pkt := head + digest + (U32(n) + (U32(count) + cells));
            && |pkt| >= 49 && pkt[9..41] == digest && ReadU32(pkt, 41) == n && ReadU32(pkt, 45) == count
            && At(pkt, 49, cells)
  {
    hide U32, ReadU32;
    var body := U32(n) + (U32(count) + cells);
    var pkt := head + digest + body;
    assert pkt[9..41] == digest;
    assert pkt[41..] == body;
    AtSplit(pkt, 41, U32(n), U32(count) + cells);
    AtSplit(pkt, 45, U32(count), cells);
    ReadU32At(pkt, 41, n);
    ReadU32At(pkt, 45, count);
  }

  lemma PacketLength(h: Sha256, s: seq<int>)
    requires Encode(h, s).Ok?
    ensures |Encode(h, s).value| == 49 + 24 * |CellsFrom(s, 0)|
  {
    hide PackCells, U32, Raw, CellsFrom, AllFit, SamplesFit, FitsI32;
  }

  /** A packet is at most 49 + 24 * ceil(n / 2) bytes long. */
  lemma PacketIsShort(h: Sha256, s: seq<int>)
    requires Encode(h, s).Ok?
    ensures |Encode(h, s).value| <= 49 + 24 * ((|s| + 1) / 2)
  {
    hide Encode, CellsFrom;
    CellCount(s, 0);
    PacketLength(h, s);
  }

  /** Every packet decodes to the very series it was made from, with a matching digest. */
  lemma RoundTrip(h: Sha256, s: seq<int>)
    requires Encode(h, s).Ok?
    ensures Decode(h, Encode(h, s).value) == Ok(Report(s, true, |CellsFrom(s, 0)|))
  {
    hide PackCells, U32, ReadU32, Raw, CellsFrom, Replay, AllFit, At;
    var cells := CellsFrom(s, 0);
    var pkt := Encode(h, s).value;
    PacketFields(FileDelta.MAGIC + [MODE_TEMPORAL], h(Raw(s)), |s|, |cells|, PackCells(cells));
    ReplayRebuilds(pkt, 49, s, 0, seq(|s|, k => 0));
  }

  /** Between the first and the last sample of a cell the series moves by a signed 32-bit amount. */
  predicate NarrowCell(s: seq<int>, c: Cell) {
    c.at < Next(c) <= |s| && FitsI32(s[Next(c) - 1] - s[c.at])
  }

  /** The velocity divides the net change, so it fits whenever the net change does. */
  lemma VelocityFits(s: seq<int>, i: nat)
    requires i < |s|
    ensures FitsI32(CellAt(s, i).netDelta) ==> FitsI32(CellAt(s, i).velocity)
  {
    hide RunEnd, RampEnd;
    var c := CellAt(s, i);
    assert c.netDelta == c.velocity * c.active && (c.active == 0 ==> c.velocity == 0);
    if c.active > 0 {
      FactorIsSmaller(c.velocity, c.active);
    }
  }

  lemma FactorIsSmaller(v: int, n: int)
    requires n > 0
    ensures 0 <= v <= v * n || v * n <= v <= 0
  {
  }

  lemma CellFitsIff(s: seq<int>, i: nat)
    requires i < |s| < U32_LIMIT && SamplesFit(s)
    ensures CellFits(CellAt(s, i)) <==> NarrowCell(s, CellAt(s, i))
  {
    hide RunEnd, RampEnd;
    NetDeltaIsDifference(s, i);
    VelocityFits(s, i);
  }

  lemma {:induction false} CellsFitIff(s: seq<int>, i: nat)
    requires i <= |s| < U32_LIMIT && SamplesFit(s)
    ensures AllFit(CellsFrom(s, i)) <==> forall c :: c in CellsFrom(s, i) ==> NarrowCell(s, c)
    decreases |s| - i
  {
    hide CellAt, CellFits, NarrowCell;
    if i < |s| {
      var c := CellAt(s, i);
      CellFitsIff(s, i);
      CellsFitIff(s, Next(c));
      assert CellsFrom(s, i) == [c] + CellsFrom(s, Next(c));
      assert forall d :: d in CellsFrom(s, i) <==> d == c || d in CellsFrom(s, Next(c));
    }
  }

  /**
   * The exact condition of acceptance: the samples fit, and so does the net change of each cell.
   * A jump between two cells may be of any size, since it is never stored.
   */
  lemma EncodesIff(h: Sha256, s: seq<int>)
    ensures Encode(h, s).Ok? <==>
              |s| < U32_LIMIT && SamplesFit(s) && forall c :: c in CellsFrom(s, 0) ==> NarrowCell(s, c)
  {
    hide CellsFrom, NarrowCell, AllFit, SamplesFit, PackCells, Raw;
    CellCount(s, 0);
    if |s| < U32_LIMIT && SamplesFit(s) {
      CellsFitIff(s, 0);
    }
  }

  /** The cells lie inside the series. */
  lemma {:induction false} CellsInside(s: seq<int>, i: nat)
    requires i <= |s|
    ensures forall c :: c in CellsFrom(s, i) ==> c.at < Next(c) <= |s|
    decreases |s| - i
  {
    hide RunEnd, RampEnd;
    if i < |s| {
      CellsInside(s, Next(CellAt(s, i)));
    }
  }

  /** Every series within [-2^30, 2^30) is accepted, however it moves. */
  lemma NarrowSeriesEncode(h: Sha256, s: seq<int>)
    requires |s| < U32_LIMIT && forall k :: 0 <= k < |s| ==> -0x4000_0000 <= s[k] < 0x4000_0000
    ensures Encode(h, s).Ok?
  {
    hide CellsFrom, Encode;
    EncodesIff(h, s);
    CellsInside(s, 0);
  }

  /** Fitting samples alone do not suffice: two extreme ones overflow the velocity field. */
  lemma ExtremeJumpIsRejected(h: Sha256)
    ensures var s := [-0x8000_0000, 0x7fff_ffff]; SamplesFit(s) && Encode(h, s) == Err(StructError)
  {
    var s := [-0x8000_0000, 0x7fff_ffff];
    assert CellAt(s, 0).velocity == 0xffff_ffff;
    assert CellAt(s, 0) in CellsFrom(s, 0);
  }

  /** A spread beyond 32 bits is no obstacle as such: here the extreme jump falls between two cells. */
  lemma JumpBetweenCellsIsAccepted(h: Sha256)
    ensures var s := [0, -0x8000_0000, 0x7fff_ffff]; !FitsI32(s[2] - s[1]) && Encode(h, s).Ok?
  {
    hide Encode, RunEnd, RampEnd, Raw, CellsFrom;
    var s := [0, -0x8000_0000, 0x7fff_ffff];
    assert |s| == 3 && s[0] == 0 && s[1] == -0x8000_0000 && s[2] == 0x7fff_ffff;
    EncodesIff(h, s);
    assert SamplesFit(s);
    var c, d := CellAt(s, 0), CellAt(s, 2);
    assert Next(c) == 2 by {
      assert RunEnd(s, 1, 0) == 1;
      assert RampEnd(s, 1, -0x8000_0000) == 2;
    }
    TwoCells(s, c, d);
  }

  lemma TwoCells(s: seq<int>, c: Cell, d: Cell)
    requires |s| == 3 && c == CellAt(s, 0) && Next(c) == 2 && d == CellAt(s, 2)
    ensures CellsFrom(s, 0) == [c, d]
  {
    hide CellAt;
    assert CellsFrom(s, 2) == [d] + CellsFrom(s, 3);
  }

  // ----- what the decoder makes of any packet --------------------------------------------

  /** The cells a packet announces, as far as they are there. */
  function CellsAt(pkt: Bytes, at: nat, count: nat): (cells: seq<Cell>)
    requires at + 24 * count <= |pkt|
    ensures |cells| == count
  {
    seq(count, i requires 0 <= i < count => ReadCell(pkt, at + 24 * i))
  }

  /** The sample the last cell over position `k` prescribes, or zero where there is none. */
  function LastWord(cells: seq<Cell>, k: nat): int {
    if cells == [] then 0
    else
      var c := cells[|cells| - 1];
      if c.at <= k < c.at + c.still then c.start
      else if c.at + c.still <= k < c.at + c.still + c.active then c.start + c.velocity * (k - c.at - c.still + 1)
      else LastWord(cells[..|cells| - 1], k)
  }

  /** No cell that writes anything writes beyond `n`. */
  predicate AllInside(cells: seq<Cell>, n: nat) {
    forall c :: c in cells ==>
      (c.still > 0 ==> c.at + c.still <= n) && (c.active > 0 ==> c.at + c.still + c.active <= n)
  }

  /** The samples after the first `i` cells. */
  function Written(cells: seq<Cell>, n: nat): (s: seq<int>)
    ensures |s| == n
  {
    seq(n, k requires 0 <= k < n => LastWord(cells, k))
  }

  lemma WriteNext(cells: seq<Cell>, c: Cell, n: nat)
    requires Writable(n, c)
    ensures Write(Written(cells, n), c) == Written(cells + [c], n)
  {
    assert (cells + [c])[..|cells|] == cells;
    forall k | 0 <= k < n
      ensures Write(Written(cells, n), c)[k] == LastWord(cells + [c], k)
    {
    }
  }

  lemma {:induction false} ReplayWrites(pkt: Bytes, start: nat, count: nat, n: nat, done: nat)
    requires done <= count && start + 24 * count <= |pkt|
    requires AllInside(CellsAt(pkt, start, count)[..done], n)
    ensures var cells := CellsAt(pkt, start, count);
            Replay(pkt, start + 24 * done, count - done, Written(cells[..done], n))
            == if AllInside(cells, n) then Ok(Written(cells, n)) else Err(IndexError)
    decreases count - done
  {
    hide ReadCell, Write, LastWord, Written;
    var cells := CellsAt(pkt, start, count);
    if done == count {
      assert cells[..done] == cells;
    } else {
      var c := cells[done];
      assert cells[..done + 1] == cells[..done] + [c] && c in cells;
      if Writable(n, c) {
        WriteNext(cells[..done], c, n);
        ReplayWrites(pkt, start, count, n, done + 1);
      }
    }
  }

  lemma {:induction false} ReplayOn(pkt: Bytes, at: nat, m: nat, count: nat, recon: seq<int>)
    requires m <= count
    ensures Replay(pkt, at, count, recon) ==
            match Replay(pkt, at, m, recon)
            case Err(e) => Err(e)
            case Ok(r) => Replay(pkt, at + 24 * m, count - m, r)
    decreases m
  {
    hide ReadCell, Write, Writable;
    if m > 0 && at + 24 <= |pkt| && Writable(|recon|, ReadCell(pkt, at)) {
      ReplayOn(pkt, at + 24, m - 1, count - 1, Write(recon, ReadCell(pkt, at)));
    }
  }

  /** How many of the announced cells are there in full. */
  function CellsThere(pkt: Bytes, count: nat): (m: nat)
    requires |pkt| >= 49
    ensures m <= count && 49 + 24 * m <= |pkt| && (m < count ==> |pkt| < 49 + 24 * (m + 1))
    ensures m == count <==> 49 + 24 * count <= |pkt|
  {
    if 49 + 24 * count <= |pkt| then count else (|pkt| - 49) / 24
  }

  lemma ReplayRunsOut(pkt: Bytes, count: nat, n: nat)
    requires |pkt| >= 49 && CellsThere(pkt, count) < count
    ensures Replay(pkt, 49, count, seq(n, k => 0))
            == if AllInside(CellsAt(pkt, 49, CellsThere(pkt, count)), n) then Err(StructError) else Err(IndexError)
  {
    hide CellsAt, AllInside, Written, CellsThere;
    var m := CellsThere(pkt, count);
    StartWritten(pkt, n, m);
    ReplayWrites(pkt, 49, m, n, 0);
    ReplayOn(pkt, 49, m, count, seq(n, k => 0));
  }

  /**
   * Any packet at all: it decodes if and only if it has its header and all the cells it announces,
   * none of them writes past the announced length, and the samples fit. Each sample is then what
   * the last cell over it says. It is exact if and only if the digest in the header is that of the
   * samples; the first nine bytes, and any after the cells, do not matter.
   */
  lemma DecodesIff(h: Sha256, pkt: Bytes)
    ensures Decode(h, pkt).Ok? <==>
              && |pkt| >= 49 && |pkt| >= 49 + 24 * ReadU32(pkt, 45)
              && AllInside(CellsAt(pkt, 49, ReadU32(pkt, 45)), ReadU32(pkt, 41))
              && SamplesFit(Written(CellsAt(pkt, 49, ReadU32(pkt, 45)), ReadU32(pkt, 41)))
    ensures Decode(h, pkt).Ok? ==>
              var series := Written(CellsAt(pkt, 49, ReadU32(pkt, 45)), ReadU32(pkt, 41));
              Decode(h, pkt) == Ok(Report(series, h(Raw(series)) == pkt[9..41], ReadU32(pkt, 45)))
  {
    hide ReadU32, CellsAt, AllInside, Written, SamplesFit, Raw, Replay;
    if |pkt| >= 49 {
      var n, count := ReadU32(pkt, 41), ReadU32(pkt, 45);
      if 49 + 24 * count <= |pkt| {
        StartWritten(pkt, n, count);
        ReplayWrites(pkt, 49, count, n, 0);
      } else {
        ReplayRunsOut(pkt, count, n);
      }
    }
  }

  lemma StartWritten(pkt: Bytes, n: nat, count: nat)
    requires 49 + 24 * count <= |pkt|
    ensures Written(CellsAt(pkt, 49, count)[..0], n) == seq(n, k => 0) && AllInside(CellsAt(pkt, 49, count)[..0], n)
  {
  }

  /**
   * What the other packets raise: the error of the index if a cell that is there writes too far, and
   * otherwise that of the unpacking or packing, for a packet that is cut short or a sample that does not fit.
   */
  lemma DecodeRaises(h: Sha256, pkt: Bytes)
    ensures |pkt| < 49 ==> Decode(h, pkt) == Err(StructError)
    ensures |pkt| >= 49 ==>
              var n, count := ReadU32(pkt, 41), ReadU32(pkt, 45);
              var cells := CellsAt(pkt, 49, CellsThere(pkt, count));
              if !AllInside(cells, n) then Decode(h, pkt) == Err(IndexError)
              else |cells| < count || !SamplesFit(Written(cells, n)) ==> Decode(h, pkt) == Err(StructError)
  {
    hide ReadU32, CellsAt, AllInside, Written, SamplesFit, Raw, Replay, CellsThere;
    if |pkt| >= 49 {
      var n, count := ReadU32(pkt, 41), ReadU32(pkt, 45);
      if CellsThere(pkt, count) < count {
        ReplayRunsOut(pkt, count, n);
      } else {
        StartWritten(pkt, n, count);
        ReplayWrites(pkt, 49, count, n, 0);
      }
    }
  }

  /**
   * Whatever follows the header of an encoder's packet: what decodes is reported as exact if and
   * only if its samples have the digest of the series. Exact with another series is a collision.
   */
  lemma ForeignCells(h: Sha256, s: seq<int>, body: Bytes)
    requires Encode(h, s).Ok? && Decode(h, Encode(h, s).value[..41] + body).Ok?
    ensures var r := Decode(h, Encode(h, s).value[..41] + body).value;
            && SamplesFit(s) && SamplesFit(r.series)
            && (r.byteExact <==> h(Raw(r.series)) == h(Raw(s)))
            && (r.byteExact && r.series != s ==> Raw(r.series) != Raw(s) && h(Raw(r.series)) == h(Raw(s)))
  {
    hide Decode, Raw, SamplesFit, CellsFrom, PackCells, U32, ReadU32, Written, AllInside, CellsAt, AllFit;
    var pkt := Encode(h, s).value;
    var forged := pkt[..41] + body;
    DigestPlace(FileDelta.MAGIC + [MODE_TEMPORAL], h(Raw(s)), U32(|s|) + (U32(|CellsFrom(s, 0)|) + PackCells(CellsFrom(s, 0))), body);
    DecodesIff(h, forged);
    var series := Decode(h, forged).value.series;
    if Raw(series) == Raw(s) {
      RawApart(series, s);
    }
  }

  lemma DigestPlace(head: Bytes, digest: Bytes, rest: Bytes, body: Bytes)
    requires |head| == 9 && |digest| == 32
    ensures ((head + digest + rest)[..41] + body)[9..41] == digest
  {
    assert (head + digest + rest)[..41] == head + digest;
  }

  lemma {:induction false} RawApart(s: seq<int>, t: seq<int>)
    requires SamplesFit(s) && SamplesFit(t) && Raw(s) == Raw(t)
    ensures s == t
  {
    hide I32, ReadI32;
    RawSize(s);
    RawSize(t);
    if s != [] {
      var b := Raw(s);
      assert b[0..4] == I32(s[0]) == I32(t[0]);
      ReadI32At(b, 0, s[0]);
      ReadI32At(b, 0, t[0]);
      assert b[4..] == Raw(s[1..]) == Raw(t[1..]);
      RawApart(s[1..], t[1..]);
      assert s == [s[0]] + s[1..] && t == [t[0]] + t[1..];
    }
  }

  lemma {:induction false} RawSize(s: seq<int>)
    requires SamplesFit(s)
    ensures |Raw(s)| == 4 * |s|
  {
    hide I32;
    if s != [] {
      RawSize(s[1..]);
    }
  }

  // ----- the layout of a packet ----------------------------------------------------------

  /** Where the fields of a cell are. */
  lemma CellLayout(c: Cell)
    requires CellFits(c)
    ensures var b := PackCell(c);
            && b[0..4] == U32(c.at) && b[4..8] == U32(c.still) && b[8..12] == U32(c.active)
            && b[12..16] == I32(c.start) && b[16..20] == I32(c.netDelta) && b[20..24] == I32(c.velocity)
            && ReadCell(b, 0) == c
  {
    hide U32, I32, ReadCell;
    var b := PackCell(c);
    assert At(b, 0, b);
    ReadCellAt(b, 0, c);
  }

  /** What the encoder answers: where the packet holds its digest, its counts and its cells; or the error of the packing. */
  lemma EncodeAnswers(h: Sha256, s: seq<int>)
    ensures Encode(h, s).Err? ==> Encode(h, s) == Err(StructError)
    ensures Encode(h, s).Ok? ==>
              var pkt, cells := Encode(h, s).value, CellsFrom(s, 0);
              && |pkt| == 49 + 24 * |cells| && pkt[..8] == [0x38, 0x44, 0x47, 0x53, 0x54, 0x76, 0x32, 0x33] && pkt[8] == 10
              && SamplesFit(s) && pkt[9..41] == h(Raw(s)) && ReadU32(pkt, 41) == |s| && ReadU32(pkt, 45) == |cells|
              && CellsAt(pkt, 49, |cells|) == cells
  {
    hide PackCells, U32, ReadU32, Raw, CellsFrom, AllFit, At, ReadCell, SamplesFit, CellsAt;
    if Encode(h, s).Ok? {
      var pkt, cells := Encode(h, s).value, CellsFrom(s, 0);
      PacketFields(FileDelta.MAGIC + [MODE_TEMPORAL], h(Raw(s)), |s|, |cells|, PackCells(cells));
      CellsReadBack(pkt, 49, cells);
    }
  }

  lemma {:induction false} CellsReadBack(b: Bytes, at: nat, cells: seq<Cell>)
    requires AllFit(cells) && At(b, at, PackCells(cells))
    ensures at + 24 * |cells| <= |b| && CellsAt(b, at, |cells|) == cells
    decreases |cells|
  {
    hide PackCell, ReadCell, At, CellFits;
    if cells != [] {
      assert cells[0] in cells && forall c :: c in cells[1..] ==> c in cells;
      AtSplit(b, at, PackCell(cells[0]), PackCells(cells[1..]));
      ReadCellAt(b, at, cells[0]);
      CellsReadBack(b, at + 24, cells[1..]);
      forall k | 0 <= k < |cells|
        ensures ReadCell(b, at + 24 * k) == cells[k]
      {
        if k > 0 {
          assert CellsAt(b, at + 24, |cells| - 1)[k - 1] == cells[1..][k - 1];
        }
      }
    } else {
      AtInside(b, at, PackCells(cells));
    }
  }

  lemma AtInside(b: Bytes, at: nat, field: Bytes)
    requires At(b, at, field)
    ensures at + |field| <= |b|
  {
  }
}

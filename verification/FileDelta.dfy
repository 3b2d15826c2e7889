/** The file channel of the transceiver: a prefix/suffix anchor plus block delta, and its decoder. */
module FileDelta {
  import opened Prelude
  import opened ByteCodec

  const MAGIC: Bytes := [0x38, 0x44, 0x47, 0x53, 0x54, 0x76, 0x32, 0x33]
  const BLOCK_SIZE := 256

  /** What Python raises where the source has no answer of its own. */
  datatype PyError = StructError | IndexError | RangeStepError

  datatype Mode = Static | ShiftAnchor | MultiBlock

  datatype Encoded =
    | EncodeHold
    | Packet(mode: Mode, packet: Bytes)

  datatype Decoded =
    | HoldAuthority
    | HoldMagic
    | HoldBaseMismatch
    | HoldUnknownMode
    | HoldReconstruction(digest: Bytes)
    | Verified(payload: Bytes)

  /** `d8_token.startswith("D8_")`. */
  predicate Authorised(token: string) {
    "D8_" <= token
  }

  // ----- anchors --------------------------------------------------------------

  function MinLen(a: Bytes, b: Bytes): nat {
    Min(|a|, |b|)
  }

  /** Where the prefix scan stops when it is started at `k`. */
  function PrefixFrom(a: Bytes, b: Bytes, k: nat): (p: nat)
    requires k <= MinLen(a, b)
    ensures k <= p <= MinLen(a, b)
    decreases MinLen(a, b) - k
  {
    if k < MinLen(a, b) && a[k] == b[k] then PrefixFrom(a, b, k + 1) else k
  }

  /** Where the suffix scan stops when it is started at `k` and may not pass `limit`. */
  function SuffixFrom(a: Bytes, b: Bytes, limit: nat, k: nat): (s: nat)
    requires k <= limit <= MinLen(a, b)
    ensures k <= s <= limit
    decreases limit - k
  {
    if k < limit && a[|a| - 1 - k] == b[|b| - 1 - k] then SuffixFrom(a, b, limit, k + 1) else k
  }

  function PrefixLen(a: Bytes, b: Bytes): (p: nat)
    ensures p <= MinLen(a, b)
  {
    PrefixFrom(a, b, 0)
  }

  function SuffixLen(a: Bytes, b: Bytes): (s: nat)
    ensures PrefixLen(a, b) + s <= MinLen(a, b)
  {
    SuffixFrom(a, b, MinLen(a, b) - PrefixLen(a, b), 0)
  }

  predicate CommonPrefix(a: Bytes, b: Bytes, p: nat) {
    p <= MinLen(a, b) && a[..p] == b[..p]
  }

  predicate CommonSuffix(a: Bytes, b: Bytes, s: nat) {
    s <= MinLen(a, b) && a[|a| - s..] == b[|b| - s..]
  }

  lemma {:induction false} PrefixFromIsLongest(a: Bytes, b: Bytes, k: nat, m: nat)
    requires k <= MinLen(a, b) && CommonPrefix(a, b, k)
    ensures CommonPrefix(a, b, PrefixFrom(a, b, k))
    ensures CommonPrefix(a, b, m) ==> m <= PrefixFrom(a, b, k)
    decreases MinLen(a, b) - k
  {
    if CommonPrefix(a, b, m) && k < m {
      assert a[k] == a[..m][k] == b[..m][k] == b[k];
    }
    if k < MinLen(a, b) && a[k] == b[k] {
      assert a[..k + 1] == a[..k] + [a[k]] && b[..k + 1] == b[..k] + [b[k]];
      PrefixFromIsLongest(a, b, k + 1, m);
    }
  }

  lemma {:induction false} SuffixFromIsLongest(a: Bytes, b: Bytes, limit: nat, k: nat, m: nat)
    requires k <= limit <= MinLen(a, b) && CommonSuffix(a, b, k)
    ensures CommonSuffix(a, b, SuffixFrom(a, b, limit, k))
    ensures m <= limit && CommonSuffix(a, b, m) ==> m <= SuffixFrom(a, b, limit, k)
    decreases limit - k
  {
    if m <= limit && CommonSuffix(a, b, m) && k < m {
      assert a[|a| - 1 - k] == a[|a| - m..][m - 1 - k] == b[|b| - m..][m - 1 - k] == b[|b| - 1 - k];
    }
    if k < limit && a[|a| - 1 - k] == b[|b| - 1 - k] {
      assert a[|a| - (k + 1)..] == [a[|a| - 1 - k]] + a[|a| - k..];
      assert b[|b| - (k + 1)..] == [b[|b| - 1 - k]] + b[|b| - k..];
      SuffixFromIsLongest(a, b, limit, k + 1, m);
    }
  }

  /** The two scans find the longest common prefix, and the longest common suffix beside it. */
  lemma AnchorsAreLongest(a: Bytes, b: Bytes, m: nat)
    ensures CommonPrefix(a, b, m) <==> m <= PrefixLen(a, b)
    ensures m <= MinLen(a, b) - PrefixLen(a, b) ==>
              (CommonSuffix(a, b, m) <==> m <= SuffixLen(a, b))
  {
    var p, s, limit := PrefixLen(a, b), SuffixLen(a, b), MinLen(a, b) - PrefixLen(a, b);
    PrefixFromIsLongest(a, b, 0, m);
    SuffixFromIsLongest(a, b, limit, 0, m);
    if m <= p {
      assert a[..m] == a[..p][..m] && b[..m] == b[..p][..m];
    }
    if m <= s {
      assert a[|a| - m..] == a[|a| - s..][s - m..] && b[|b| - m..] == b[|b| - s..][s - m..];
    }
  }

  function Middle(b: Bytes, p: nat, s: nat): Bytes
    requires p + s <= |b|
  {
    b[p..|b| - s]
  }

  lemma AnchorsRebuild(base: Bytes, target: Bytes)
    ensures Splits(base, target, PrefixLen(base, target), SuffixLen(base, target))
  {
    var p, s := PrefixLen(base, target), SuffixLen(base, target);
    AnchorsAreLongest(base, target, p);
    AnchorsAreLongest(base, target, s);
    assert target == target[..p] + Middle(target, p, s) + target[|target| - s..];
  }

  // ----- blocks -----------------------------------------------------------------

  /** `[b[i:i+size] for i in range(0, len(b), size)]`. */
  function Blocks(b: Bytes, size: nat): (c: seq<Bytes>)
    requires size > 0
    ensures |c| <= |b|
    ensures forall k :: 0 <= k < |c| ==> |c[k]| <= size
  {
    if b == [] then [] else
      var n := Min(size, |b|);
      [b[..n]] + Blocks(b[n..], size)
  }

  lemma {:induction false} JoinOfBlocks(b: Bytes, size: nat)
    requires size > 0
    ensures Join(Blocks(b, size)) == b
  {
    if b != [] {
      var n := Min(size, |b|);
      JoinOfBlocks(b[n..], size);
      assert b == b[..n] + b[n..];
    }
  }

  function PackBlock(index: nat, block: Bytes): Bytes
    requires index < U32_LIMIT && |block| < U32_LIMIT
  {
    U32(index) + U32(|block|) + block
  }

  predicate SameBlock(bc: seq<Bytes>, tc: seq<Bytes>, i: nat)
    requires i < |tc|
  {
    i < |bc| && bc[i] == tc[i]
  }

  /** Every block count and block length fits its 32-bit field. */
  predicate Packable(tc: seq<Bytes>) {
    |tc| < U32_LIMIT && forall k :: 0 <= k < |tc| ==> |tc[k]| < U32_LIMIT
  }

  /** The sub-packets of the blocks from `i` on that the base does not already hold. */
  function DiffsFrom(bc: seq<Bytes>, tc: seq<Bytes>, i: nat): (d: seq<Bytes>)
    requires i <= |tc| && Packable(tc)
    ensures |d| <= |tc| - i
    decreases |tc| - i
  {
    if i == |tc| then []
    else if SameBlock(bc, tc, i) then DiffsFrom(bc, tc, i + 1)
    else [PackBlock(i, tc[i])] + DiffsFrom(bc, tc, i + 1)
  }

  // ----- packets ------------------------------------------------------------------

  function Header(h: Sha256, mode: Byte, base: Bytes, target: Bytes): (r: Bytes)
    ensures |r| == 73
  {
    MAGIC + [mode] + h(base) + h(target)
  }

  function StaticPacket(h: Sha256, base: Bytes, target: Bytes): (r: Bytes)
    requires |target| < U32_LIMIT
    ensures |r| == 77
  {
    Header(h, 0, base, target) + U32(|target|)
  }

  function AnchorFields(base: Bytes, p: nat, s: nat): (r: Bytes)
    requires p + s <= |base| && |base| - s < U32_LIMIT && s < U32_LIMIT
    ensures |r| == 12
  {
    U32(p) + U32(|base| - s) + U32(s)
  }

  /** Anchors of `p` and `s` bytes lie inside both files and fit their 32-bit fields. */
  predicate Anchored(base: Bytes, target: Bytes, p: nat, s: nat) {
    && p + s <= MinLen(base, target)
    && |base| - s < U32_LIMIT && s < U32_LIMIT && |target| - p - s < U32_LIMIT
  }

  function AnchorBody(base: Bytes, target: Bytes, p: nat, s: nat): Bytes
    requires Anchored(base, target, p, s)
  {
    var mid := Middle(target, p, s);
    AnchorFields(base, p, s) + (U32(|mid|) + mid)
  }

  function BlockFields(a: nat, b: nat, c: nat, d: nat): (r: Bytes)
    requires a < U32_LIMIT && b < U32_LIMIT && c < U32_LIMIT && d < U32_LIMIT
    ensures |r| == 16
  {
    U32(a) + U32(b) + U32(c) + U32(d)
  }

  function BlockBody(base: Bytes, target: Bytes, p: nat, s: nat): Bytes
    requires Anchored(base, target, p, s)
  {
    var mid := Middle(target, p, s);
    var tc := Blocks(mid, BLOCK_SIZE);
    var diffs := DiffsFrom(Blocks(Middle(base, p, s), BLOCK_SIZE), tc, 0);
    AnchorFields(base, p, s) + (BlockFields(BLOCK_SIZE, |tc|, |mid|, |diffs|) + Join(diffs))
  }

  /** The smaller of the two delta packets for given anchors. */
  function Smaller(h: Sha256, base: Bytes, target: Bytes, p: nat, s: nat): Encoded
    requires Anchored(base, target, p, s)
  {
    var one := Header(h, 1, base, target) + AnchorBody(base, target, p, s);
    var two := Header(h, 2, base, target) + BlockBody(base, target, p, s);
    if |one| <= |two| then Packet(ShiftAnchor, one) else Packet(MultiBlock, two)
  }

  function Encode(h: Sha256, base: Bytes, target: Bytes, token: string): Result<Encoded, PyError> {
    var p, s := PrefixLen(base, target), SuffixLen(base, target);
    if !Authorised(token) then Ok(EncodeHold)
    else if h(base) == h(target) then
      if |target| < U32_LIMIT then Ok(Packet(Static, StaticPacket(h, base, target))) else Err(StructError)
    else if Anchored(base, target, p, s) then Ok(Smaller(h, base, target, p, s))
    else Err(StructError)
  }

  /** The prefix and suffix loops. */
  method ScanAnchors(base: Bytes, target: Bytes) returns (prefixLen: nat, suffixLen: nat)
    ensures prefixLen == PrefixLen(base, target)
    ensures suffixLen == SuffixLen(base, target)
  {
    prefixLen := 0;
    var minLen := Min(|base|, |target|);
    while prefixLen < minLen && base[prefixLen] == target[prefixLen]
      invariant prefixLen <= minLen
      invariant PrefixFrom(base, target, prefixLen) == PrefixLen(base, target)
    {
      prefixLen := prefixLen + 1;
    }
    suffixLen := 0;
    while suffixLen < minLen - prefixLen && base[|base| - 1 - suffixLen] == target[|target| - 1 - suffixLen]
      invariant suffixLen <= minLen - prefixLen
      invariant SuffixFrom(base, target, minLen - prefixLen, suffixLen) == SuffixLen(base, target)
    {
      suffixLen := suffixLen + 1;
    }
  }

  /** The loop that collects a sub-packet for every block the base does not hold. */
  method ScanBlocks(bChunks: seq<Bytes>, tChunks: seq<Bytes>) returns (diffs: seq<Bytes>)
    requires Packable(tChunks)
    ensures diffs == DiffsFrom(bChunks, tChunks, 0)
  {
    hide PackBlock;
    diffs := [];
    for idx := 0 to |tChunks|
      invariant diffs + DiffsFrom(bChunks, tChunks, idx) == DiffsFrom(bChunks, tChunks, 0)
    {
      if !(idx < |bChunks| && bChunks[idx] == tChunks[idx]) {
        diffs := diffs + [PackBlock(idx, tChunks[idx])];
      }
    }
  }

  /** Builds both delta packets and keeps the smaller. */
  method PackSmaller(h: Sha256, base: Bytes, target: Bytes, prefixLen: nat, suffixLen: nat) returns (r: Encoded)
    requires Anchored(base, target, prefixLen, suffixLen)
    ensures r == Smaller(h, base, target, prefixLen, suffixLen)
  {
    hide U32, Header, Blocks, Join, DiffsFrom, AnchorFields, BlockFields;
    var midTarget := target[prefixLen..|target| - suffixLen];
    var midBase := base[prefixLen..|base| - suffixLen];
    var anchors := AnchorFields(base, prefixLen, suffixLen);
    var mode1 := Header(h, 1, base, target) + (anchors + (U32(|midTarget|) + midTarget));
    var bChunks, tChunks := Blocks(midBase, BLOCK_SIZE), Blocks(midTarget, BLOCK_SIZE);
    var diffs := ScanBlocks(bChunks, tChunks);
    var mode2 := Header(h, 2, base, target)
      + (anchors + (BlockFields(BLOCK_SIZE, |tChunks|, |midTarget|, |diffs|) + Join(diffs)));
    if |mode1| <= |mode2| {
      r := Packet(ShiftAnchor, mode1);
    } else {
      r := Packet(MultiBlock, mode2);
    }
  }

  /** The encoder. */
  method EncodeFileState(h: Sha256, base: Bytes, target: Bytes, token: string)
    returns (r: Result<Encoded, PyError>)
    ensures r == Encode(h, base, target, token)
  {
    hide PrefixLen, SuffixLen, Smaller, StaticPacket;
    if !Authorised(token) {
      return Ok(EncodeHold);
    }
    if h(base) == h(target) {
      if |target| >= U32_LIMIT {
        return Err(StructError);
      }
      return Ok(Packet(Static, StaticPacket(h, base, target)));
    }

    var prefixLen, suffixLen := ScanAnchors(base, target);
    if |base| - suffixLen < U32_LIMIT && suffixLen < U32_LIMIT && |target| - prefixLen - suffixLen < U32_LIMIT {
      var packet := PackSmaller(h, base, target, prefixLen, suffixLen);
      r := Ok(packet);
    } else {
      r := Err(StructError);
    }
  }

  // ----- decoding -------------------------------------------------------------------

  /** The chunk list before any sub-packet is applied: base blocks, padded with empty ones. */
  function Seeded(bc: seq<Bytes>, total: nat): (c: seq<Bytes>)
    ensures |c| == total
  {
    seq(total, i requires 0 <= i => if i < |bc| then bc[i] else [])
  }

  /** Applies `count` sub-packets found at `at`. */
  function Patch(pkt: Bytes, at: nat, count: nat, chunks: seq<Bytes>): Result<seq<Bytes>, PyError>
    decreases count
  {
    if count == 0 then Ok(chunks)
    else if at + 8 > |pkt| then Err(StructError)
    else
      var idx, len := ReadU32(pkt, at), ReadU32(pkt, at + 4);
      if idx >= |chunks| then Err(IndexError)
      else Patch(pkt, at + 8 + len, count - 1, chunks[idx := Slice(pkt, at + 8, at + 8 + len)])
  }

  /** The bytes rebuilt by each packet mode; only called once the base fingerprint matched. */
  function Rebuild(base: Bytes, pkt: Bytes): Result<Option<Bytes>, PyError>
    requires |pkt| >= 9
  {
    if pkt[8] == 0 then
      if |pkt| < 77 then Err(StructError) else Ok(Some(Slice(base, 0, ReadU32(pkt, 73))))
    else if pkt[8] == 1 then
      if |pkt| < 89 then Err(StructError) else
        var p, start, s, len := ReadU32(pkt, 73), ReadU32(pkt, 77), ReadU32(pkt, 81), ReadU32(pkt, 85);
        Ok(Some(Slice(base, 0, p) + Slice(pkt, 89, 89 + len) + Slice(base, start, start + s)))
    else if pkt[8] == 2 then
      if |pkt| < 101 then Err(StructError) else
        var p, start, s := ReadU32(pkt, 73), ReadU32(pkt, 77), ReadU32(pkt, 81);
        var size, total, len, count := ReadU32(pkt, 85), ReadU32(pkt, 89), ReadU32(pkt, 93), ReadU32(pkt, 97);
        if size == 0 then Err(RangeStepError) else
          match Patch(pkt, 101, count, Seeded(Blocks(Slice(base, p, start), size), total))
          case Err(e) => Err(e)
          case Ok(chunks) =>
            Ok(Some(Slice(base, 0, p) + Slice(Join(chunks), 0, len) + Slice(base, start, start + s)))
    else Ok(None)
  }

  function Decode(h: Sha256, base: Bytes, pkt: Bytes, token: string): Result<Decoded, PyError> {
    if !Authorised(token) then Ok(HoldAuthority)
    else if !(MAGIC <= pkt) then Ok(HoldMagic)
    else if |pkt| < 9 then Err(IndexError)
    else if h(base) != Slice(pkt, 9, 41) then Ok(HoldBaseMismatch)
    else
      match Rebuild(base, pkt)
      case Err(e) => Err(e)
      case Ok(None) => Ok(HoldUnknownMode)
      case Ok(Some(bytes)) =>
        if h(bytes) == Slice(pkt, 41, 73) then Ok(Verified(bytes)) else Ok(HoldReconstruction(h(bytes)))
  }

  /** The sub-packet loop: overwrites listed chunks in place while the offset advances. */
  method PatchInPlace(pkt: Bytes, count: nat, chunks: array<Bytes>) returns (raised: Option<PyError>)
    modifies chunks
    ensures match Patch(pkt, 101, count, old(chunks[..]))
            case Ok(c) => raised == None && chunks[..] == c
            case Err(e) => raised == Some(e)
  {
    hide ReadU32;
    var offset := 101;
    for done := 0 to count
      invariant offset >= 101
      invariant Patch(pkt, offset, count - done, chunks[..]) == Patch(pkt, 101, count, old(chunks[..]))
    {
      if offset + 8 > |pkt| {
        return Some(StructError);
      }
      var idx, len := ReadU32(pkt, offset), ReadU32(pkt, offset + 4);
      offset := offset + 8;
      if idx >= chunks.Length {
        return Some(IndexError);
      }
      ghost var was := chunks[..];
      chunks[idx] := Slice(pkt, offset, offset + len);
      assert chunks[..] == was[idx := Slice(pkt, offset, offset + len)];
      offset := offset + len;
    }
    raised := None;
  }

  /** The mode dispatch of the decoder. */
  method RebuildBytes(base: Bytes, pkt: Bytes) returns (r: Result<Option<Bytes>, PyError>)
    requires |pkt| >= 9
    ensures r == Rebuild(base, pkt)
  {
    hide ReadU32, Blocks, Join, Patch;
    if pkt[8] == 0 {
      if |pkt| < 77 {
        return Err(StructError);
      }
      r := Ok(Some(Slice(base, 0, ReadU32(pkt, 73))));
    } else if pkt[8] == 1 {
      if |pkt| < 89 {
        return Err(StructError);
      }
      var p, start, s, len := ReadU32(pkt, 73), ReadU32(pkt, 77), ReadU32(pkt, 81), ReadU32(pkt, 85);
      r := Ok(Some(Slice(base, 0, p) + Slice(pkt, 89, 89 + len) + Slice(base, start, start + s)));
    } else if pkt[8] == 2 {
      if |pkt| < 101 {
        return Err(StructError);
      }
      var p, start, s := ReadU32(pkt, 73), ReadU32(pkt, 77), ReadU32(pkt, 81);
      var size, total, len, count := ReadU32(pkt, 85), ReadU32(pkt, 89), ReadU32(pkt, 93), ReadU32(pkt, 97);
      if size == 0 {
        return Err(RangeStepError);
      }
      var bChunks := Blocks(Slice(base, p, start), size);
      var chunks := new Bytes[total](i requires 0 <= i => if i < |bChunks| then bChunks[i] else []);
      assert chunks[..] == Seeded(bChunks, total);
      var raised := PatchInPlace(pkt, count, chunks);
      if raised.Some? {
        return Err(raised.value);
      }
      r := Ok(Some(Slice(base, 0, p) + Slice(Join(chunks[..]), 0, len) + Slice(base, start, start + s)));
    } else {
      r := Ok(None);
    }
  }

  /** The decoder and its local verifier. */
  method DecodeFileState(h: Sha256, base: Bytes, pkt: Bytes, token: string)
    returns (r: Result<Decoded, PyError>)
    ensures r == Decode(h, base, pkt, token)
  {
    hide Rebuild;
    if !Authorised(token) {
      return Ok(HoldAuthority);
    }
    if !(MAGIC <= pkt) {
      return Ok(HoldMagic);
    }
    if |pkt| < 9 {
      return Err(IndexError);
    }
    if h(base) != Slice(pkt, 9, 41) {
      return Ok(HoldBaseMismatch);
    }
    var rebuilt := RebuildBytes(base, pkt);
    match rebuilt
    case Err(e) => r := Err(e);
    case Ok(None) => r := Ok(HoldUnknownMode);
    case Ok(Some(bytes)) =>
      if h(bytes) == Slice(pkt, 41, 73) {
        r := Ok(Verified(bytes));
      } else {
        r := Ok(HoldReconstruction(h(bytes)));
      }
  }

  // ----- round trip ---------------------------------------------------------------------

  /** The chunks once the blocks before `i` are in place: those of the target, then seeded ones. */
  ghost function Patched(bc: seq<Bytes>, tc: seq<Bytes>, i: nat): (c: seq<Bytes>)
    ensures |c| == |tc|
  {
    seq(|tc|, k requires 0 <= k < |tc| => if k < i then tc[k] else if k < |bc| then bc[k] else [])
  }

  lemma PatchedEnds(bc: seq<Bytes>, tc: seq<Bytes>)
    ensures Patched(bc, tc, 0) == Seeded(bc, |tc|)
    ensures Patched(bc, tc, |tc|) == tc
  {
  }

  lemma PatchedNext(bc: seq<Bytes>, tc: seq<Bytes>, i: nat)
    requires i < |tc|
    ensures Patched(bc, tc, i)[i := tc[i]] == Patched(bc, tc, i + 1)
    ensures SameBlock(bc, tc, i) ==> Patched(bc, tc, i) == Patched(bc, tc, i + 1)
  {
  }

  /** Replaying the encoder's sub-packets over the seeded chunks yields the target's blocks. */
  lemma {:induction false} PatchReplaysDiffs(pkt: Bytes, at: nat, bc: seq<Bytes>, tc: seq<Bytes>, i: nat)
    requires i <= |tc| && Packable(tc)
    requires At(pkt, at, Join(DiffsFrom(bc, tc, i)))
    ensures Patch(pkt, at, |DiffsFrom(bc, tc, i)|, Patched(bc, tc, i)) == Ok(tc)
    decreases |tc| - i
  {
    hide Patch, Patched, DiffsFrom, Join, PackBlock, At, SameBlock;
    DiffsUnfold(bc, tc, i);
    if i == |tc| {
      PatchedEnds(bc, tc);
      PatchNone(pkt, at, tc);
    } else {
      PatchedNext(bc, tc, i);
      if SameBlock(bc, tc, i) {
        PatchReplaysDiffs(pkt, at, bc, tc, i + 1);
      } else {
        var rest := DiffsFrom(bc, tc, i + 1);
        AtSplit(pkt, at, PackBlock(i, tc[i]), Join(rest));
        PatchOne(pkt, at, 1 + |rest|, Patched(bc, tc, i), i, tc[i]);
        PatchReplaysDiffs(pkt, at + 8 + |tc[i]|, bc, tc, i + 1);
      }
    }
  }

  lemma DiffsUnfold(bc: seq<Bytes>, tc: seq<Bytes>, i: nat)
    requires i <= |tc| && Packable(tc)
    ensures i == |tc| ==> DiffsFrom(bc, tc, i) == []
    ensures i < |tc| && SameBlock(bc, tc, i) ==> DiffsFrom(bc, tc, i) == DiffsFrom(bc, tc, i + 1)
    ensures i < |tc| && !SameBlock(bc, tc, i) ==>
              && |DiffsFrom(bc, tc, i)| == 1 + |DiffsFrom(bc, tc, i + 1)|
              && Join(DiffsFrom(bc, tc, i)) == PackBlock(i, tc[i]) + Join(DiffsFrom(bc, tc, i + 1))
              && |PackBlock(i, tc[i])| == 8 + |tc[i]|
  {
    hide SameBlock;
    if i < |tc| && !SameBlock(bc, tc, i) {
      var rest := DiffsFrom(bc, tc, i + 1);
      assert ([PackBlock(i, tc[i])] + rest)[1..] == rest;
    }
  }

  lemma PatchNone(pkt: Bytes, at: nat, chunks: seq<Bytes>)
    ensures Patch(pkt, at, 0, chunks) == Ok(chunks)
  {
  }

  /** One packed sub-packet overwrites one chunk. */
  lemma PatchOne(pkt: Bytes, at: nat, count: nat, chunks: seq<Bytes>, i: nat, block: Bytes)
    requires i < |chunks| && count > 0 && i < U32_LIMIT && |block| < U32_LIMIT
    requires At(pkt, at, PackBlock(i, block))
    ensures Patch(pkt, at, count, chunks) == Patch(pkt, at + 8 + |block|, count - 1, chunks[i := block])
  {
    hide U32, ReadU32;
    AtSplit(pkt, at, U32(i) + U32(|block|), block);
    AtSplit(pkt, at, U32(i), U32(|block|));
    ReadU32At(pkt, at, i);
    ReadU32At(pkt, at + 4, |block|);
    AtIsSlice(pkt, at + 8, block);
  }

  lemma HeaderFields(h: Sha256, mode: Byte, base: Bytes, target: Bytes, body: Bytes)
    ensures var pkt := Header(h, mode, base, target) + body;
            |pkt| >= 73 && MAGIC <= pkt && pkt[8] == mode && Slice(pkt, 9, 41) == h(base) && Slice(pkt, 41, 73) == h(target)
            && At(pkt, 73, body)
  {
    var pkt := Header(h, mode, base, target) + body;
    assert pkt == MAGIC + [mode] + h(base) + (h(target) + body);
    assert pkt[9..41] == h(base) && pkt[41..73] == h(target);
  }

  lemma AnchorFieldsRead(pkt: Bytes, base: Bytes, p: nat, s: nat, rest: Bytes)
    requires p + s <= |base| && |base| - s < U32_LIMIT && s < U32_LIMIT
    requires At(pkt, 73, AnchorFields(base, p, s) + rest)
    ensures ReadU32(pkt, 73) == p && ReadU32(pkt, 77) == |base| - s && ReadU32(pkt, 81) == s
    ensures At(pkt, 85, rest)
  {
    hide U32, ReadU32;
    AtSplit(pkt, 73, AnchorFields(base, p, s), rest);
    AtSplit(pkt, 73, U32(p) + U32(|base| - s), U32(s));
    AtSplit(pkt, 73, U32(p), U32(|base| - s));
    ReadU32At(pkt, 73, p);
    ReadU32At(pkt, 77, |base| - s);
    ReadU32At(pkt, 81, s);
  }

  lemma AtIsSlice(b: Bytes, at: nat, field: Bytes)
    requires At(b, at, field)
    ensures Slice(b, at, at + |field|) == field
  {
  }

  lemma SlicesOfEnds(base: Bytes, p: nat, s: nat)
    requires p + s <= |base|
    ensures Slice(base, 0, p) == base[..p]
    ensures Slice(base, |base| - s, |base| - s + s) == base[|base| - s..]
    ensures Slice(base, p, |base| - s) == Middle(base, p, s)
  {
  }

  /** The anchors and the literal between them rebuild the target from the base. */
  predicate Splits(base: Bytes, target: Bytes, p: nat, s: nat) {
    p + s <= MinLen(base, target) && target == base[..p] + Middle(target, p, s) + base[|base| - s..]
  }

  lemma AnchorBodyRebuilds(pkt: Bytes, base: Bytes, target: Bytes, p: nat, s: nat)
    requires Anchored(base, target, p, s) && Splits(base, target, p, s)
    requires |pkt| >= 9 && pkt[8] == 1 && At(pkt, 73, AnchorBody(base, target, p, s))
    ensures Rebuild(base, pkt) == Ok(Some(target))
  {
    hide U32, ReadU32, AnchorFields;
    var mid := Middle(target, p, s);
    SlicesOfEnds(base, p, s);
    AnchorFieldsRead(pkt, base, p, s, U32(|mid|) + mid);
    AtSplit(pkt, 85, U32(|mid|), mid);
    ReadU32At(pkt, 85, |mid|);
    AtIsSlice(pkt, 89, mid);
  }

  lemma BlockFieldsRead(pkt: Bytes, a: nat, b: nat, c: nat, d: nat, rest: Bytes)
    requires a < U32_LIMIT && b < U32_LIMIT && c < U32_LIMIT && d < U32_LIMIT
    requires At(pkt, 85, BlockFields(a, b, c, d) + rest)
    ensures ReadU32(pkt, 85) == a && ReadU32(pkt, 89) == b && ReadU32(pkt, 93) == c && ReadU32(pkt, 97) == d
    ensures At(pkt, 101, rest)
  {
    hide U32, ReadU32;
    AtSplit(pkt, 85, BlockFields(a, b, c, d), rest);
    AtSplit(pkt, 85, U32(a) + U32(b) + U32(c), U32(d));
    AtSplit(pkt, 85, U32(a) + U32(b), U32(c));
    AtSplit(pkt, 85, U32(a), U32(b));
    ReadU32At(pkt, 85, a);
    ReadU32At(pkt, 89, b);
    ReadU32At(pkt, 93, c);
    ReadU32At(pkt, 97, d);
  }

  lemma BlockBodyRebuilds(pkt: Bytes, base: Bytes, target: Bytes, p: nat, s: nat)
    requires Anchored(base, target, p, s) && Splits(base, target, p, s)
    requires |pkt| >= 9 && pkt[8] == 2 && At(pkt, 73, BlockBody(base, target, p, s))
    ensures Rebuild(base, pkt) == Ok(Some(target))
  {
    hide U32, ReadU32, AnchorFields, BlockFields, Blocks, Join, DiffsFrom, Patch, Patched, Seeded;
    var mid, midBase := Middle(target, p, s), Middle(base, p, s);
    var bc, tc := Blocks(midBase, BLOCK_SIZE), Blocks(mid, BLOCK_SIZE);
    var diffs := DiffsFrom(bc, tc, 0);
    SlicesOfEnds(base, p, s);
    AnchorFieldsRead(pkt, base, p, s, BlockFields(BLOCK_SIZE, |tc|, |mid|, |diffs|) + Join(diffs));
    BlockFieldsRead(pkt, BLOCK_SIZE, |tc|, |mid|, |diffs|, Join(diffs));
    PatchedEnds(bc, tc);
    PatchReplaysDiffs(pkt, 101, bc, tc, 0);
    JoinOfBlocks(mid, BLOCK_SIZE);
    assert Slice(mid, 0, |mid|) == mid;
  }

  lemma StaticPacketRebuilds(h: Sha256, base: Bytes, target: Bytes)
    requires |target| < U32_LIMIT
    ensures Rebuild(base, StaticPacket(h, base, target)) == Ok(Some(Slice(base, 0, |target|)))
  {
    hide U32, ReadU32, Header;
    HeaderFields(h, 0, base, target, U32(|target|));
    ReadU32At(StaticPacket(h, base, target), 73, |target|);
  }

  /** Exactly when the mode-0 shortcut is unsound: equal digests, yet the target is no prefix of the base. */
  predicate HarmfulCollision(h: Sha256, base: Bytes, target: Bytes) {
    h(base) == h(target) && !(target <= base)
  }

  lemma DeltaRebuilds(h: Sha256, base: Bytes, target: Bytes, p: nat, s: nat)
    requires Anchored(base, target, p, s) && Splits(base, target, p, s)
    ensures Rebuild(base, Smaller(h, base, target, p, s).packet) == Ok(Some(target))
  {
    hide Rebuild, Header, AnchorBody, BlockBody;
    HeaderFields(h, 1, base, target, AnchorBody(base, target, p, s));
    HeaderFields(h, 2, base, target, BlockBody(base, target, p, s));
    if Smaller(h, base, target, p, s).mode == ShiftAnchor {
      AnchorBodyRebuilds(Smaller(h, base, target, p, s).packet, base, target, p, s);
    } else {
      BlockBodyRebuilds(Smaller(h, base, target, p, s).packet, base, target, p, s);
    }
  }

  /** Every packet carries the digests of both files at fixed places. */
  lemma EncodedHeader(h: Sha256, base: Bytes, target: Bytes, token: string)
    requires Authorised(token) && Encode(h, base, target, token).Ok?
    ensures var enc := Encode(h, base, target, token).value;
            && enc.Packet? && |enc.packet| >= 73 && MAGIC <= enc.packet
            && enc.packet[9..41] == h(base) && enc.packet[41..73] == h(target)
  {
    hide Header, AnchorBody, BlockBody, U32, PrefixLen, SuffixLen;
    var p, s := PrefixLen(base, target), SuffixLen(base, target);
    if h(base) == h(target) {
      HeaderFields(h, 0, base, target, U32(|target|));
    } else {
      HeaderFields(h, 1, base, target, AnchorBody(base, target, p, s));
      HeaderFields(h, 2, base, target, BlockBody(base, target, p, s));
    }
  }

  /**
   * Encoding then decoding against the same base: every packet the encoder emits, in any of
   * its three modes, decodes byte-exactly to the target if and only if the two files are not
   * a harmful digest collision. Below four gigabytes the encoder always emits one.
   */
  lemma RoundTrip(h: Sha256, base: Bytes, target: Bytes, token: string)
    requires Authorised(token)
    ensures |base| < U32_LIMIT && |target| < U32_LIMIT ==> Encode(h, base, target, token).Ok?
    ensures Encode(h, base, target, token).Ok? ==> Encode(h, base, target, token).value.Packet?
    ensures Encode(h, base, target, token).Ok? ==>
              var pkt := Encode(h, base, target, token).value.packet;
              (Decode(h, base, pkt, token) == Ok(Verified(target)) <==> !HarmfulCollision(h, base, target))
  {
    hide Header, Rebuild, U32, Smaller, StaticPacket, PrefixLen, SuffixLen;
    if Encode(h, base, target, token).Ok? {
      EncodedHeader(h, base, target, token);
      if h(base) == h(target) {
        StaticPacketRebuilds(h, base, target);
        assert Slice(base, 0, |target|) == target <==> target <= base;
      } else {
        AnchorsRebuild(base, target);
        DeltaRebuilds(h, base, target, PrefixLen(base, target), SuffixLen(base, target));
      }
    }
  }

  /** A fingerprint that maps every file to the same digest. */
  function FlatDigest(b: Bytes): Bytes {
    seq(32, i => 0)
  }

  /** What a static packet decodes to: the base cut to the target's length, if its digest is the target's. */
  lemma StaticDecodes(h: Sha256, base: Bytes, target: Bytes, token: string)
    requires Authorised(token) && h(base) == h(target) && |target| < U32_LIMIT
    ensures var enc := Encode(h, base, target, token);
            var cut := Slice(base, 0, |target|);
            && enc.Ok? && enc.value.Packet?
            && Decode(h, base, enc.value.packet, token)
               == Ok(if h(cut) == h(target) then Verified(cut) else HoldReconstruction(h(cut)))
  {
    hide Header, Rebuild, U32, StaticPacket, PrefixLen, SuffixLen;
    EncodedHeader(h, base, target, token);
    StaticPacketRebuilds(h, base, target);
  }

  /**
   * A harmful collision is worse than a lost file. Any two files of one length have a fingerprint
   * under which the decoder reports the wrong one as verified.
   */
  lemma CollisionMisleads(base: Bytes, target: Bytes, token: string) returns (h: Sha256)
    requires Authorised(token) && base != target && |base| == |target| < U32_LIMIT
    ensures HarmfulCollision(h, base, target)
    ensures var enc := Encode(h, base, target, token);
            enc.Ok? && enc.value.Packet? && Decode(h, base, enc.value.packet, token) == Ok(Verified(base))
  {
    hide Encode, Decode, Authorised;
    h := FlatDigest;
    assert h(base) == FlatDigest(base) == FlatDigest(target) == h(target);
    StaticDecodes(h, base, target, token);
    assert Slice(base, 0, |target|) == base;
  }

  /** Anchors chosen by the scans leave no longer literal than any common prefix and suffix would. */
  lemma AnchorsCover(base: Bytes, target: Bytes, a: nat, b: nat)
    requires a + b <= MinLen(base, target) && CommonPrefix(base, target, a) && CommonSuffix(base, target, b)
    ensures a + b <= PrefixLen(base, target) + SuffixLen(base, target)
  {
    hide PrefixLen, SuffixLen;
    AnchorsAreLongest(base, target, a);
    var m := Min(b, MinLen(base, target) - PrefixLen(base, target));
    assert base[|base| - m..] == base[|base| - b..][b - m..];
    assert target[|target| - m..] == target[|target| - b..][b - m..];
    AnchorsAreLongest(base, target, m);
  }

  /** The sub-packets the block packet would carry. */
  function BlockDiffs(base: Bytes, target: Bytes): seq<Bytes>
    requires |target| - PrefixLen(base, target) - SuffixLen(base, target) < U32_LIMIT
  {
    var p, s := PrefixLen(base, target), SuffixLen(base, target);
    DiffsFrom(Blocks(Middle(base, p, s), BLOCK_SIZE), Blocks(Middle(target, p, s), BLOCK_SIZE), 0)
  }

  /** The chosen packet is no longer than either delta packet, and 77 bytes for an unchanged file. */
  lemma EncodedSize(h: Sha256, base: Bytes, target: Bytes, token: string)
    requires Authorised(token) && Encode(h, base, target, token).Ok?
    ensures Encode(h, base, target, token).value.Packet?
    ensures |Encode(h, base, target, token).value.packet|
            <= 89 + |target| - PrefixLen(base, target) - SuffixLen(base, target)
    ensures h(base) == h(target) ==> |Encode(h, base, target, token).value.packet| == 77
    ensures h(base) != h(target) ==>
              && |target| - PrefixLen(base, target) - SuffixLen(base, target) < U32_LIMIT
              && |Encode(h, base, target, token).value.packet| <= 101 + |Join(BlockDiffs(base, target))|
  {
    hide Header, PrefixLen, SuffixLen, AnchorFields, BlockFields, U32, DiffsFrom, Blocks, Join;
  }

  /** Each sub-packet is a changed block and costs at most 264 bytes. */
  lemma {:induction false} DiffsAreShort(bc: seq<Bytes>, tc: seq<Bytes>, i: nat)
    requires i <= |tc| && Packable(tc) && forall k :: 0 <= k < |tc| ==> |tc[k]| <= BLOCK_SIZE
    ensures |Join(DiffsFrom(bc, tc, i))| <= 264 * ChangedFrom(bc, tc, i)
    decreases |tc| - i
  {
    hide U32;
    if i < |tc| {
      DiffsAreShort(bc, tc, i + 1);
    }
  }

  /** How many of the target's blocks from `i` on the base does not hold in the same place. */
  function ChangedFrom(bc: seq<Bytes>, tc: seq<Bytes>, i: nat): nat
    requires i <= |tc|
    decreases |tc| - i
  {
    if i == |tc| then 0 else (if SameBlock(bc, tc, i) then 0 else 1) + ChangedFrom(bc, tc, i + 1)
  }

  /** Scattered edits: a packet costs at most 264 bytes for each changed block between the anchors. */
  lemma ScatteredEdits(h: Sha256, base: Bytes, target: Bytes, token: string)
    requires Authorised(token) && Encode(h, base, target, token).Ok?
    ensures Encode(h, base, target, token).value.Packet?
    ensures var p, s := PrefixLen(base, target), SuffixLen(base, target);
            |Encode(h, base, target, token).value.packet| <=
            101 + 264 * ChangedFrom(Blocks(Middle(base, p, s), BLOCK_SIZE), Blocks(Middle(target, p, s), BLOCK_SIZE), 0)
  {
    hide Encode, PrefixLen, SuffixLen, DiffsFrom, Blocks, Join, ChangedFrom;
    var p, s := PrefixLen(base, target), SuffixLen(base, target);
    EncodedSize(h, base, target, token);
    if h(base) != h(target) {
      DiffsAreShort(Blocks(Middle(base, p, s), BLOCK_SIZE), Blocks(Middle(target, p, s), BLOCK_SIZE), 0);
    }
  }

  /**
   * Shift theorem: replacing Y by X anywhere in a file costs at most 89 + |X| bytes,
   * even when the longest common prefix eats into X or into B.
   */
  lemma ShiftTheorem(h: Sha256, A: Bytes, Y: Bytes, X: Bytes, B: Bytes, token: string)
    requires Authorised(token) && Encode(h, A + Y + B, A + X + B, token).Ok?
    ensures Encode(h, A + Y + B, A + X + B, token).value.Packet?
    ensures |Encode(h, A + Y + B, A + X + B, token).value.packet| <= 89 + |X|
  {
    hide Encode, PrefixLen, SuffixLen;
    var base, target := A + Y + B, A + X + B;
    assert base[..|A|] == A == target[..|A|];
    assert base[|base| - |B|..] == B == target[|target| - |B|..];
    AnchorsCover(base, target, |A|, |B|);
    EncodedSize(h, base, target, token);
  }

  /** No literal between a prefix and a suffix of the base describes the target in fewer bytes. */
  lemma AnchorLiteralIsMinimal(h: Sha256, base: Bytes, target: Bytes, p: nat, s: nat, lit: Bytes, token: string)
    requires Authorised(token) && Encode(h, base, target, token).Ok?
    requires p + s <= |base| && target == base[..p] + lit + base[|base| - s..]
    ensures Encode(h, base, target, token).value.Packet?
    ensures |Encode(h, base, target, token).value.packet| <= 89 + |lit|
  {
    hide Encode;
    var A, Y, B := base[..p], base[p..|base| - s], base[|base| - s..];
    assert base == A + Y + B;
    ShiftTheorem(h, A, Y, lit, B, token);
  }

  /** A packet is held back, untouched, by a receiver without authority or with another base file. */
  lemma GuardsHold(h: Sha256, base: Bytes, target: Bytes, token: string, other: Bytes, token': string)
    requires Authorised(token) && Encode(h, base, target, token).Ok?
    ensures Encode(h, base, target, token).value.Packet?
    ensures var pkt := Encode(h, base, target, token).value.packet;
            && (!Authorised(token') ==> Decode(h, other, pkt, token') == Ok(HoldAuthority))
            && (Authorised(token') ==> (Decode(h, other, pkt, token') == Ok(HoldBaseMismatch) <==> h(other) != h(base)))
  {
    hide Encode, Rebuild;
    EncodedHeader(h, base, target, token);
  }

  // ----- what encoder and decoder answer, byte by byte ----------------------------------------

  /** Magic, mode and the two digests. */
  predicate HasHeader(h: Sha256, pkt: Bytes, mode: int, base: Bytes, target: Bytes) {
    && |pkt| >= 73 && pkt[..8] == [0x38, 0x44, 0x47, 0x53, 0x54, 0x76, 0x32, 0x33] && pkt[8] == mode
    && pkt[9..41] == h(base) && pkt[41..73] == h(target)
  }

  /**
   * What the encoder answers: a hold without authority, the static packet on equal digests, and
   * otherwise the anchored packet unless the block packet is shorter, with the fields in their
   * places; an error exactly if a length does not fit its field.
   */
  lemma EncodeAnswers(h: Sha256, base: Bytes, target: Bytes, token: string)
    ensures var p, s := PrefixLen(base, target), SuffixLen(base, target);
            var m, r := |target| - p - s, Encode(h, base, target, token);
            if !("D8_" <= token) then r == Ok(EncodeHold)
            else if h(base) == h(target) then
              if |target| >= U32_LIMIT then r == Err(StructError)
              else
                && r.Ok? && r.value.Packet? && r.value.mode == Static && |r.value.packet| == 77
                && HasHeader(h, r.value.packet, 0, base, target) && ReadU32(r.value.packet, 73) == |target|
            else if |base| - s >= U32_LIMIT || s >= U32_LIMIT || m >= U32_LIMIT then r == Err(StructError)
            else
              && r.Ok? && r.value.Packet? && |r.value.packet| >= 89
              && ReadU32(r.value.packet, 73) == p && ReadU32(r.value.packet, 77) == |base| - s && ReadU32(r.value.packet, 81) == s
              && if m <= 12 + |Join(BlockDiffs(base, target))| then
                   && r.value.mode == ShiftAnchor && HasHeader(h, r.value.packet, 1, base, target)
                   && ReadU32(r.value.packet, 85) == m && r.value.packet[89..] == target[p..p + m]
                 else
                   && r.value.mode == MultiBlock && HasHeader(h, r.value.packet, 2, base, target)
                   && |r.value.packet| >= 101 && ReadU32(r.value.packet, 85) == 256
                   && ReadU32(r.value.packet, 89) == |Blocks(target[p..p + m], 256)| && ReadU32(r.value.packet, 93) == m
                   && ReadU32(r.value.packet, 97) == |BlockDiffs(base, target)|
                   && r.value.packet[101..] == Join(BlockDiffs(base, target))
  {
    hide PrefixLen, SuffixLen, U32, ReadU32, Blocks, Join, DiffsFrom, AnchorBody, BlockBody, Header, StaticPacket, MinLen;
    var p, s := PrefixLen(base, target), SuffixLen(base, target);
    AnchorsFit(base, target);
    if h(base) == h(target) {
      if |target| < U32_LIMIT {
        StaticLayout(h, base, target);
      }
    } else if Anchored(base, target, p, s) {
      AnchorLayout(h, base, target, p, s);
      var tc := Blocks(Middle(target, p, s), BLOCK_SIZE);
      var diffs := BlockDiffs(base, target);
      BlockPacketIs(h, base, target, p, s, tc, diffs, Header(h, 2, base, target) + BlockBody(base, target, p, s));
    }
  }

  lemma AnchorsFit(base: Bytes, target: Bytes)
    ensures PrefixLen(base, target) + SuffixLen(base, target) <= MinLen(base, target)
    ensures MinLen(base, target) <= |base| && MinLen(base, target) <= |target|
  {
  }

  lemma StaticLayout(h: Sha256, base: Bytes, target: Bytes)
    requires |target| < U32_LIMIT
    ensures var pkt := StaticPacket(h, base, target);
            |pkt| == 77 && HasHeader(h, pkt, 0, base, target) && ReadU32(pkt, 73) == |target|
  {
    hide U32, ReadU32, Header;
    HeaderFields(h, 0, base, target, U32(|target|));
    ReadU32At(StaticPacket(h, base, target), 73, |target|);
  }

  lemma AnchorLayout(h: Sha256, base: Bytes, target: Bytes, p: nat, s: nat)
    requires Anchored(base, target, p, s)
    ensures var pkt := Header(h, 1, base, target) + AnchorBody(base, target, p, s);
            var m := |target| - p - s;
            && |pkt| == 89 + m && HasHeader(h, pkt, 1, base, target)
            && ReadU32(pkt, 73) == p && ReadU32(pkt, 77) == |base| - s && ReadU32(pkt, 81) == s && ReadU32(pkt, 85) == m
            && pkt[89..] == target[p..p + m]
  {
    hide U32, ReadU32, Header, AnchorFields;
    var mid := Middle(target, p, s);
    var pkt := Header(h, 1, base, target) + AnchorBody(base, target, p, s);
    HeaderFields(h, 1, base, target, AnchorBody(base, target, p, s));
    AnchorFieldsRead(pkt, base, p, s, U32(|mid|) + mid);
    AtSplit(pkt, 85, U32(|mid|), mid);
    ReadU32At(pkt, 85, |mid|);
    assert pkt[89..] == pkt[89..89 + |mid|];
  }

  lemma HeaderIs(h: Sha256, mode: Byte, base: Bytes, target: Bytes, body: Bytes, pkt: Bytes)
    requires pkt == Header(h, mode, base, target) + body
    ensures |pkt| == 73 + |body| && HasHeader(h, pkt, mode as int, base, target) && At(pkt, 73, body)
  {
    hide Header;
    HeaderFields(h, mode, base, target, body);
  }

  /** The fields of a block packet between its header and its sub-packets. */
  predicate HasBlocks(pkt: Bytes, p: nat, start: nat, s: nat, blocks: nat, m: nat, count: nat, rest: Bytes) {
    && |pkt| == 101 + |rest|
    && ReadU32(pkt, 73) == p && ReadU32(pkt, 77) == start && ReadU32(pkt, 81) == s
    && ReadU32(pkt, 85) == 256 && ReadU32(pkt, 89) == blocks && ReadU32(pkt, 93) == m
    && ReadU32(pkt, 97) == count && pkt[101..] == rest
  }

  lemma BlockLayout(h: Sha256, base: Bytes, target: Bytes, p: nat, s: nat, blocks: nat, m: nat, count: nat, rest: Bytes,
                    body: Bytes, pkt: Bytes)
    requires p + s <= |base| && |base| - s < U32_LIMIT && s < U32_LIMIT
    requires blocks < U32_LIMIT && m < U32_LIMIT && count < U32_LIMIT
    requires body == AnchorFields(base, p, s) + (BlockFields(BLOCK_SIZE, blocks, m, count) + rest)
    requires pkt == Header(h, 2, base, target) + body
    ensures HasHeader(h, pkt, 2, base, target) && HasBlocks(pkt, p, |base| - s, s, blocks, m, count, rest)
  {
    hide U32, ReadU32, AnchorFields, BlockFields, Header, HasHeader, At, HasBlocks;
    HeaderIs(h, 2, base, target, body, pkt);
    BlockFieldsLayout(pkt, base, p, s, blocks, m, count, rest);
  }

  lemma AtEnd(b: Bytes, at: nat, field: Bytes)
    requires At(b, at, field) && |b| == at + |field|
    ensures b[at..] == field
  {
    assert b[at..] == b[at..at + |field|];
  }

  lemma BlockFieldsLayout(pkt: Bytes, base: Bytes, p: nat, s: nat, blocks: nat, m: nat, count: nat, rest: Bytes)
    requires p + s <= |base| && |base| - s < U32_LIMIT && s < U32_LIMIT
    requires blocks < U32_LIMIT && m < U32_LIMIT && count < U32_LIMIT
    requires At(pkt, 73, AnchorFields(base, p, s) + (BlockFields(BLOCK_SIZE, blocks, m, count) + rest)) && |pkt| == 101 + |rest|
    ensures HasBlocks(pkt, p, |base| - s, s, blocks, m, count, rest)
  {
    hide U32, ReadU32, AnchorFields, BlockFields, At;
    AnchorFieldsRead(pkt, base, p, s, BlockFields(BLOCK_SIZE, blocks, m, count) + rest);
    BlockFieldsRead(pkt, BLOCK_SIZE, blocks, m, count, rest);
    AtEnd(pkt, 101, rest);
  }

  lemma BlockPacketIs(h: Sha256, base: Bytes, target: Bytes, p: nat, s: nat, tc: seq<Bytes>, diffs: seq<Bytes>, pkt: Bytes)
    requires Anchored(base, target, p, s)
    requires tc == Blocks(Middle(target, p, s), BLOCK_SIZE)
    requires diffs == DiffsFrom(Blocks(Middle(base, p, s), BLOCK_SIZE), tc, 0)
    requires pkt == Header(h, 2, base, target) + BlockBody(base, target, p, s)
    ensures HasHeader(h, pkt, 2, base, target)
    ensures HasBlocks(pkt, p, |base| - s, s, |tc|, |target| - p - s, |diffs|, Join(diffs))
  {
    hide U32, ReadU32, Header, AnchorFields, BlockFields, Blocks, Join, DiffsFrom, MinLen, BlockBody, HasHeader, HasBlocks, Middle,
      Anchored, Slice, Packable, SameBlock;
    AnchoredInside(base, target, p, s);
    BlockBodyIs(base, target, p, s, tc, diffs);
    BlockLayout(h, base, target, p, s, |tc|, |target| - p - s, |diffs|, Join(diffs), BlockBody(base, target, p, s), pkt);
  }

  lemma AnchoredInside(base: Bytes, target: Bytes, p: nat, s: nat)
    requires Anchored(base, target, p, s)
    ensures p + s <= |base| && p + s <= |target|
    ensures |base| - s < U32_LIMIT && s < U32_LIMIT && |target| - p - s < U32_LIMIT
  {
  }

  lemma BlockBodyIs(base: Bytes, target: Bytes, p: nat, s: nat, tc: seq<Bytes>, diffs: seq<Bytes>)
    requires Anchored(base, target, p, s)
    requires tc == Blocks(Middle(target, p, s), BLOCK_SIZE)
    requires diffs == DiffsFrom(Blocks(Middle(base, p, s), BLOCK_SIZE), tc, 0)
    ensures |tc| < U32_LIMIT && |diffs| < U32_LIMIT
    ensures BlockBody(base, target, p, s)
            == AnchorFields(base, p, s) + (BlockFields(BLOCK_SIZE, |tc|, |target| - p - s, |diffs|) + Join(diffs))
  {
    hide AnchorFields, BlockFields, Join, Blocks, DiffsFrom, MinLen;
    AnchoredInside(base, target, p, s);
  }

  /** A sub-packet is the number of its block, the length of it, and the block. */
  lemma PackedBlockIs(i: nat, block: Bytes)
    requires i < U32_LIMIT && |block| < U32_LIMIT
    ensures var b := PackBlock(i, block);
            |b| == 8 + |block| && ReadU32(b, 0) == i && ReadU32(b, 4) == |block| && b[8..] == block
  {
    hide U32, ReadU32;
    var b := PackBlock(i, block);
    assert At(b, 0, U32(i) + U32(|block|) + block);
    AtSplit(b, 0, U32(i) + U32(|block|), block);
    AtSplit(b, 0, U32(i), U32(|block|));
    ReadU32At(b, 0, i);
    ReadU32At(b, 4, |block|);
  }

  /** The guards of the decoder, in their order, over any bytes. */
  lemma DecodeGuards(h: Sha256, base: Bytes, pkt: Bytes, token: string)
    ensures var r := Decode(h, base, pkt, token);
            if !("D8_" <= token) then r == Ok(HoldAuthority)
            else if |pkt| < 8 || pkt[..8] != [0x38, 0x44, 0x47, 0x53, 0x54, 0x76, 0x32, 0x33] then r == Ok(HoldMagic)
            else if |pkt| == 8 then r == Err(IndexError)
            else if h(base) != Slice(pkt, 9, 41) then r == Ok(HoldBaseMismatch)
            else if pkt[8] > 2 then r == Ok(HoldUnknownMode)
            else
              match Rebuild(base, pkt)
              case Err(e) => r == Err(e)
              case Ok(None) => false
              case Ok(Some(b)) =>
                if h(b) == Slice(pkt, 41, 73) then r == Ok(Verified(b)) else r == Ok(HoldReconstruction(h(b)))
  {
    hide Slice, Patch, ReadU32, Blocks, Seeded;
  }

  /** What is verified has the digest in the packet, came in a known mode over the right base, and with authority. */
  lemma VerifiedMeans(h: Sha256, base: Bytes, pkt: Bytes, token: string)
    ensures var r := Decode(h, base, pkt, token);
            r.Ok? && r.value.Verified? ==>
              && "D8_" <= token && |pkt| >= 73 && pkt[..8] == [0x38, 0x44, 0x47, 0x53, 0x54, 0x76, 0x32, 0x33] && pkt[8] <= 2
              && pkt[9..41] == h(base) && pkt[41..73] == h(r.value.payload)
  {
    hide Rebuild;
    DecodeGuards(h, base, pkt, token);
    var r := Decode(h, base, pkt, token);
    if r.Ok? && r.value.Verified? {
      assert |Slice(pkt, 41, 73)| == 32;
    }
  }

  /** The first or the last bytes Python gives for a slice: as many as asked for, as far as there are any. */
  function Take(b: Bytes, from: nat, count: nat): Bytes {
    if from >= |b| then [] else if from + count <= |b| then b[from..from + count] else b[from..]
  }

  lemma TakeIsSlice(b: Bytes, from: nat, count: nat)
    ensures Slice(b, from, from + count) == Take(b, from, count)
  {
  }

  /** What the modes with a fixed number of fields rebuild, from any packet and base. */
  lemma RebuildAnswers(base: Bytes, pkt: Bytes)
    requires |pkt| >= 9
    ensures pkt[8] == 0 ==>
              Rebuild(base, pkt) == if |pkt| < 77 then Err(StructError) else Ok(Some(Take(base, 0, ReadU32(pkt, 73))))
    ensures pkt[8] == 1 ==>
              Rebuild(base, pkt) ==
              if |pkt| < 89 then Err(StructError)
              else Ok(Some(Take(base, 0, ReadU32(pkt, 73)) + Take(pkt, 89, ReadU32(pkt, 85))
                           + Take(base, ReadU32(pkt, 77), ReadU32(pkt, 81))))
    ensures pkt[8] == 2 && |pkt| < 101 ==> Rebuild(base, pkt) == Err(StructError)
    ensures pkt[8] == 2 && |pkt| >= 101 && ReadU32(pkt, 85) == 0 ==> Rebuild(base, pkt) == Err(RangeStepError)
  {
    hide ReadU32, Slice, Take, Patch, Blocks, Seeded;
    TakeIsSlice(base, 0, if |pkt| >= 77 then ReadU32(pkt, 73) else 0);
    if |pkt| >= 89 {
      TakeIsSlice(pkt, 89, ReadU32(pkt, 85));
      TakeIsSlice(base, ReadU32(pkt, 77), ReadU32(pkt, 81));
    }
  }

  /**
   * What the block mode rebuilds from any packet: the base's blocks, as many as announced, with the
   * listed ones overwritten in order, joined and cut, between the two ends. The listing fails at
   * the first sub-packet that is not there or names a block beyond the announced number.
   */
  lemma BlocksAnswer(base: Bytes, pkt: Bytes)
    requires |pkt| >= 101 && pkt[8] == 2 && ReadU32(pkt, 85) > 0
    ensures var p, start, s := ReadU32(pkt, 73), ReadU32(pkt, 77), ReadU32(pkt, 81);
            var bc := Blocks(Take(base, p, if p <= start then start - p else 0), ReadU32(pkt, 85));
            var seeds := seq(ReadU32(pkt, 89), i requires 0 <= i => if i < |bc| then bc[i] else []);
            Rebuild(base, pkt) ==
            match Patch(pkt, 101, ReadU32(pkt, 97), seeds)
            case Err(e) => Err(e)
            case Ok(chunks) =>
              Ok(Some(Take(base, 0, p) + Take(Join(chunks), 0, ReadU32(pkt, 93)) + Take(base, start, s)))
  {
    hide ReadU32, Slice, Take, Patch, Blocks, Join;
    var p, start, s := ReadU32(pkt, 73), ReadU32(pkt, 77), ReadU32(pkt, 81);
    TakeIsSlice(base, 0, p);
    TakeIsSlice(base, start, s);
    BetweenIsSlice(base, p, start);
    var bc := Blocks(Slice(base, p, start), ReadU32(pkt, 85));
    assert Seeded(bc, ReadU32(pkt, 89)) == seq(ReadU32(pkt, 89), i requires 0 <= i => if i < |bc| then bc[i] else []);
    match Patch(pkt, 101, ReadU32(pkt, 97), Seeded(bc, ReadU32(pkt, 89)))
    case Err(_) =>
    case Ok(chunks) => TakeIsSlice(Join(chunks), 0, ReadU32(pkt, 93));
  }

  lemma BetweenIsSlice(b: Bytes, from: nat, to: nat)
    ensures Slice(b, from, to) == Take(b, from, if from <= to then to - from else 0)
  {
  }

  lemma PatchAnswers(pkt: Bytes, at: nat, count: nat, chunks: seq<Bytes>)
    ensures count == 0 ==> Patch(pkt, at, count, chunks) == Ok(chunks)
    ensures count > 0 && at + 8 > |pkt| ==> Patch(pkt, at, count, chunks) == Err(StructError)
    ensures count > 0 && at + 8 <= |pkt| ==>
              var i, len := ReadU32(pkt, at), ReadU32(pkt, at + 4);
              Patch(pkt, at, count, chunks) ==
              if i >= |chunks| then Err(IndexError)
              else Patch(pkt, at + 8 + len, count - 1, chunks[i := Take(pkt, at + 8, len)])
  {
    hide ReadU32, Slice, Take;
    if at + 8 <= |pkt| {
      TakeIsSlice(pkt, at + 8, ReadU32(pkt, at + 4));
    }
  }

  // ----- remark ---------------------------------------------------------------------------

  /** `b` is not a second file with the digest of `target`. */
  predicate NoOtherPreimage(h: Sha256, target: Bytes, b: Bytes) {
    h(b) == h(target) ==> b == target
  }

  /**
   * What the decoder's digest test is worth: whatever arrives after the header, a decoder that
   * accepts hands out the target, unless it has found another file with the target's digest.
   */
  lemma AlteredBodyNeverAccepted(h: Sha256, base: Bytes, target: Bytes, token: string, enc: Encoded, body: Bytes)
    requires Authorised(token) && Encode(h, base, target, token) == Ok(enc)
    ensures enc.Packet? && |enc.packet| >= 73
    ensures var d := Decode(h, base, enc.packet[..73] + body, token);
            d.Ok? && d.value.Verified? && NoOtherPreimage(h, target, d.value.payload) ==>
            d.value.payload == target
  {
    hide Encode, Rebuild, Slice;
    EncodedHeader(h, base, target, token);
    HeadKept(enc.packet, body);
  }

  lemma HeadKept(pkt: Bytes, body: Bytes)
    requires |pkt| >= 73
    ensures Slice(pkt[..73] + body, 41, 73) == pkt[41..73]
  {
    var forged := pkt[..73] + body;
    assert forged[41..73] == pkt[41..73];
  }
}

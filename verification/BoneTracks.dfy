/** Skeleton animation: one audio cell per bone and axis. */
module BoneTracks {
  import opened Prelude
  import opened ByteCodec
  import Pcm = PcmCodec

  datatype Vec = Vec(x: int, y: int, z: int)

  type Frames = seq<seq<Vec>>

  datatype BoneError =
    | UnequalBoneCount
    | StructError
    | IndexError
    | TrackError(error: Pcm.PcmError)

  datatype Track = Track(x: Pcm.Bundle, y: Pcm.Bundle, z: Pcm.Bundle)

  datatype Bundle = Bundle(frames: nat, bones: nat, tracks: seq<Track>, digest: Bytes)

  predicate EqualBones(f: Frames, bones: nat) {
    forall t :: 0 <= t < |f| ==> |f[t]| == bones
  }

  function BoneCount(f: Frames): nat {
    if f == [] then 0 else |f[0]|
  }

  /** The coordinates in wire order: frame by frame, bone by bone. */
  function Coords(f: Frames): seq<int> {
    if f == [] then [] else FrameCoords(f[0]) + Coords(f[1..])
  }

  function FrameCoords(bones: seq<Vec>): seq<int> {
    if bones == [] then [] else [bones[0].x, bones[0].y, bones[0].z] + FrameCoords(bones[1..])
  }

  function Column(f: Frames, j: nat, pick: Vec -> int): (c: seq<int>)
    requires forall t :: 0 <= t < |f| ==> j < |f[t]|
    ensures |c| == |f|
  {
    seq(|f|, t requires 0 <= t < |f| => pick(f[t][j]))
  }

  function Xs(f: Frames, j: nat): seq<int>
    requires forall t :: 0 <= t < |f| ==> j < |f[t]|
  {
    Column(f, j, (v: Vec) => v.x)
  }

  function Ys(f: Frames, j: nat): seq<int>
    requires forall t :: 0 <= t < |f| ==> j < |f[t]|
  {
    Column(f, j, (v: Vec) => v.y)
  }

  function Zs(f: Frames, j: nat): seq<int>
    requires forall t :: 0 <= t < |f| ==> j < |f[t]|
  {
    Column(f, j, (v: Vec) => v.z)
  }

  function AnalyzeTrack(h: Sha256, f: Frames, j: nat): Result<Track, BoneError>
    requires forall t :: 0 <= t < |f| ==> j < |f[t]|
  {
    match (Pcm.Analyze(h, Xs(f, j)), Pcm.Analyze(h, Ys(f, j)), Pcm.Analyze(h, Zs(f, j)))
    case (Ok(x), Ok(y), Ok(z)) => Ok(Track(x, y, z))
    case (_, _, _) => Err(StructError)
  }

  function AnalyzeTracks(h: Sha256, f: Frames, j: nat): Result<seq<Track>, BoneError>
    requires j <= BoneCount(f) && EqualBones(f, BoneCount(f))
    decreases BoneCount(f) - j
  {
    if j == BoneCount(f) then Ok([]) else
      match AnalyzeTrack(h, f, j)
      case Err(e) => Err(e)
      case Ok(track) =>
        match AnalyzeTracks(h, f, j + 1)
        case Err(e) => Err(e)
        case Ok(rest) => Ok([track] + rest)
  }

  function Analyze(h: Sha256, f: Frames): Result<Bundle, BoneError> {
    var bones := BoneCount(f);
    if !EqualBones(f, bones) then Err(UnequalBoneCount)
    else if !Pcm.SamplesFit(Coords(f)) then Err(StructError)
    else
      match AnalyzeTracks(h, f, 0)
      case Err(e) => Err(e)
      case Ok(tracks) => Ok(Bundle(|f|, bones, tracks, h(Pcm.Raw(Coords(f)))))
  }

  // ----- decoding --------------------------------------------------------------------

  datatype Axes = Axes(x: seq<int>, y: seq<int>, z: seq<int>)

  function DecodeTrack(h: Sha256, track: Track): Result<Axes, BoneError> {
    match Pcm.Reconstruct(h, track.x)
    case Err(e) => Err(TrackError(e))
    case Ok(x) =>
      match Pcm.Reconstruct(h, track.y)
      case Err(e) => Err(TrackError(e))
      case Ok(y) =>
        match Pcm.Reconstruct(h, track.z)
        case Err(e) => Err(TrackError(e))
        case Ok(z) => Ok(Axes(x.values, y.values, z.values))
  }

  /** Column `j` of every frame can be written, and every axis reaches the last frame. */
  predicate Placeable(f: Frames, j: nat, a: Axes) {
    f == [] || (EqualBones(f, |f[0]|) && j < |f[0]| && |f| <= |a.x| && |f| <= |a.y| && |f| <= |a.z|)
  }

  function Place(f: Frames, j: nat, a: Axes): (r: Frames)
    requires Placeable(f, j, a)
    ensures |r| == |f|
  {
    seq(|f|, t requires 0 <= t < |f| => f[t][j := Vec(a.x[t], a.y[t], a.z[t])])
  }

  function Fill(h: Sha256, tracks: seq<Track>, j: nat, f: Frames): Result<Frames, BoneError>
    decreases |tracks| - j
  {
    if j >= |tracks| then Ok(f) else
      match DecodeTrack(h, tracks[j])
      case Err(e) => Err(e)
      case Ok(axes) => if Placeable(f, j, axes) then Fill(h, tracks, j + 1, Place(f, j, axes)) else Err(IndexError)
  }

  function Blank(n: nat, bones: nat): (f: Frames)
    ensures |f| == n && EqualBones(f, bones)
  {
    seq(n, t => seq(bones, j => Vec(0, 0, 0)))
  }

  datatype Report = Report(frames: Frames, byteExact: bool)

  function Reconstruct(h: Sha256, b: Bundle): Result<Report, BoneError> {
    match Fill(h, b.tracks, 0, Blank(b.frames, b.bones))
    case Err(e) => Err(e)
    case Ok(f) =>
      if Pcm.SamplesFit(Coords(f)) then Ok(Report(f, h(Pcm.Raw(Coords(f))) == b.digest)) else Err(StructError)
  }

  /** The frame table as it stands in memory. */
  ghost function Grid(a: array2<Vec>): (f: Frames)
    reads a
    ensures |f| == a.Length0 && EqualBones(f, a.Length1)
  {
    seq(a.Length0, t requires 0 <= t < a.Length0 reads a =>
      seq(a.Length1, j requires 0 <= j < a.Length1 reads a => a[t, j]))
  }

  /** The inner loop of the decoder: one bone of every frame, overwritten in place. */
  method PlaceColumn(a: array2<Vec>, j: nat, axes: Axes)
    requires Placeable(Grid(a), j, axes)
    modifies a
    ensures Grid(a) == Place(old(Grid(a)), j, axes)
  {
    for t := 0 to a.Length0
      invariant forall t', k :: 0 <= t' < a.Length0 && 0 <= k < a.Length1 ==>
                  a[t', k] == if t' < t && k == j then Vec(axes.x[t'], axes.y[t'], axes.z[t'])
                              else old(a[t', k])
    {
      assert a.Length0 > 0 && j < |Grid(a)[0]|;
      a[t, j] := Vec(axes.x[t], axes.y[t], axes.z[t]);
    }
    ghost var was := old(Grid(a));
    forall t | 0 <= t < a.Length0
      ensures Grid(a)[t] == Place(was, j, axes)[t]
    {
      assert forall k :: 0 <= k < a.Length1 ==> was[t][k] == old(a[t, k]);
    }
  }

  /** The decoder's loop over bones. */
  method FillInPlace(h: Sha256, tracks: seq<Track>, a: array2<Vec>) returns (raised: Option<BoneError>)
    modifies a
    ensures match Fill(h, tracks, 0, old(Grid(a)))
            case Ok(f) => raised == None && Grid(a) == f
            case Err(e) => raised == Some(e)
  {
    hide DecodeTrack, Grid, Place;
    for j := 0 to |tracks|
      invariant Fill(h, tracks, j, Grid(a)) == Fill(h, tracks, 0, old(Grid(a)))
    {
      var decoded := DecodeTrack(h, tracks[j]);
      if decoded.Err? {
        return Some(decoded.error);
      }
      var axes := decoded.value;
      var n, bones := a.Length0, a.Length1;
      if n > 0 && !(j < bones && n <= |axes.x| && n <= |axes.y| && n <= |axes.z|) {
        return Some(IndexError);
      }
      PlaceColumn(a, j, axes);
    }
    raised := None;
  }

  // ----- round trip --------------------------------------------------------------------

  lemma {:induction false} FrameCoordsFit(bones: seq<Vec>, j: nat)
    requires Pcm.SamplesFit(FrameCoords(bones)) && j < |bones|
    ensures FitsI16(bones[j].x) && FitsI16(bones[j].y) && FitsI16(bones[j].z)
  {
    var c := FrameCoords(bones);
    assert c[0] == bones[0].x && c[1] == bones[0].y && c[2] == bones[0].z;
    if j > 0 {
      assert forall k :: 0 <= k < |c| - 3 ==> c[k + 3] == FrameCoords(bones[1..])[k];
      FrameCoordsFit(bones[1..], j - 1);
    }
  }

  lemma {:induction false} CoordsFit(f: Frames, t: nat, j: nat)
    requires Pcm.SamplesFit(Coords(f)) && t < |f| && j < |f[t]|
    ensures FitsI16(f[t][j].x) && FitsI16(f[t][j].y) && FitsI16(f[t][j].z)
  {
    var c, head := Coords(f), FrameCoords(f[0]);
    if t == 0 {
      assert forall k :: 0 <= k < |head| ==> c[k] == head[k];
      FrameCoordsFit(f[0], j);
    } else {
      assert forall k :: 0 <= k < |c| - |head| ==> c[|head| + k] == Coords(f[1..])[k];
      CoordsFit(f[1..], t - 1, j);
    }
  }

  lemma ColumnsFit(f: Frames, j: nat)
    requires EqualBones(f, BoneCount(f)) && j < BoneCount(f) && Pcm.SamplesFit(Coords(f))
    ensures Pcm.SamplesFit(Xs(f, j)) && Pcm.SamplesFit(Ys(f, j)) && Pcm.SamplesFit(Zs(f, j))
  {
    hide Coords;
    forall t | 0 <= t < |f|
      ensures FitsI16(f[t][j].x) && FitsI16(f[t][j].y) && FitsI16(f[t][j].z)
    {
      CoordsFit(f, t, j);
    }
  }

  /** What reconstructing one axis gives: the samples, or the rejection of a list beyond the decoder's limit. */
  lemma SamplesRoundTrip(h: Sha256, s: seq<int>)
    requires |s| < U32_LIMIT && Pcm.SamplesFit(s)
    ensures Pcm.Analyze(h, s).Ok?
    ensures Pcm.Reconstruct(h, Pcm.Analyze(h, s).value)
            == if |s| <= Pcm.SAMPLE_LIMIT then Ok(Pcm.Report(s, true)) else Err(Pcm.Limit)
  {
    hide Pcm.Reconstruct;
    Pcm.RoundTrip(h, s);
  }

  lemma TrackRoundTrip(h: Sha256, f: Frames, j: nat)
    requires |f| < U32_LIMIT && EqualBones(f, BoneCount(f)) && j < BoneCount(f)
    requires Pcm.SamplesFit(Coords(f))
    ensures AnalyzeTrack(h, f, j).Ok?
    ensures DecodeTrack(h, AnalyzeTrack(h, f, j).value)
            == if |f| <= Pcm.SAMPLE_LIMIT then Ok(Axes(Xs(f, j), Ys(f, j), Zs(f, j))) else Err(TrackError(Pcm.Limit))
  {
    hide Pcm.Analyze, Pcm.Reconstruct, Pcm.SamplesFit, Coords, Column;
    ColumnsFit(f, j);
    SamplesRoundTrip(h, Xs(f, j));
    SamplesRoundTrip(h, Ys(f, j));
    SamplesRoundTrip(h, Zs(f, j));
  }

  lemma NoTracksLeft(h: Sha256, f: Frames)
    requires EqualBones(f, BoneCount(f))
    ensures AnalyzeTracks(h, f, BoneCount(f)) == Ok([])
  {
  }

  lemma TracksUnfold(h: Sha256, f: Frames, j: nat)
    requires EqualBones(f, BoneCount(f)) && j < BoneCount(f)
    ensures AnalyzeTracks(h, f, j).Ok? <==> AnalyzeTrack(h, f, j).Ok? && AnalyzeTracks(h, f, j + 1).Ok?
    ensures AnalyzeTracks(h, f, j).Ok? ==>
              AnalyzeTracks(h, f, j) == Ok([AnalyzeTrack(h, f, j).value] + AnalyzeTracks(h, f, j + 1).value)
  {
    hide AnalyzeTrack;
  }

  lemma {:induction false} TracksEncode(h: Sha256, f: Frames, j: nat)
    requires |f| < U32_LIMIT && EqualBones(f, BoneCount(f)) && j <= BoneCount(f)
    requires Pcm.SamplesFit(Coords(f))
    ensures var r := AnalyzeTracks(h, f, j);
            && r.Ok? && |r.value| == BoneCount(f) - j
            && forall k :: 0 <= k < |r.value| ==> AnalyzeTrack(h, f, j + k) == Ok(r.value[k])
    decreases BoneCount(f) - j
  {
    hide AnalyzeTrack, DecodeTrack, Coords, Pcm.SamplesFit, BoneCount, AnalyzeTracks;
    if j == BoneCount(f) {
      NoTracksLeft(h, f);
    } else {
      TrackRoundTrip(h, f, j);
      TracksEncode(h, f, j + 1);
      TracksUnfold(h, f, j);
      var r, rest := AnalyzeTracks(h, f, j).value, AnalyzeTracks(h, f, j + 1).value;
      forall k | 0 <= k < |r|
        ensures AnalyzeTrack(h, f, j + k) == Ok(r[k])
      {
        if k > 0 {
          assert r[k] == rest[k - 1] && AnalyzeTrack(h, f, j + 1 + (k - 1)) == Ok(rest[k - 1]);
        }
      }
    }
  }

  /** Filling column after column: columns below `j` are already those of the original. */
  lemma {:induction false} FillRebuilds(h: Sha256, f: Frames, tracks: seq<Track>, j: nat, g: Frames)
    requires BoneCount(f) == 0 || |f| <= Pcm.SAMPLE_LIMIT
    requires EqualBones(f, BoneCount(f)) && j <= BoneCount(f) == |tracks|
    requires Pcm.SamplesFit(Coords(f))
    requires forall k :: 0 <= k < |tracks| ==> AnalyzeTrack(h, f, k) == Ok(tracks[k])
    requires |g| == |f| && EqualBones(g, BoneCount(f))
    requires forall t, k :: 0 <= t < |f| && 0 <= k < j ==> g[t][k] == f[t][k]
    ensures Fill(h, tracks, j, g) == Ok(f)
    decreases |tracks| - j
  {
    hide AnalyzeTrack, DecodeTrack, Coords, Pcm.SamplesFit;
    if j == |tracks| {
      assert forall t :: 0 <= t < |f| ==> g[t] == f[t];
      assert g == f;
    } else {
      TrackRoundTrip(h, f, j);
      var axes := Axes(Xs(f, j), Ys(f, j), Zs(f, j));
      var next := Place(g, j, axes);
      FillRebuilds(h, f, tracks, j + 1, next);
    }
  }

  /** The frame count of a track must fit its field as soon as there is a bone to track. */
  lemma LongTracksAreRejected(h: Sha256, f: Frames)
    requires EqualBones(f, BoneCount(f)) && BoneCount(f) > 0 && |f| >= U32_LIMIT
    ensures AnalyzeTracks(h, f, 0) == Err(StructError)
  {
    hide Pcm.SamplesFit, Column;
  }

  /**
   * Over all frames, bones and axes: an animation is analysed without error exactly if its bone
   * counts are equal, its coordinates fit 16 bits and its frame count fits the field. It is then
   * reconstructed exactly, unless it has bones and more frames than the sample limit.
   */
  lemma RoundTrip(h: Sha256, f: Frames)
    ensures Analyze(h, f).Ok? <==>
              && EqualBones(f, BoneCount(f)) && Pcm.SamplesFit(Coords(f))
              && (BoneCount(f) == 0 || |f| < U32_LIMIT)
    ensures Analyze(h, f).Ok? ==>
              Reconstruct(h, Analyze(h, f).value)
              == if BoneCount(f) == 0 || |f| <= Pcm.SAMPLE_LIMIT then Ok(Report(f, true)) else Err(TrackError(Pcm.Limit))
  {
    hide AnalyzeTracks, AnalyzeTrack, Fill, Coords, Pcm.Raw, Pcm.SamplesFit, DecodeTrack;
    if EqualBones(f, BoneCount(f)) && Pcm.SamplesFit(Coords(f)) {
      if BoneCount(f) == 0 {
        NoTracksLeft(h, f);
        FillRebuilds(h, f, [], 0, Blank(|f|, 0));
      } else if |f| >= U32_LIMIT {
        LongTracksAreRejected(h, f);
      } else {
        TracksEncode(h, f, 0);
        var tracks := AnalyzeTracks(h, f, 0).value;
        assert forall k :: 0 <= k < |tracks| ==> AnalyzeTrack(h, f, 0 + k) == Ok(tracks[k]);
        if |f| <= Pcm.SAMPLE_LIMIT {
          FillRebuilds(h, f, tracks, 0, Blank(|f|, BoneCount(f)));
        } else {
          TrackRoundTrip(h, f, 0);
          FillFails(h, tracks, Blank(|f|, BoneCount(f)), TrackError(Pcm.Limit));
        }
      }
    }
  }

  lemma FillFails(h: Sha256, tracks: seq<Track>, f: Frames, e: BoneError)
    requires tracks != [] && DecodeTrack(h, tracks[0]) == Err(e)
    ensures Fill(h, tracks, 0, f) == Err(e)
  {
  }

  // ----- what the decoder makes of any tracks --------------------------------------------

  /**
   * Other tracks in place of the encoder's: what they rebuild is reported as exact if and only if
   * it has the digest of the original animation.
   */
  lemma ForeignTracks(h: Sha256, f: Frames, tracks: seq<Track>)
    requires Analyze(h, f).Ok? && Reconstruct(h, Analyze(h, f).value.(tracks := tracks)).Ok?
    ensures var r := Reconstruct(h, Analyze(h, f).value.(tracks := tracks)).value;
            && Pcm.SamplesFit(Coords(f)) && Pcm.SamplesFit(Coords(r.frames))
            && |r.frames| == |f| && EqualBones(r.frames, BoneCount(f))
            && (r.byteExact <==> h(Pcm.Raw(Coords(r.frames))) == h(Pcm.Raw(Coords(f))))
            && (r.byteExact && Coords(r.frames) != Coords(f) ==>
                  Pcm.Raw(Coords(r.frames)) != Pcm.Raw(Coords(f)) && h(Pcm.Raw(Coords(r.frames))) == h(Pcm.Raw(Coords(f))))
  {
    hide Fill, AnalyzeTracks, Coords, Pcm.Raw, Pcm.SamplesFit;
    var b := Analyze(h, f).value.(tracks := tracks);
    FillKeepsShape(h, tracks, 0, Blank(b.frames, b.bones), b.bones);
    var g := Fill(h, tracks, 0, Blank(b.frames, b.bones)).value;
    if Pcm.Raw(Coords(g)) == Pcm.Raw(Coords(f)) {
      Pcm.RawApart(Coords(g), Coords(f));
    }
  }

  lemma {:induction false} FillKeepsShape(h: Sha256, tracks: seq<Track>, j: nat, f: Frames, bones: nat)
    requires EqualBones(f, bones) && Fill(h, tracks, j, f).Ok?
    ensures |Fill(h, tracks, j, f).value| == |f| && EqualBones(Fill(h, tracks, j, f).value, bones)
    decreases |tracks| - j
  {
    hide DecodeTrack;
    if j < |tracks| {
      FillKeepsShape(h, tracks, j + 1, Place(f, j, DecodeTrack(h, tracks[j]).value), bones);
    }
  }

  /**
   * Any tracks: filling fails with the error of the first axis that does not decode, or with an
   * index error at the first track beyond the bones, or too short for the frames.
   */
  lemma FillRejects(h: Sha256, tracks: seq<Track>, j: nat, f: Frames)
    requires f != [] && EqualBones(f, |f[0]|) && j < |tracks|
    ensures var t := tracks[j];
            var x, y, z := Pcm.Reconstruct(h, t.x), Pcm.Reconstruct(h, t.y), Pcm.Reconstruct(h, t.z);
            && (x.Err? ==> Fill(h, tracks, j, f) == Err(TrackError(x.error)))
            && (x.Ok? && y.Err? ==> Fill(h, tracks, j, f) == Err(TrackError(y.error)))
            && (x.Ok? && y.Ok? && z.Err? ==> Fill(h, tracks, j, f) == Err(TrackError(z.error)))
            && (x.Ok? && y.Ok? && z.Ok?
                && (j >= |f[0]| || |x.value.values| < |f| || |y.value.values| < |f| || |z.value.values| < |f|) ==>
                  Fill(h, tracks, j, f) == Err(IndexError))
  {
    hide Pcm.Reconstruct;
  }

  /** Unequal bone counts are told apart from coordinates that do not fit. */
  lemma AnalyzeRejects(h: Sha256, f: Frames)
    ensures Analyze(h, f) == Err(UnequalBoneCount) <==> exists t :: 0 <= t < |f| && |f[t]| != |f[0]|
  {
    hide AnalyzeTracks, Coords, Pcm.SamplesFit;
    if EqualBones(f, BoneCount(f)) {
      OnlyStructErrors(h, f, 0);
    }
  }

  lemma {:induction false} OnlyStructErrors(h: Sha256, f: Frames, j: nat)
    requires j <= BoneCount(f) && EqualBones(f, BoneCount(f))
    ensures AnalyzeTracks(h, f, j).Err? ==> AnalyzeTracks(h, f, j) == Err(StructError)
    decreases BoneCount(f) - j
  {
    hide Pcm.Analyze, Xs, Ys, Zs;
    if j < BoneCount(f) {
      OnlyStructErrors(h, f, j + 1);
    }
  }

  // ----- where everything goes -----------------------------------------------------------

  lemma FrameFirst(bones: seq<Vec>)
    requires bones != []
    ensures var c, rest := FrameCoords(bones), FrameCoords(bones[1..]);
            && |c| == 3 + |rest| && c[0] == bones[0].x && c[1] == bones[0].y && c[2] == bones[0].z
            && forall k :: 0 <= k < |rest| ==> c[3 + k] == rest[k]
  {
  }

  lemma {:induction false} FrameLength(bones: seq<Vec>)
    ensures |FrameCoords(bones)| == 3 * |bones|
  {
    if bones != [] {
      FrameLength(bones[1..]);
    }
  }

  lemma {:induction false} FrameOrder(bones: seq<Vec>, j: nat)
    requires j < |bones|
    ensures |FrameCoords(bones)| == 3 * |bones|
    ensures FrameCoords(bones)[3 * j] == bones[j].x
    ensures FrameCoords(bones)[3 * j + 1] == bones[j].y
    ensures FrameCoords(bones)[3 * j + 2] == bones[j].z
  {
    hide FrameCoords;
    FrameLength(bones);
    FrameFirst(bones);
    if j > 0 {
      var rest := FrameCoords(bones[1..]);
      FrameOrder(bones[1..], j - 1);
      assert rest[3 * (j - 1)] == bones[j].x && rest[3 * (j - 1) + 1] == bones[j].y && rest[3 * (j - 1) + 2] == bones[j].z;
      assert FrameCoords(bones)[3 + 3 * (j - 1)] == bones[j].x;
      assert FrameCoords(bones)[3 + (3 * (j - 1) + 1)] == bones[j].y;
      assert FrameCoords(bones)[3 + (3 * (j - 1) + 2)] == bones[j].z;
    }
  }

  lemma CoordsFirst(f: Frames, width: nat)
    requires f != [] && |FrameCoords(f[0])| == width
    ensures var c, rest := Coords(f), Coords(f[1..]);
            && |c| == width + |rest| && (forall k :: 0 <= k < width ==> c[k] == FrameCoords(f[0])[k])
            && forall k :: 0 <= k < |rest| ==> c[width + k] == rest[k]
  {
    hide FrameCoords;
  }

  lemma {:induction false} CoordsLength(f: Frames, bones: nat)
    requires EqualBones(f, bones)
    ensures |Coords(f)| == 3 * bones * |f|
  {
    hide FrameCoords;
    if f != [] {
      FrameLength(f[0]);
      CoordsLength(f[1..], bones);
      assert 3 * bones * |f| == 3 * bones + 3 * bones * (|f| - 1);
    }
  }

  /** Frame after frame: what stands at place `i` of frame `t`. */
  lemma {:induction false} FrameStarts(f: Frames, bones: nat, t: nat, i: nat)
    requires EqualBones(f, bones) && t < |f| && i < 3 * bones
    ensures |FrameCoords(f[t])| == 3 * bones
    ensures 0 <= 3 * bones * t + i < |Coords(f)| && Coords(f)[3 * bones * t + i] == FrameCoords(f[t])[i]
  {
    hide FrameCoords, Coords;
    FrameLength(f[0]);
    CoordsFirst(f, 3 * bones);
    if t > 0 {
      FrameStarts(f[1..], bones, t - 1, i);
      assert 3 * bones * t == 3 * bones + 3 * bones * (t - 1);
    }
  }

  /** Coordinates are digested frame by frame, in a frame bone by bone, and of a bone in the order x, y, z. */
  lemma WireOrder(f: Frames, bones: nat, t: nat, j: nat)
    requires EqualBones(f, bones) && t < |f| && j < bones
    ensures var at := 3 * bones * t + 3 * j;
            && |Coords(f)| == 3 * bones * |f| && 0 <= at <= |Coords(f)| - 3
            && Coords(f)[at] == f[t][j].x && Coords(f)[at + 1] == f[t][j].y && Coords(f)[at + 2] == f[t][j].z
  {
    hide FrameCoords, Coords;
    CoordsLength(f, bones);
    FrameOrder(f[t], j);
    FrameStarts(f, bones, t, 3 * j);
    FrameStarts(f, bones, t, 3 * j + 1);
    FrameStarts(f, bones, t, 3 * j + 2);
  }

  /** The track of bone `j`: the cells of its three axes over all frames. */
  ghost predicate IsTrack(h: Sha256, f: Frames, j: nat, track: Track) {
    forall axis: seq<int> :: |axis| == |f| ==>
      && (IsAxis(axis, f, j, (v: Vec) => v.x) ==> Pcm.Analyze(h, axis) == Ok(track.x))
      && (IsAxis(axis, f, j, (v: Vec) => v.y) ==> Pcm.Analyze(h, axis) == Ok(track.y))
      && (IsAxis(axis, f, j, (v: Vec) => v.z) ==> Pcm.Analyze(h, axis) == Ok(track.z))
  }

  predicate IsAxis(axis: seq<int>, f: Frames, j: nat, pick: Vec -> int) {
    |axis| == |f| && forall t :: 0 <= t < |f| ==> j < |f[t]| && axis[t] == pick(f[t][j])
  }

  /** What an accepted animation is turned into, and the one other error of the encoder. */
  lemma AnalyzeAnswers(h: Sha256, f: Frames)
    ensures Analyze(h, f).Err? ==> Analyze(h, f) in {Err(UnequalBoneCount), Err(StructError)}
    ensures Analyze(h, f).Ok? ==>
              var b := Analyze(h, f).value;
              && b.frames == |f| && b.bones == |b.tracks| && (f == [] ==> b.bones == 0) && (f != [] ==> b.bones == |f[0]|)
              && Pcm.SamplesFit(Coords(f)) && b.digest == h(Pcm.Raw(Coords(f)))
              && EqualBones(f, b.bones) && forall j :: 0 <= j < b.bones ==> IsTrack(h, f, j, b.tracks[j])
  {
    hide AnalyzeTrack, AnalyzeTracks, Coords, Pcm.SamplesFit, Pcm.Raw, IsTrack;
    if EqualBones(f, BoneCount(f)) {
      OnlyStructErrors(h, f, 0);
      if AnalyzeTracks(h, f, 0).Ok? {
        TracksAre(h, f, 0);
        var tracks := AnalyzeTracks(h, f, 0).value;
        forall j | 0 <= j < |tracks|
          ensures IsTrack(h, f, j, tracks[j])
        {
          assert IsTrack(h, f, 0 + j, tracks[j]);
        }
      }
    }
  }

  lemma TrackIs(h: Sha256, f: Frames, j: nat)
    requires EqualBones(f, BoneCount(f)) && j < BoneCount(f) && AnalyzeTrack(h, f, j).Ok?
    ensures IsTrack(h, f, j, AnalyzeTrack(h, f, j).value)
  {
    hide Pcm.Analyze, BoneCount;
    forall axis: seq<int>, pick: Vec -> int | IsAxis(axis, f, j, pick)
      ensures axis == Column(f, j, pick)
    {
    }
  }

  lemma {:induction false} TracksAre(h: Sha256, f: Frames, j: nat)
    requires EqualBones(f, BoneCount(f)) && j <= BoneCount(f) && AnalyzeTracks(h, f, j).Ok?
    ensures var r := AnalyzeTracks(h, f, j).value;
            |r| == BoneCount(f) - j && forall k :: 0 <= k < |r| ==> IsTrack(h, f, j + k, r[k])
    decreases BoneCount(f) - j
  {
    hide AnalyzeTrack, IsTrack, AnalyzeTracks, BoneCount;
    if j == BoneCount(f) {
      NoTracksLeft(h, f);
    } else {
      assert forall t :: 0 <= t < |f| ==> j < |f[t]|;
      TracksUnfold(h, f, j);
      TrackIs(h, f, j);
      TracksAre(h, f, j + 1);
      var r, rest := AnalyzeTracks(h, f, j).value, AnalyzeTracks(h, f, j + 1).value;
      forall k | 0 <= k < |r|
        ensures IsTrack(h, f, j + k, r[k])
      {
        if k > 0 {
          assert r[k] == rest[k - 1] && IsTrack(h, f, j + 1 + (k - 1), rest[k - 1]);
        }
      }
    }
  }

  /** All three axes of the track decode, and reach the last frame if there is one. */
  ghost predicate Reaches(h: Sha256, track: Track, frames: nat) {
    var x, y, z := Pcm.Reconstruct(h, track.x), Pcm.Reconstruct(h, track.y), Pcm.Reconstruct(h, track.z);
    && x.Ok? && y.Ok? && z.Ok?
    && (frames > 0 ==> frames <= |x.value.values| && frames <= |y.value.values| && frames <= |z.value.values|)
  }

  /** Bone `v` of frame `t` is what the track says. */
  ghost predicate Moves(h: Sha256, track: Track, frames: nat, t: nat, v: Vec) {
    && Reaches(h, track, frames) && t < frames
    && v.x == Pcm.Reconstruct(h, track.x).value.values[t]
    && v.y == Pcm.Reconstruct(h, track.y).value.values[t]
    && v.z == Pcm.Reconstruct(h, track.z).value.values[t]
  }

  ghost predicate AllReach(h: Sha256, tracks: seq<Track>, j: nat, frames: nat) {
    forall k :: j <= k < |tracks| ==> Reaches(h, tracks[k], frames)
  }

  /** From `j` on each bone moves as its track says; the others are as they were. */
  ghost predicate Filled(h: Sha256, tracks: seq<Track>, j: nat, f: Frames, bones: nat, g: Frames) {
    && |g| == |f| && EqualBones(f, bones) && EqualBones(g, bones)
    && (forall t, k :: 0 <= t < |f| && j <= k < |tracks| && k < bones ==> Moves(h, tracks[k], |f|, t, g[t][k]))
    && (forall t, k :: 0 <= t < |f| && 0 <= k < bones && (k < j || |tracks| <= k) ==> g[t][k] == f[t][k])
  }

  /** Column `j` is what the track says; the others are as they were. */
  ghost predicate Placed(h: Sha256, track: Track, j: nat, f: Frames, bones: nat, g: Frames) {
    && |g| == |f| && EqualBones(f, bones) && EqualBones(g, bones)
    && (forall t :: 0 <= t < |f| && j < bones ==> Moves(h, track, |f|, t, g[t][j]))
    && (forall t, k :: 0 <= t < |f| && 0 <= k < bones && k != j ==> g[t][k] == f[t][k])
  }

  lemma PlacedIs(h: Sha256, track: Track, f: Frames, bones: nat, j: nat)
    requires EqualBones(f, bones)
    ensures DecodeTrack(h, track).Ok? && Placeable(f, j, DecodeTrack(h, track).value) <==>
              Reaches(h, track, |f|) && (f == [] || j < bones)
    ensures DecodeTrack(h, track).Ok? && Placeable(f, j, DecodeTrack(h, track).value) ==>
              Placed(h, track, j, f, bones, Place(f, j, DecodeTrack(h, track).value))
  {
    hide Pcm.Reconstruct;
  }

  lemma FilledOn(h: Sha256, tracks: seq<Track>, j: nat, f: Frames, bones: nat, g: Frames, end: Frames)
    requires j < |tracks| && Placed(h, tracks[j], j, f, bones, g) && Filled(h, tracks, j + 1, g, bones, end)
    ensures Filled(h, tracks, j, f, bones, end)
  {
    hide Moves;
    forall t, k | 0 <= t < |f| && j <= k < |tracks| && k < bones
      ensures Moves(h, tracks[k], |f|, t, end[t][k])
    {
      if k == j {
        assert end[t][k] == g[t][k];
      }
    }
  }

  lemma {:induction false} FillAnswers(h: Sha256, tracks: seq<Track>, j: nat, f: Frames, bones: nat)
    requires EqualBones(f, bones) && j <= |tracks| && (f == [] || j <= bones)
    ensures Fill(h, tracks, j, f).Ok? <==> AllReach(h, tracks, j, |f|) && (f == [] || |tracks| <= bones)
    ensures Fill(h, tracks, j, f).Ok? ==> Filled(h, tracks, j, f, bones, Fill(h, tracks, j, f).value)
    decreases |tracks| - j
  {
    hide DecodeTrack, Placeable, Place, Reaches, Placed, Moves;
    if j < |tracks| {
      hide Filled;
      PlacedIs(h, tracks[j], f, bones, j);
      var axes := DecodeTrack(h, tracks[j]);
      if axes.Ok? && Placeable(f, j, axes.value) {
        var g := Place(f, j, axes.value);
        assert EqualBones(g, bones) by {
          PlacedKeepsShape(h, tracks[j], j, f, bones, g);
        }
        FillAnswers(h, tracks, j + 1, g, bones);
        if Fill(h, tracks, j + 1, g).Ok? {
          FilledOn(h, tracks, j, f, bones, g, Fill(h, tracks, j + 1, g).value);
        }
      }
    }
  }

  lemma PlacedKeepsShape(h: Sha256, track: Track, j: nat, f: Frames, bones: nat, g: Frames)
    requires Placed(h, track, j, f, bones, g)
    ensures EqualBones(g, bones)
  {
  }

  /**
   * Any bundle: it is rebuilt if and only if every axis of every track decodes and, with frames,
   * reaches the last of them, and there are no more tracks than bones. Each bone then moves as its
   * track says, bones without a track stay at the origin, and it is exact if and only if the digest fits.
   */
  lemma ReconstructsIff(h: Sha256, b: Bundle)
    ensures Reconstruct(h, b).Ok? <==> AllReach(h, b.tracks, 0, b.frames) && (b.frames == 0 || |b.tracks| <= b.bones)
    ensures Reconstruct(h, b).Ok? ==>
              var r := Reconstruct(h, b).value;
              && |r.frames| == b.frames && EqualBones(r.frames, b.bones)
              && (forall t, k :: 0 <= t < b.frames && 0 <= k < b.bones ==>
                    if k < |b.tracks| then Moves(h, b.tracks[k], b.frames, t, r.frames[t][k]) else r.frames[t][k] == Vec(0, 0, 0))
              && Pcm.SamplesFit(Coords(r.frames)) && (r.byteExact <==> h(Pcm.Raw(Coords(r.frames))) == b.digest)
  {
    hide Fill, AllReach, Moves, Coords, Pcm.SamplesFit, Pcm.Raw;
    var f := Blank(b.frames, b.bones);
    FillAnswers(h, b.tracks, 0, f, b.bones);
    var filled := Fill(h, b.tracks, 0, f);
    if filled.Ok? {
      FilledFits(h, b.tracks, b.frames, b.bones, filled.value);
    }
  }

  lemma FilledFits(h: Sha256, tracks: seq<Track>, frames: nat, bones: nat, g: Frames)
    requires Filled(h, tracks, 0, Blank(frames, bones), bones, g)
    ensures Pcm.SamplesFit(Coords(g))
  {
    hide Moves, Coords, Pcm.SamplesFit;
    forall t, k | 0 <= t < |g| && 0 <= k < |g[t]|
      ensures VecFits(g[t][k])
    {
      if k < |tracks| {
        assert Moves(h, tracks[k], frames, t, g[t][k]);
        MovesFits(h, tracks[k], frames, t, g[t][k]);
      }
    }
    FittingCoords(g);
  }

  predicate VecFits(v: Vec) {
    FitsI16(v.x) && FitsI16(v.y) && FitsI16(v.z)
  }

  lemma MovesFits(h: Sha256, track: Track, frames: nat, t: nat, v: Vec)
    requires Moves(h, track, frames, t, v)
    ensures VecFits(v)
  {
    hide Pcm.Reconstruct;
    ValuesFit(h, track.x);
    ValuesFit(h, track.y);
    ValuesFit(h, track.z);
  }

  lemma ValuesFit(h: Sha256, b: Pcm.Bundle)
    requires Pcm.Reconstruct(h, b).Ok?
    ensures Pcm.SamplesFit(Pcm.Reconstruct(h, b).value.values)
  {
    hide Pcm.Raw, Pcm.Parse;
  }

  lemma {:induction false} FrameFits(bones: seq<Vec>)
    requires forall k :: 0 <= k < |bones| ==> VecFits(bones[k])
    ensures Pcm.SamplesFit(FrameCoords(bones))
  {
    if bones != [] {
      FrameFits(bones[1..]);
      assert VecFits(bones[0]);
    }
  }

  lemma {:induction false} FittingCoords(f: Frames)
    requires forall t, k :: 0 <= t < |f| && 0 <= k < |f[t]| ==> VecFits(f[t][k])
    ensures Pcm.SamplesFit(Coords(f))
  {
    hide FrameCoords, VecFits;
    if f != [] {
      FrameFits(f[0]);
      FittingCoords(f[1..]);
    }
  }
}

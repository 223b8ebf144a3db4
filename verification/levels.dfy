/** Level assignment: `computeLevel` maps a significance distance to a
    zoom-level index through the breakpoint table, and `encodeLevels`
    writes one level code per written point. */
module Levels {
  import opened JavaInt
  import opened Outcome
  import opened Codec
  import opened EncoderSettings
  import opened Significance

  /** The `while (d < breaks[lev]) lev++` scan from `lev` on. Reading
      `breaks[|breaks|]` throws. */
  function ScanBreaks(breaks: seq<real>, d: real, lev: nat): (r: Result<nat>)
    requires lev <= |breaks|
    ensures r.Success? ==>
      && lev <= r.value < |breaks| && breaks[r.value] <= d
      && forall j :: lev <= j < r.value ==> d < breaks[j]
    ensures r.Failure? ==>
      && r.error == IndexOutOfBounds(|breaks|)
      && forall j :: lev <= j < |breaks| ==> d < breaks[j]
    decreases |breaks| - lev
  {
    if lev == |breaks| then Failure(IndexOutOfBounds(lev))
    else if d < breaks[lev] then ScanBreaks(breaks, d, lev + 1)
    else Success(lev)
  }


  /** `lev` is the first index whose break is at most `d`. */
  predicate FirstBreakAtMost(breaks: seq<real>, d: real, lev: nat) {
    && lev < |breaks| && breaks[lev] <= d
    && forall j :: 0 <= j < lev ==> d < breaks[j]
  }

  /** `computeLevel`: 0 for a distance at or below `verySmall`; otherwise
      the first index whose break is at most the distance, or the
      out-of-bounds read when every break exceeds it. */
  function ComputeLevel(s: Settings, d: real): (r: Result<nat>)
    ensures d <= s.verySmall ==> r == Success(0)
    ensures d > s.verySmall && r.Success? ==> FirstBreakAtMost(s.zoomLevelBreaks, d, r.value)
    ensures d > s.verySmall ==>
      (r.Failure? <==> forall j :: 0 <= j < |s.zoomLevelBreaks| ==> d < s.zoomLevelBreaks[j])
  {
    if d > s.verySmall then ScanBreaks(s.zoomLevelBreaks, d, 0) else Success(0)
  }

  /** The code written for level `lev`: `numLevels - lev - 1` in `int`. */
  function LevelCode(s: Settings, lev: nat): (r: Int32)
    ensures lev < s.numLevels ==> 0 <= r < s.numLevels && r + lev == s.numLevels - 1
  {
    Wrap(s.numLevels - lev - 1)
  }

  /** The code of both endpoints: the top code when endpoints are forced,
      otherwise the code of the largest distance the simplifier saw. */
  function EndpointCode(s: Settings, absMaxDist: real): (r: Result<Int32>)
    ensures r.Failure? ==> !s.forceEndpoints && r.error == IndexOutOfBounds(|s.zoomLevelBreaks|)
  {
    if s.forceEndpoints then Success(Wrap(s.numLevels - 1))
    else
      var lev :- ComputeLevel(s, absMaxDist);
      Success(LevelCode(s, lev))
  }

  /** The middle-points loop of `encodeLevels` from index `i` on. */
  function InteriorLevels(s: Settings, dists: seq<real>, i: nat): (r: Result<Text>)
    requires 1 <= i
    ensures r.Failure? ==> r.error == IndexOutOfBounds(|s.zoomLevelBreaks|)
    decreases |dists| - i
  {
    if i >= |dists| - 1 then Success([])
    else if dists[i] != 0.0 then
      var lev :- ComputeLevel(s, dists[i]);
      var rest :- InteriorLevels(s, dists, i + 1);
      Success(EncodeNumber(LevelCode(s, lev)) + rest)
    else InteriorLevels(s, dists, i + 1)
  }

  /** `encodeLevels`: start point, middle points, end point. The source
      computes the end point's code a second time from the same inputs;
      that call returns what the first did, so its value is reused. */
  function EncodeLevels(s: Settings, dists: seq<real>, absMaxDist: real): (r: Result<Text>)
    ensures r.Failure? ==> r.error == IndexOutOfBounds(|s.zoomLevelBreaks|)
  {
    var endpoint :- EndpointCode(s, absMaxDist);
    var middle :- InteriorLevels(s, dists, 1);
    Success(EncodeNumber(endpoint) + middle + EncodeNumber(endpoint))
  }

  // ---------------------------------------------------------------------
  // Reference: the codes, for settings whose table is consistent

  /** Settings under which `computeLevel` never reads past the table. */
  predicate WellFormed(s: Settings) {
    Consistent(s) && s.numLevels >= 1
  }

  /** The level of `d` under well-formed settings. */
  function Level(s: Settings, d: real): (lev: nat)
    requires WellFormed(s)
    ensures lev < s.numLevels
  {
    ComputeLevelInBounds(s, d);
    ComputeLevel(s, d).value
  }

  /** The code of one interior point: `numLevels - computeLevel(d) - 1`. */
  function Code(s: Settings, d: real): (c: Int32)
    requires WellFormed(s)
    ensures 0 <= c < s.numLevels
  {
    s.numLevels - Level(s, d) - 1
  }

  /** The code of both endpoints under well-formed settings. */
  function EndCode(s: Settings, absMaxDist: real): (c: Int32)
    requires WellFormed(s)
    ensures 0 <= c < s.numLevels
  {
    if s.forceEndpoints then s.numLevels - 1 else Code(s, absMaxDist)
  }

  /** The codes of the points at `ks`. */
  function CodesAt(s: Settings, dists: seq<real>, ks: seq<nat>): (r: seq<Int32>)
    requires WellFormed(s)
    requires forall k :: 0 <= k < |ks| ==> ks[k] < |dists|
    ensures |r| == |ks|
    ensures forall k :: 0 <= k < |ks| ==> r[k] == Code(s, dists[ks[k]])
  {
    if |ks| == 0 then [] else [Code(s, dists[ks[0]])] + CodesAt(s, dists, ks[1..])
  }

  /** The level codes `encodeLevels` writes: the endpoint code, one code
      per non-zero interior point, the endpoint code again. */
  function ExpectedCodes(s: Settings, dists: seq<real>, absMaxDist: real): seq<Int32>
    requires WellFormed(s)
  {
    [EndCode(s, absMaxDist)] + CodesAt(s, dists, InteriorIndices(dists)) + [EndCode(s, absMaxDist)]
  }

  // ---------------------------------------------------------------------
  // Properties

  /** A consistent table whose last entry is `verySmall` stops the scan
      inside the table for every distance. */
  lemma ComputeLevelInBounds(s: Settings, d: real)
    requires WellFormed(s)
    ensures ComputeLevel(s, d).Success?
    ensures ComputeLevel(s, d).value < s.numLevels
  {
    LastBreakIsVerySmall(s);
  }

  /** An empty table (`numLevels == 0`) throws for every distance above
      `verySmall`, although the constructor accepts it. */
  lemma EmptyTableOverruns(d: real)
    requires d > 0.00001
    ensures NewSettings(0, 2, 0.00001, true).Success?
    ensures ComputeLevel(NewSettings(0, 2, 0.00001, true).value, d) == Failure(IndexOutOfBounds(0))
  {
  }

  /** A single-level table maps every distance to level 0. */
  lemma SingleLevelInBounds(d: real)
    ensures NewSettings(1, 2, 0.00001, true).Success?
    ensures ComputeLevel(NewSettings(1, 2, 0.00001, true).value, d) == Success(0)
  {
    ComputeLevelInBounds(NewSettings(1, 2, 0.00001, true).value, d);
  }

  /** Above `verySmall`, a larger distance gets a level no larger. */
  lemma ComputeLevelAntitone(s: Settings, d1: real, d2: real)
    requires s.verySmall < d1 <= d2
    requires ComputeLevel(s, d1).Success?
    ensures ComputeLevel(s, d2).Success?
    ensures ComputeLevel(s, d2).value <= ComputeLevel(s, d1).value
  {
  }

  /** With a strictly descending table the level of `d` is the band of the
      table that contains it. */
  lemma ComputeLevelBand(s: Settings, d: real)
    requires WellFormed(s) && s.zoomFactor > 1 && s.verySmall > 0.0 && d > s.verySmall
    ensures var lev := Level(s, d);
      && s.zoomLevelBreaks[lev] <= d
      && (lev > 0 ==> d < s.zoomLevelBreaks[lev - 1])
      && (lev == 0 <==> d >= s.zoomLevelBreaks[0])
  {
    BreaksDescend(s);
  }

  lemma {:induction false} InteriorLevelsEncodeCodes(s: Settings, dists: seq<real>, i: nat)
    requires WellFormed(s) && 1 <= i <= |dists| - 1
    ensures InteriorLevels(s, dists, i) == Success(EncodeAll(CodesAt(s, dists, NonZeroFrom(dists, i, |dists| - 1))))
    decreases |dists| - i
  {
    if i < |dists| - 1 {
      InteriorLevelsEncodeCodes(s, dists, i + 1);
      InteriorLevelsStep(s, dists, i);
    }
  }

  /** One iteration of the middle-points loop appends the code of point
      `i` exactly when its entry is non-zero. */
  lemma InteriorLevelsStep(s: Settings, dists: seq<real>, i: nat)
    requires WellFormed(s) && 1 <= i < |dists| - 1
    requires InteriorLevels(s, dists, i + 1) == Success(EncodeAll(CodesAt(s, dists, NonZeroFrom(dists, i + 1, |dists| - 1))))
    ensures InteriorLevels(s, dists, i) == Success(EncodeAll(CodesAt(s, dists, NonZeroFrom(dists, i, |dists| - 1))))
  {
    if dists[i] != 0.0 {
      InteriorLevelsKeep(s, dists, i);
    } else {
      assert NonZeroFrom(dists, i, |dists| - 1) == NonZeroFrom(dists, i + 1, |dists| - 1);
    }
  }

  lemma InteriorLevelsKeep(s: Settings, dists: seq<real>, i: nat)
    requires WellFormed(s) && 1 <= i < |dists| - 1 && dists[i] != 0.0
    requires InteriorLevels(s, dists, i + 1) == Success(EncodeAll(CodesAt(s, dists, NonZeroFrom(dists, i + 1, |dists| - 1))))
    ensures InteriorLevels(s, dists, i) == Success(EncodeAll(CodesAt(s, dists, NonZeroFrom(dists, i, |dists| - 1))))
  {
    var tail := NonZeroFrom(dists, i + 1, |dists| - 1);
    var rest := EncodeAll(CodesAt(s, dists, tail));
    ComputeLevelInBounds(s, dists[i]);
    var c := Code(s, dists[i]);
    assert InteriorLevels(s, dists, i) == Success(EncodeNumber(c) + rest) by {
      assert LevelCode(s, Level(s, dists[i])) == c;
    }
    assert NonZeroFrom(dists, i, |dists| - 1) == [i] + tail;
    EncodeCodesCons(s, dists, i, tail);
  }

  lemma EncodeCodesCons(s: Settings, dists: seq<real>, i: nat, tail: seq<nat>)
    requires WellFormed(s) && i < |dists| && forall k :: 0 <= k < |tail| ==> tail[k] < |dists|
    ensures EncodeAll(CodesAt(s, dists, [i] + tail)) == EncodeNumber(Code(s, dists[i])) + EncodeAll(CodesAt(s, dists, tail))
  {
    var codes := CodesAt(s, dists, [i] + tail);
    assert ([i] + tail)[1..] == tail;
    assert codes[1..] == CodesAt(s, dists, tail);
  }

  /** Under well-formed settings `encodeLevels` succeeds, and its text
      decodes to the endpoint code, one code per non-zero interior point
      in order, and the endpoint code again. */
  lemma EncodeLevelsDecodes(s: Settings, dists: seq<real>, absMaxDist: real)
    requires WellFormed(s)
    ensures EncodeLevels(s, dists, absMaxDist).Success?
    ensures DecodeAll(EncodeLevels(s, dists, absMaxDist).value) == Some(ExpectedCodes(s, dists, absMaxDist))
  {
    var e := EndCode(s, absMaxDist);
    if !s.forceEndpoints {
      ComputeLevelInBounds(s, absMaxDist);
    }
    assert EndpointCode(s, absMaxDist) == Success(e);
    var mid := CodesAt(s, dists, InteriorIndices(dists));
    if |dists| >= 2 {
      InteriorLevelsEncodeCodes(s, dists, 1);
    } else {
      assert InteriorLevels(s, dists, 1) == Success([]);
    }
    assert InteriorLevels(s, dists, 1) == Success(EncodeAll(mid));
    EncodeAllAppend([e] + mid, [e]);
    EncodeAllAppend([e], mid);
    assert EncodeAll([e]) == EncodeNumber(e);
    assert EncodeLevels(s, dists, absMaxDist).value == EncodeAll([e] + mid + [e]);
    DecodeEncodeAll([e] + mid + [e]);
  }

  /** One level per written point for lines of two or more points; a
      one-point line gets two levels for its single point. */
  lemma LevelCountMatchesPoints(s: Settings, dists: seq<real>, absMaxDist: real)
    requires WellFormed(s)
    ensures |dists| >= 2 ==> |ExpectedCodes(s, dists, absMaxDist)| == |KeptIndices(dists)|
    ensures |dists| == 1 ==> |ExpectedCodes(s, dists, absMaxDist)| == 2 && |KeptIndices(dists)| == 1
  {
    KeptIsEndpointsAndInterior(dists);
  }

  /** With a table left over from a larger threshold, a distance between
      the new and the old threshold passes the `verySmall` test but is
      below every break, so the scan reads past the table. */
  lemma StaleThresholdOverruns(s: Settings, verySmall: real, d: real)
    requires Consistent(s) && s.zoomFactor >= 1 && s.verySmall > 0.0
    requires verySmall < d < s.verySmall
    ensures ComputeLevel(SetVerySmall(s, verySmall), d) == Failure(IndexOutOfBounds(|s.zoomLevelBreaks|))
  {
    var b := s.zoomLevelBreaks;
    forall j | 0 <= j < |b|
      ensures d < b[j]
    {
      PowAtLeastOne(s.zoomFactor as real, s.numLevels - j - 1);
      assert b[j] == s.verySmall * Pow(s.zoomFactor as real, s.numLevels - j - 1);
    }
  }

  /** On the defaults, `setVerySmall(0.000001)` and then `computeLevel` of
      any distance strictly between the new and the old threshold (such as
      0.000005) reads index 18 of an 18-entry table. */
  lemma StaleVerySmallOverruns(d: real)
    requires 0.000001 < d < 0.00001
    ensures ComputeLevel(SetVerySmall(DefaultSettings(), 0.000001), d) == Failure(IndexOutOfBounds(18))
  {
    StaleThresholdOverruns(DefaultSettings(), 0.000001, d);
  }

  /** The corrected setter keeps `computeLevel` inside the table. */
  lemma WithVerySmallInBounds(s: Settings, verySmall: real, d: real)
    requires s.numLevels >= 1
    ensures WithVerySmall(s, verySmall).Success?
    ensures ComputeLevel(WithVerySmall(s, verySmall).value, d).Success?
    ensures ComputeLevel(WithVerySmall(s, verySmall).value, d).value < s.numLevels
  {
    ComputeLevelInBounds(WithVerySmall(s, verySmall).value, d);
  }
}

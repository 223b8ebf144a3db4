/** `PolylineEncoderSettings`: the four tuning fields and the zoom-level
    breakpoint table derived from them when the object is constructed. */
module EncoderSettings {
  import opened JavaInt
  import opened Outcome

  /** The settings object. `zoomLevelBreaks` is stored, not derived: the
      setters below change a field without recomputing it. */
  datatype Settings = Settings(
    numLevels: Int32,
    zoomFactor: Int32,
    verySmall: real,
    forceEndpoints: bool,
    zoomLevelBreaks: seq<real>)

  const DefaultNumLevels: Int32 := 18
  const DefaultZoomFactor: Int32 := 2
  const DefaultVerySmall: real := 0.00001
  const DefaultForceEndpoints: bool := true

  /** `b` raised to `e`, exactly. */
  function Pow(b: real, e: nat): real {
    if e == 0 then 1.0 else b * Pow(b, e - 1)
  }

  /** `b` is the table `initZoomLevelBreaks` fills for these fields:
      `numLevels` entries, entry i being `verySmall * zoomFactor^(numLevels-i-1)`. */
  predicate BreaksFor(b: seq<real>, numLevels: int, zoomFactor: int, verySmall: real) {
    && |b| == numLevels
    && forall i :: 0 <= i < |b| ==> b[i] == verySmall * Pow(zoomFactor as real, numLevels - i - 1)
  }

  /** The stored table is the one the current fields determine. */
  predicate Consistent(s: Settings) {
    BreaksFor(s.zoomLevelBreaks, s.numLevels, s.zoomFactor, s.verySmall)
  }

  /** `initZoomLevelBreaks`, built from the last (smallest) entry upward. */
  function ZoomLevelBreaks(numLevels: nat, zoomFactor: int, verySmall: real): (r: seq<real>)
    ensures BreaksFor(r, numLevels, zoomFactor, verySmall)
  {
    if numLevels == 0 then []
    else [verySmall * Pow(zoomFactor as real, numLevels - 1)] + ZoomLevelBreaks(numLevels - 1, zoomFactor, verySmall)
  }

  /** The four-argument constructor. `new double[numLevels]` throws for a
      negative `numLevels`; otherwise the table is consistent. */
  function NewSettings(numLevels: Int32, zoomFactor: Int32, verySmall: real, forceEndpoints: bool): (r: Result<Settings>)
    ensures r.Success? <==> numLevels >= 0
    ensures r.Failure? ==> r.error == NegativeArraySize(numLevels)
    ensures r.Success? ==>
      && r.value.numLevels == numLevels && r.value.zoomFactor == zoomFactor
      && r.value.verySmall == verySmall && r.value.forceEndpoints == forceEndpoints
      && Consistent(r.value)
  {
    if numLevels < 0 then Failure(NegativeArraySize(numLevels))
    else Success(Settings(numLevels, zoomFactor, verySmall, forceEndpoints,
                          ZoomLevelBreaks(numLevels, zoomFactor, verySmall)))
  }

  /** The no-argument constructor: the field defaults, then the table. */
  function DefaultSettings(): (s: Settings)
    ensures s.numLevels == 18 && s.zoomFactor == 2
    ensures s.verySmall == 0.00001 && s.forceEndpoints
    ensures Consistent(s) && |s.zoomLevelBreaks| == 18
  {
    Settings(DefaultNumLevels, DefaultZoomFactor, DefaultVerySmall, DefaultForceEndpoints,
             ZoomLevelBreaks(DefaultNumLevels, DefaultZoomFactor, DefaultVerySmall))
  }

  // ---------------------------------------------------------------------
  // Setters, as written: each replaces its own field and nothing else.

  function SetNumLevels(s: Settings, numLevels: Int32): (r: Settings)
    ensures r.numLevels == numLevels
    ensures r == Settings(numLevels, s.zoomFactor, s.verySmall, s.forceEndpoints, s.zoomLevelBreaks)
  {
    s.(numLevels := numLevels)
  }

  function SetZoomFactor(s: Settings, zoomFactor: Int32): (r: Settings)
    ensures r.zoomFactor == zoomFactor
    ensures r == Settings(s.numLevels, zoomFactor, s.verySmall, s.forceEndpoints, s.zoomLevelBreaks)
  {
    s.(zoomFactor := zoomFactor)
  }

  function SetVerySmall(s: Settings, verySmall: real): (r: Settings)
    ensures r.verySmall == verySmall
    ensures r == Settings(s.numLevels, s.zoomFactor, verySmall, s.forceEndpoints, s.zoomLevelBreaks)
  {
    s.(verySmall := verySmall)
  }

  function SetForceEndpoints(s: Settings, forceEndpoints: bool): (r: Settings)
    ensures r.forceEndpoints == forceEndpoints
    ensures r == Settings(s.numLevels, s.zoomFactor, s.verySmall, forceEndpoints, s.zoomLevelBreaks)
  {
    s.(forceEndpoints := forceEndpoints)
  }

  /** Replaces the table wholesale; the four fields are untouched, so the
      new table need not agree with them. */
  function SetZoomLevelBreaks(s: Settings, zoomLevelBreaks: seq<real>): (r: Settings)
    ensures r == Settings(s.numLevels, s.zoomFactor, s.verySmall, s.forceEndpoints, zoomLevelBreaks)
    ensures Consistent(r) <==> BreaksFor(zoomLevelBreaks, s.numLevels, s.zoomFactor, s.verySmall)
  {
    s.(zoomLevelBreaks := zoomLevelBreaks)
  }

  /** Corrected `setVerySmall`: changes the threshold and rebuilds the
      table, as the constructors do. */
  function WithVerySmall(s: Settings, verySmall: real): (r: Result<Settings>)
    ensures r.Success? <==> s.numLevels >= 0
    ensures r.Success? ==>
      && Consistent(r.value) && r.value.verySmall == verySmall
      && r.value.numLevels == s.numLevels && r.value.zoomFactor == s.zoomFactor
      && r.value.forceEndpoints == s.forceEndpoints
  {
    NewSettings(s.numLevels, s.zoomFactor, verySmall, s.forceEndpoints)
  }

  // ---------------------------------------------------------------------
  // Properties

  lemma {:induction false} PowAtLeastOne(b: real, e: nat)
    requires b >= 1.0
    ensures Pow(b, e) >= 1.0
  {
    if e > 0 {
      PowAtLeastOne(b, e - 1);
    }
  }

  lemma {:induction false} PowIncreasing(b: real, e1: nat, e2: nat)
    requires b > 1.0 && e1 < e2
    ensures Pow(b, e1) < Pow(b, e2)
    decreases e2
  {
    PowAtLeastOne(b, e2 - 1);
    if e1 < e2 - 1 {
      PowIncreasing(b, e1, e2 - 1);
    }
  }

  /** With a zoom factor above 1 and a positive threshold the consistent
      table strictly decreases, and its last entry is the threshold. */
  lemma BreaksDescend(s: Settings)
    requires Consistent(s) && s.zoomFactor > 1 && s.verySmall > 0.0
    ensures forall i, j :: 0 <= i < j < |s.zoomLevelBreaks| ==> s.zoomLevelBreaks[i] > s.zoomLevelBreaks[j]
    ensures s.numLevels >= 1 ==> s.zoomLevelBreaks[s.numLevels - 1] == s.verySmall
  {
    var b := s.zoomLevelBreaks;
    forall i, j | 0 <= i < j < |b|
      ensures b[i] > b[j]
    {
      PowIncreasing(s.zoomFactor as real, s.numLevels - j - 1, s.numLevels - i - 1);
    }
  }

  /** Whatever the fields, a consistent non-empty table ends at `verySmall`. */
  lemma LastBreakIsVerySmall(s: Settings)
    requires Consistent(s) && s.numLevels >= 1
    ensures s.zoomLevelBreaks[s.numLevels - 1] == s.verySmall
  {
  }

  /** `setNumLevels` with a new value leaves the table at its old length. */
  lemma SetNumLevelsStales(s: Settings, numLevels: Int32)
    requires Consistent(s) && numLevels != s.numLevels
    ensures !Consistent(SetNumLevels(s, numLevels))
  {
  }

  /** `setVerySmall` with a new value leaves the old threshold at the end
      of the table. */
  lemma SetVerySmallStales(s: Settings, verySmall: real)
    requires Consistent(s) && s.numLevels >= 1 && verySmall != s.verySmall
    ensures !Consistent(SetVerySmall(s, verySmall))
  {
    LastBreakIsVerySmall(s);
  }

  /** `setZoomFactor` with a new value leaves the old ratio between the
      last two entries. */
  lemma SetZoomFactorStales(s: Settings, zoomFactor: Int32)
    requires Consistent(s) && s.numLevels >= 2 && s.verySmall != 0.0 && zoomFactor != s.zoomFactor
    ensures !Consistent(SetZoomFactor(s, zoomFactor))
  {
    var b := s.zoomLevelBreaks;
    assert Pow(s.zoomFactor as real, 1) == s.zoomFactor as real;
    assert Pow(zoomFactor as real, 1) == zoomFactor as real;
    assert b[s.numLevels - 2] == s.verySmall * s.zoomFactor as real;
    assert s.verySmall * s.zoomFactor as real != s.verySmall * zoomFactor as real;
  }

  /** `forceEndpoints` plays no part in the table. */
  lemma SetForceEndpointsKeepsTable(s: Settings, forceEndpoints: bool)
    ensures Consistent(SetForceEndpoints(s, forceEndpoints)) <==> Consistent(s)
  {
  }
}

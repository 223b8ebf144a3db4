/** `PolylineEncoder`: picks the line to encode from a geometry, runs the
    simplifier, and writes the `points` and `levels` strings; plus the
    "dumb" mode that writes every `step`-th point at one fixed level. */
module PolylineEncoder {
  import opened JavaInt
  import opened Outcome
  import opened Codec
  import opened EncoderSettings
  import opened Significance
  import opened Levels
  import opened DouglasPeucker
  import Simplifier
  import UnsupportedGeometry

  /** A point after `floor1e5`: longitude (x) and latitude (y) scaled by
      10^5 and floored to an `int`. */
  datatype Coord = Coord(x: Int32, y: Int32)

  /** The geometries the encoder is handed. Any other kind is described
      only by the name its `getGeometryType()` reports. */
  datatype Geometry =
    | LineString(points: seq<Coord>)
    | Polygon(exteriorRing: seq<Coord>, interiorRings: seq<seq<Coord>>)
    | OtherGeometry(geometryType: string)

  /** The result record: the point string and the level string. */
  datatype EncodedPolyline = EncodedPolyline(points: Text, levels: Text)

  /** `ALLOWED_WKT_TYPES`. */
  const AllowedTypes: seq<UnsupportedGeometry.Nullable<string>> :=
    [UnsupportedGeometry.NonNull("LINESTRING"), UnsupportedGeometry.NonNull("POLYGON")]

  /** `getLineToEncode`: a line string is encoded as is, a polygon by its
      exterior ring, and anything else is rejected with a message naming
      the accepted kinds. */
  function GetLineToEncode(g: Geometry): (r: Result<seq<Coord>>)
    ensures r.Success? <==> !g.OtherGeometry?
    ensures g.LineString? ==> r.value == g.points
    ensures g.Polygon? ==> r.value == g.exteriorRing
    ensures g.OtherGeometry? ==> r.error == UnsupportedGeometryType(
      "Geometry type " + g.geometryType + " not supported. Expected one of the following: LINESTRING, POLYGON")
  {
    match g
    case LineString(points) => Success(points)
    case Polygon(exteriorRing, _) => Success(exteriorRing)
    case OtherGeometry(t) =>
      UnsupportedGeometry.EncoderMessage(t);
      Failure(UnsupportedGeometryType(UnsupportedGeometry.Message(
        UnsupportedGeometry.NonNull(t), UnsupportedGeometry.NonNull(AllowedTypes))))
  }

  // ---------------------------------------------------------------------
  // Point strings

  /** The two signed deltas of one point, latitude (y) first, each a
      32-bit `int` subtraction from the previous written point. */
  function PointPair(c: Coord, plat: Int32, plng: Int32): (r: Text)
    ensures |r| >= 2
    ensures InSignedRange(c.y - plat) && InSignedRange(c.x - plng) ==>
      forall k :: 0 <= k < |r| ==> Offset <= r[k] <= Offset + 63
  {
    EncodeSignedNumber(Wrap(c.y - plat)) + EncodeSignedNumber(Wrap(c.x - plng))
  }

  /** The loop of `createEncodings` from index `i` on, `(plat, plng)`
      being the last written point. */
  function CreateEncodingsFrom(line: seq<Coord>, dists: seq<real>, i: nat, plat: Int32, plng: Int32): (r: Text)
    requires |dists| == |line| && i <= |line|
    ensures |r| == 0 <==> i == |line|
    ensures i < |line| ==> |r| >= 2
    decreases |line| - i
  {
    if i == |line| then []
    else if Retained(dists, i) then
      PointPair(line[i], plat, plng) + CreateEncodingsFrom(line, dists, i + 1, line[i].y, line[i].x)
    else CreateEncodingsFrom(line, dists, i + 1, plat, plng)
  }

  /** `createEncodings`: the deltas of the retained points, from (0, 0). */
  function CreateEncodings(line: seq<Coord>, dists: seq<real>): (r: Text)
    requires |dists| == |line|
    ensures |r| == 0 <==> |line| == 0
    ensures |line| >= 1 ==> |r| >= 2
  {
    CreateEncodingsFrom(line, dists, 0, 0, 0)
  }

  /** The point half of the `dumbEncode` loop from index `i` on. */
  function DumbPoints(line: seq<Coord>, step: int, i: nat, plat: Int32, plng: Int32): (r: Text)
    requires step >= 1
    ensures |r| == 0 <==> i >= |line|
    ensures i < |line| ==> |r| >= 2
    decreases |line| - i
  {
    if i >= |line| then []
    else PointPair(line[i], plat, plng) + DumbPoints(line, step, i + step, line[i].y, line[i].x)
  }

  /** The level half of the `dumbEncode` loop from index `i` on. */
  function DumbLevels(line: seq<Coord>, level: Int32, step: int, i: nat): (r: Text)
    requires step >= 1
    ensures |r| == 0 <==> i >= |line|
    decreases |line| - i
  {
    if i >= |line| then [] else EncodeNumber(level) + DumbLevels(line, level, step, i + step)
  }

  /** `dumbEncode(geometry, level, step)`: every `step`-th point, each with
      the level `level`. A `step` below 1 never advances past the first
      point, so it is excluded. */
  function DumbEncode(g: Geometry, level: Int32, step: int): (r: Result<EncodedPolyline>)
    requires step >= 1
    ensures r.Success? <==> !g.OtherGeometry?
    ensures r.Failure? ==> r.error == GetLineToEncode(g).error
  {
    var line :- GetLineToEncode(g);
    Success(EncodedPolyline(DumbPoints(line, step, 0, 0, 0), DumbLevels(line, level, step, 0)))
  }

  /** `dumbEncode(geometry)`: every point at the top level of the default
      settings. */
  function DumbEncodeDefault(g: Geometry): (r: Result<EncodedPolyline>)
    ensures r.Success? <==> !g.OtherGeometry?
  {
    DumbEncode(g, DefaultSettings().numLevels - 1, 1)
  }

  // ---------------------------------------------------------------------
  // The simplifying encoder

  /** The indices `0, 1, ..., n - 1` of a line's points. */
  function Indices(n: nat): (r: seq<nat>)
    ensures |r| == n && forall i :: 0 <= i < n ==> r[i] == i
  {
    seq(n, i => i)
  }

  /** The tolerance guarantee of the simplifier, for distances given by
      point index. */
  lemma IndexTolerance(n: nat, dist: (nat, nat, nat) -> real, verySmall: real)
    requires verySmall >= 0.0
    ensures var d := Simplified(Indices(n), dist, verySmall).d;
      forall a, b :: 0 <= a < b < n && Retained(d, a) && Retained(d, b) && Clear(d, a, b) ==>
        forall j :: a < j < b ==> dist(j, a, b) <= verySmall
  {
    var pts := Indices(n);
    var d := Simplified(pts, dist, verySmall).d;
    SimplifiedTolerance(pts, dist, verySmall);
    forall a, b | 0 <= a < b < n && Retained(d, a) && Retained(d, b) && Clear(d, a, b)
      ensures forall j :: a < j < b ==> dist(j, a, b) <= verySmall
    {
      assert WithinTolerance(pts, dist, verySmall, a, b);
      forall j | a < j < b
        ensures dist(j, a, b) <= verySmall
      {
        assert SpanDist(pts, dist, j, a, b) <= verySmall;
      }
    }
  }

  /** The simplification step of `encode` on a line of `n` points, with
      distances given by point index. */
  method SimplifyLine(n: nat, dist: (nat, nat, nat) -> real, verySmall: real)
    returns (dists: seq<real>, absMaxDist: real)
    requires verySmall >= 0.0
    ensures var ref := Simplified(Indices(n), dist, verySmall); dists == ref.d && absMaxDist == ref.absMax
    ensures |dists| == n
    ensures n <= 2 ==> forall i :: 0 <= i < n ==> dists[i] == 0.0
    ensures n >= 1 ==> dists[0] == 0.0 && dists[n - 1] == 0.0
    ensures forall i :: 0 <= i < |dists| && dists[i] != 0.0 ==> dists[i] > verySmall
    ensures forall a, b :: 0 <= a < b < n && Retained(dists, a) && Retained(dists, b) && Clear(dists, a, b) ==>
      forall j :: a < j < b ==> dist(j, a, b) <= verySmall
  {
    var ds, abs, _, _, _ := Simplifier.Simplify(Indices(n), dist, verySmall);
    dists, absMaxDist := ds, abs;
    IndexTolerance(n, dist, verySmall);
  }

  /** `encode(geometry, settings)`: simplify, then write the retained
      points and their levels. `dist(i, lo, hi)` is the distance of point
      `i` of the line from the chord through points `lo` and `hi`, taken on
      the unquantised coordinates. The significance array and the largest
      distance are also returned, as ghosts, to state what was written. */
  method Encode(g: Geometry, settings: Settings, dist: (nat, nat, nat) -> real)
    returns (r: Result<EncodedPolyline>, ghost dists: seq<real>, ghost absMaxDist: real)
    requires settings.verySmall >= 0.0
    ensures g.OtherGeometry? ==> r == Failure(GetLineToEncode(g).error)
    ensures !g.OtherGeometry? && WellFormed(settings) ==> r.Success?
    ensures r.Failure? ==> g.OtherGeometry? || r.error.IndexOutOfBounds?
    ensures r.Success? ==> |dists| == |GetLineToEncode(g).value|
    ensures r.Success? ==>
      var line := GetLineToEncode(g).value;
      && (|line| <= 2 ==> forall i :: 0 <= i < |dists| ==> dists[i] == 0.0)
      && (|line| >= 1 ==> dists[0] == 0.0 && dists[|line| - 1] == 0.0)
      && (forall i :: 0 <= i < |dists| && dists[i] != 0.0 ==> dists[i] > settings.verySmall)
    ensures r.Success? ==>
      var ref := Simplified(Indices(|GetLineToEncode(g).value|), dist, settings.verySmall);
      dists == ref.d && absMaxDist == ref.absMax
    ensures r.Success? ==>
      forall a, b :: 0 <= a < b < |dists| && Retained(dists, a) && Retained(dists, b) && Clear(dists, a, b) ==>
        forall j :: a < j < b ==> dist(j, a, b) <= settings.verySmall
    ensures r.Success? && SafeLine(GetLineToEncode(g).value) ==>
      DecodePolyline(r.value.points) == Some(LatLngsAt(GetLineToEncode(g).value, KeptIndices(dists)))
    ensures r.Success? && WellFormed(settings) ==>
      DecodeAll(r.value.levels) == Some(ExpectedCodes(settings, dists, absMaxDist))
    ensures r.Success? && WellFormed(settings) && SafeLine(GetLineToEncode(g).value) && |GetLineToEncode(g).value| >= 2 ==>
      SameCount(r.value)
  {
    var lineResult := GetLineToEncode(g);
    if lineResult.Failure? {
      r, dists, absMaxDist := Failure(lineResult.error), [], 0.0;
      return;
    }
    var line := lineResult.value;
    var ds, abs := SimplifyLine(|line|, dist, settings.verySmall);
    dists, absMaxDist := ds, abs;
    r := WriteEncoding(line, settings, ds, abs);
  }

  /** The end of `encode`: the retained points and the level of each,
      from a significance array over `line`. */
  method WriteEncoding(line: seq<Coord>, settings: Settings, dists: seq<real>, absMaxDist: real)
    returns (r: Result<EncodedPolyline>)
    requires |dists| == |line|
    ensures WellFormed(settings) ==> r.Success?
    ensures r.Failure? ==> r.error.IndexOutOfBounds?
    ensures r.Success? && SafeLine(line) ==>
      DecodePolyline(r.value.points) == Some(LatLngsAt(line, KeptIndices(dists)))
    ensures r.Success? && WellFormed(settings) ==>
      DecodeAll(r.value.levels) == Some(ExpectedCodes(settings, dists, absMaxDist))
    ensures r.Success? && WellFormed(settings) && SafeLine(line) && |line| >= 2 ==> SameCount(r.value)
  {
    var points := CreateEncodings(line, dists);
    var levels := EncodeLevels(settings, dists, absMaxDist);
    if WellFormed(settings) {
      EncodeLevelsDecodes(settings, dists, absMaxDist);
      LevelCountMatchesPoints(settings, dists, absMaxDist);
    }
    if levels.Failure? {
      r := Failure(levels.error);
      return;
    }
    r := Success(EncodedPolyline(points, levels.value));
    if SafeLine(line) {
      CreateEncodingsDecodes(line, dists);
    }
  }

  /** `encode(geometry)`: the default settings. */
  method EncodeDefault(g: Geometry, dist: (nat, nat, nat) -> real)
    returns (r: Result<EncodedPolyline>, ghost dists: seq<real>, ghost absMaxDist: real)
    ensures r.Success? <==> !g.OtherGeometry?
    ensures r.Success? ==>
      var ref := Simplified(Indices(|GetLineToEncode(g).value|), dist, DefaultSettings().verySmall);
      dists == ref.d && absMaxDist == ref.absMax
    ensures r.Success? && SafeLine(GetLineToEncode(g).value) ==>
      DecodePolyline(r.value.points) == Some(LatLngsAt(GetLineToEncode(g).value, KeptIndices(dists)))
    ensures r.Success? ==>
      DecodeAll(r.value.levels) == Some(ExpectedCodes(DefaultSettings(), dists, absMaxDist))
    ensures r.Success? && SafeLine(GetLineToEncode(g).value) && |GetLineToEncode(g).value| >= 2 ==>
      SameCount(r.value)
  {
    r, dists, absMaxDist := Encode(g, DefaultSettings(), dist);
  }

  // ---------------------------------------------------------------------
  // Reference definitions for the properties

  /** Both strings decode, to as many level codes as points. */
  predicate SameCount(e: EncodedPolyline) {
    var ps := DecodePolyline(e.points);
    var cs := DecodeAll(e.levels);
    ps.Some? && cs.Some? && |ps.value| == |cs.value|
  }

  /** The bound on scaled coordinates below which no delta overflows. */
  const CoordBound: int := 0x2000_0000

  predicate SafeCoord(c: Coord) {
    -CoordBound <= c.x < CoordBound && -CoordBound <= c.y < CoordBound
  }

  /** Every point of the line is within `CoordBound`; real longitudes and
      latitudes scaled by 10^5 are far inside it. */
  predicate SafeLine(line: seq<Coord>) {
    forall k :: 0 <= k < |line| ==> SafeCoord(line[k])
  }

  /** The points at indices `ks`, latitude first. */
  function LatLngsAt(line: seq<Coord>, ks: seq<nat>): (r: seq<LatLng>)
    requires forall k :: 0 <= k < |ks| ==> ks[k] < |line|
    ensures |r| == |ks|
    ensures forall k :: 0 <= k < |ks| ==> r[k] == LatLng(line[ks[k]].y, line[ks[k]].x)
  {
    if |ks| == 0 then [] else [LatLng(line[ks[0]].y, line[ks[0]].x)] + LatLngsAt(line, ks[1..])
  }

  /** The indices `i, i + step, i + 2 step, ...` below `n`. */
  function Strided(n: nat, step: int, i: nat): (r: seq<nat>)
    requires step >= 1
    ensures forall k :: 0 <= k < |r| ==> i <= r[k] < n
    ensures i < n <==> |r| > 0
    decreases n - i
  {
    if i >= n then [] else [i] + Strided(n, step, i + step)
  }

  /** The `k`-th strided index is `i + k * step`, and the next one would
      be at or past `n`: there are `ceil((n - i) / step)` of them. */
  lemma {:induction false} StridedIndices(n: nat, step: int, i: nat)
    requires step >= 1
    ensures var r := Strided(n, step, i);
      && (forall k :: 0 <= k < |r| ==> r[k] == i + k * step)
      && (|r| > 0 ==> r[|r| - 1] + step >= n)
    decreases n - i
  {
    if i < n {
      StridedIndices(n, step, i + step);
      var r, tail := Strided(n, step, i), Strided(n, step, i + step);
      assert r == [i] + tail;
      forall k | 1 <= k < |r|
        ensures r[k] == i + k * step
      {
        assert r[k] == tail[k - 1] == i + step + (k - 1) * step;
      }
    }
  }

  /** The pairs of the points at indices `ks`, each relative to the one
      before, the first relative to `(plat, plng)`. */
  function PointsAt(line: seq<Coord>, ks: seq<nat>, plat: Int32, plng: Int32): Text
    requires forall k :: 0 <= k < |ks| ==> ks[k] < |line|
    decreases |ks|
  {
    if |ks| == 0 then []
    else PointPair(line[ks[0]], plat, plng) + PointsAt(line, ks[1..], line[ks[0]].y, line[ks[0]].x)
  }

  /** `m` copies of `level`. */
  function Copies(level: Int32, m: nat): (r: seq<Int32>)
    ensures |r| == m && forall k :: 0 <= k < m ==> r[k] == level
  {
    if m == 0 then [] else [level] + Copies(level, m - 1)
  }

  // ---------------------------------------------------------------------
  // Properties

  /** The pairs written for the points at indices `ks` decode to those
      points, latitude first. */
  lemma {:induction false} PointsAtDecode(line: seq<Coord>, ks: seq<nat>, plat: Int32, plng: Int32)
    requires forall k :: 0 <= k < |ks| ==> ks[k] < |line|
    requires SafeLine(line)
    requires -CoordBound <= plat < CoordBound && -CoordBound <= plng < CoordBound
    ensures DecodePairs(PointsAt(line, ks, plat, plng), plat, plng) == Some(LatLngsAt(line, ks))
    decreases |ks|
  {
    if |ks| > 0 {
      var c := line[ks[0]];
      assert SafeCoord(c);
      var rest := PointsAt(line, ks[1..], c.y, c.x);
      var ps := LatLngsAt(line, ks[1..]);
      PointsAtDecode(line, ks[1..], c.y, c.x);
      PairDecodes(c, plat, plng, rest, ps);
      assert LatLngsAt(line, ks) == [LatLng(c.y, c.x)] + ps;
    }
  }

  /** Writing one more index in front adds that point's pair in front. */
  lemma PointsAtCons(line: seq<Coord>, i: nat, tail: seq<nat>, plat: Int32, plng: Int32)
    requires i < |line| && forall k :: 0 <= k < |tail| ==> tail[k] < |line|
    ensures PointsAt(line, [i] + tail, plat, plng) == PointPair(line[i], plat, plng) + PointsAt(line, tail, line[i].y, line[i].x)
  {
    assert ([i] + tail)[1..] == tail;
  }

  /** The `createEncodings` loop from `i` on writes the pairs of the
      retained points from `i` on. */
  lemma {:induction false} CreateEncodingsFromIsPointsAt(line: seq<Coord>, dists: seq<real>, i: nat, plat: Int32, plng: Int32)
    requires |dists| == |line| && i <= |line|
    ensures CreateEncodingsFrom(line, dists, i, plat, plng) == PointsAt(line, KeptFrom(dists, i), plat, plng)
    decreases |line| - i
  {
    if i == |line| {
      assert KeptFrom(dists, i) == [];
    } else if Retained(dists, i) {
      CreateEncodingsFromIsPointsAt(line, dists, i + 1, line[i].y, line[i].x);
      KeptStep(line, dists, i, plat, plng, KeptFrom(dists, i + 1));
    } else {
      CreateEncodingsFromIsPointsAt(line, dists, i + 1, plat, plng);
      SkippedStep(line, dists, i, plat, plng);
    }
  }

  /** A point that is not retained writes nothing. */
  lemma SkippedStep(line: seq<Coord>, dists: seq<real>, i: nat, plat: Int32, plng: Int32)
    requires |dists| == |line| && i < |line| && !Retained(dists, i)
    requires CreateEncodingsFrom(line, dists, i + 1, plat, plng) == PointsAt(line, KeptFrom(dists, i + 1), plat, plng)
    ensures CreateEncodingsFrom(line, dists, i, plat, plng) == PointsAt(line, KeptFrom(dists, i), plat, plng)
  {
    assert KeptFrom(dists, i) == KeptFrom(dists, i + 1);
  }

  /** A retained point writes its pair, then the loop goes on from it. */
  lemma KeptStep(line: seq<Coord>, dists: seq<real>, i: nat, plat: Int32, plng: Int32, tail: seq<nat>)
    requires |dists| == |line| && i < |line| && Retained(dists, i)
    requires tail == KeptFrom(dists, i + 1)
    requires CreateEncodingsFrom(line, dists, i + 1, line[i].y, line[i].x) == PointsAt(line, tail, line[i].y, line[i].x)
    ensures CreateEncodingsFrom(line, dists, i, plat, plng) == PointsAt(line, KeptFrom(dists, i), plat, plng)
  {
    assert KeptFrom(dists, i) == [i] + tail;
    PointsAtCons(line, i, tail, plat, plng);
  }

  /** One point's pair in front of a text that decodes, from that point,
      to `ps` decodes to the point followed by `ps`. */
  lemma PairDecodes(c: Coord, plat: Int32, plng: Int32, rest: Text, ps: seq<LatLng>)
    requires SafeCoord(c)
    requires -CoordBound <= plat < CoordBound && -CoordBound <= plng < CoordBound
    requires DecodePairs(rest, c.y, c.x) == Some(ps)
    ensures DecodePairs(PointPair(c, plat, plng) + rest, plat, plng) == Some([LatLng(c.y, c.x)] + ps)
  {
    var dlat, dlng := c.y - plat, c.x - plng;
    var r1 := EncodeSignedNumber(dlng) + rest;
    PairHead(c, plat, plng, rest);
    DecodeEncodeSigned(dlng, rest);
    assert plat + dlat == c.y && plng + dlng == c.x;
    DecodePairsStep(PointPair(c, plat, plng) + rest, plat, plng, dlat, r1, dlng, rest, ps);
  }

  /** The latitude delta of a pair reads back, leaving the longitude
      delta and the rest. */
  lemma PairHead(c: Coord, plat: Int32, plng: Int32, rest: Text)
    requires SafeCoord(c)
    requires -CoordBound <= plat < CoordBound && -CoordBound <= plng < CoordBound
    ensures InSignedRange(c.y - plat) && InSignedRange(c.x - plng)
    ensures DecodeSigned(PointPair(c, plat, plng) + rest) == Some((c.y - plat, EncodeSignedNumber(c.x - plng) + rest))
  {
    var dlat, dlng := Wrap(c.y - plat), Wrap(c.x - plng);
    assert dlat == c.y - plat && dlng == c.x - plng;
    var a, b := EncodeSignedNumber(dlat), EncodeSignedNumber(dlng);
    assert PointPair(c, plat, plng) == a + b;
    AppendAssoc(a, b, rest);
    DecodeEncodeSigned(dlat, b + rest);
  }

  lemma AppendAssoc<T>(a: seq<T>, b: seq<T>, c: seq<T>)
    ensures (a + b) + c == a + (b + c)
  {
  }

  /** One step of `DecodePairs` once both deltas are known. */
  lemma DecodePairsStep(s: Text, lat: int, lng: int, dlat: int, r1: Text, dlng: int, r2: Text, ps: seq<LatLng>)
    requires DecodeSigned(s) == Some((dlat, r1)) && DecodeSigned(r1) == Some((dlng, r2))
    requires DecodePairs(r2, lat + dlat, lng + dlng) == Some(ps)
    ensures DecodePairs(s, lat, lng) == Some([LatLng(lat + dlat, lng + dlng)] + ps)
  {
    assert |s| != 0;
  }

  /** `createEncodings` round trip: its text decodes to exactly the
      retained points, in input order, latitude first. */
  lemma CreateEncodingsDecodes(line: seq<Coord>, dists: seq<real>)
    requires |dists| == |line| && SafeLine(line)
    ensures DecodePolyline(CreateEncodings(line, dists)) == Some(LatLngsAt(line, KeptIndices(dists)))
  {
    CreateEncodingsFromIsPointsAt(line, dists, 0, 0, 0);
    PointsAtDecode(line, KeptIndices(dists), 0, 0);
  }

  /** The first and the last point are always written, whatever the
      significance array says about them. */
  lemma EndpointsDecode(line: seq<Coord>, dists: seq<real>)
    requires |dists| == |line| && SafeLine(line) && |line| >= 1
    ensures DecodePolyline(CreateEncodings(line, dists)).Some?
    ensures var ps := DecodePolyline(CreateEncodings(line, dists)).value;
      && |ps| >= 1
      && ps[0] == LatLng(line[0].y, line[0].x)
      && ps[|ps| - 1] == LatLng(line[|line| - 1].y, line[|line| - 1].x)
  {
    CreateEncodingsDecodes(line, dists);
    KeptIsEndpointsAndInterior(dists);
    var ks := KeptIndices(dists);
    assert |ks| >= 1 && ks[0] == 0 && ks[|ks| - 1] == |line| - 1;
    var ps := LatLngsAt(line, ks);
    assert ps[0] == LatLng(line[0].y, line[0].x);
    assert ps[|ps| - 1] == LatLng(line[|line| - 1].y, line[|line| - 1].x);
  }

  /** Three points with no interior point selected, as for the collinear
      line (0,0), (1,1), (2,2): only the two endpoints are written. */
  lemma UnselectedMiddleDropped(a: Coord, b: Coord, c: Coord)
    requires SafeCoord(a) && SafeCoord(b) && SafeCoord(c)
    ensures DecodePolyline(CreateEncodings([a, b, c], [0.0, 0.0, 0.0]))
      == Some([LatLng(a.y, a.x), LatLng(c.y, c.x)])
  {
    var line, dists := [a, b, c], [0.0, 0.0, 0.0];
    CreateEncodingsDecodes(line, dists);
    KeptIsEndpointsAndInterior(dists);
    assert NonZeroFrom(dists, 1, 2) == [];
    assert KeptIndices(dists) == [0, 2];
    assert LatLngsAt(line, [0, 2]) == [LatLng(a.y, a.x), LatLng(c.y, c.x)];
  }

  // ---------------------------------------------------------------------
  // The dump mode

  /** The point half of the `dumbEncode` loop from `i` on writes the
      pairs of the points at `i, i + step, ...`. */
  lemma {:induction false} DumbPointsIsPointsAt(line: seq<Coord>, step: int, i: nat, plat: Int32, plng: Int32)
    requires step >= 1
    ensures DumbPoints(line, step, i, plat, plng) == PointsAt(line, Strided(|line|, step, i), plat, plng)
    decreases |line| - i
  {
    if i >= |line| {
      assert Strided(|line|, step, i) == [];
    } else {
      var tail := Strided(|line|, step, i + step);
      var rest := DumbPoints(line, step, i + step, line[i].y, line[i].x);
      assert DumbPoints(line, step, i, plat, plng) == PointPair(line[i], plat, plng) + rest;
      DumbPointsIsPointsAt(line, step, i + step, line[i].y, line[i].x);
      assert Strided(|line|, step, i) == [i] + tail;
      PointsAtCons(line, i, tail, plat, plng);
    }
  }

  /** The level string `dumbEncode` writes from index `i` on holds the
      code `level` once per written point. */
  lemma {:induction false} DumbLevelsCopies(line: seq<Coord>, level: Int32, step: int, i: nat)
    requires step >= 1
    ensures DumbLevels(line, level, step, i)
      == EncodeAll(Copies(level, |Strided(|line|, step, i)|))
    decreases |line| - i
  {
    if i < |line| {
      var m := |Strided(|line|, step, i + step)|;
      DumbLevelsCopies(line, level, step, i + step);
      assert Strided(|line|, step, i) == [i] + Strided(|line|, step, i + step);
      assert Copies(level, m + 1)[1..] == Copies(level, m);
    }
  }

  /** `dumbEncode(geometry, level, step)` of a supported geometry writes
      the points at indices `0, step, 2 step, ...` below `n`, each with
      the code `level`. */
  lemma DumbEncodeDecodes(g: Geometry, level: Int32, step: int)
    requires step >= 1 && !g.OtherGeometry? && SafeLine(GetLineToEncode(g).value)
    ensures var line := GetLineToEncode(g).value;
      var ks := Strided(|line|, step, 0);
      && (forall k :: 0 <= k < |ks| ==> ks[k] == k * step)
      && (|ks| > 0 ==> ks[|ks| - 1] + step >= |line|)
      && DecodePolyline(DumbEncode(g, level, step).value.points) == Some(LatLngsAt(line, ks))
      && (0 <= level ==> DecodeAll(DumbEncode(g, level, step).value.levels) == Some(Copies(level, |ks|)))
  {
    var line := GetLineToEncode(g).value;
    StridedIndices(|line|, step, 0);
    DumbPointsDecode(line, step);
    if 0 <= level {
      DumbLevelsDecode(line, level, step);
    }
    var e := DumbEncode(g, level, step).value;
    assert e.points == DumbPoints(line, step, 0, 0, 0) && e.levels == DumbLevels(line, level, step, 0);
  }

  /** The point string of `dumbEncode` decodes to the strided points. */
  lemma DumbPointsDecode(line: seq<Coord>, step: int)
    requires step >= 1 && SafeLine(line)
    ensures DecodePolyline(DumbPoints(line, step, 0, 0, 0)) == Some(LatLngsAt(line, Strided(|line|, step, 0)))
  {
    DumbPointsIsPointsAt(line, step, 0, 0, 0);
    PointsAtDecode(line, Strided(|line|, step, 0), 0, 0);
  }

  /** The level string of `dumbEncode` decodes to one copy of a
      non-negative `level` per strided point. */
  lemma DumbLevelsDecode(line: seq<Coord>, level: Int32, step: int)
    requires step >= 1 && 0 <= level
    ensures DecodeAll(DumbLevels(line, level, step, 0)) == Some(Copies(level, |Strided(|line|, step, 0)|))
  {
    DumbLevelsCopies(line, level, step, 0);
    DecodeEncodeAll(Copies(level, |Strided(|line|, step, 0)|));
  }

  /** `dumbEncode(geometry)` writes every point, each with the code 17,
      the top level of the default settings. */
  lemma DumbEncodeDefaultDecodes(g: Geometry)
    requires !g.OtherGeometry? && SafeLine(GetLineToEncode(g).value)
    ensures var line := GetLineToEncode(g).value;
      var e := DumbEncodeDefault(g).value;
      && DecodePolyline(e.points).Some?
      && |DecodePolyline(e.points).value| == |line|
      && (forall k :: 0 <= k < |line| ==> DecodePolyline(e.points).value[k] == LatLng(line[k].y, line[k].x))
      && DecodeAll(e.levels) == Some(Copies(17, |line|))
  {
    var line := GetLineToEncode(g).value;
    var ks := Strided(|line|, 1, 0);
    DumbEncodeDecodes(g, 17, 1);
    assert DumbEncodeDefault(g) == DumbEncode(g, 17, 1);
    StridedByOne(|line|, 0);
    var ps := LatLngsAt(line, ks);
    forall k | 0 <= k < |line|
      ensures ps[k] == LatLng(line[k].y, line[k].x)
    {
      assert ks[k] == k;
    }
  }

  /** With step 1 every index from `i` on is visited. */
  lemma {:induction false} StridedByOne(n: nat, i: nat)
    requires i <= n
    ensures |Strided(n, 1, i)| == n - i
    ensures forall k :: 0 <= k < n - i ==> Strided(n, 1, i)[k] == i + k
    decreases n - i
  {
    if i < n {
      StridedByOne(n, i + 1);
      assert Strided(n, 1, i) == [i] + Strided(n, 1, i + 1);
    }
  }
}

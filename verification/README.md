# Google encoded polyline encoder, modelled in Dafny

This project models the encoder of the `polyline-encoder` library (package
`com.axiomalaska.polylineencoder`). The library turns a JTS line string or
polygon into the two strings of the Google "Encoded Polyline Algorithm
Format": `points` and `levels`.

- `points` holds the zig-zag, 5-bit-group encoding of the latitude and
  longitude deltas.
- `levels` holds one zoom-level code per written point.

The points to keep come from a Douglas-Peucker simplification that uses an
explicit stack of spans. Each point's level comes from a breakpoint table
derived from `PolylineEncoderSettings`.

The modules follow the source:

| module | file | models |
|---|---|---|
| `JavaInt` | `java_int.dfy` | Java's 32-bit `int`, with its wrap-around written out |
| `Outcome` | `outcome.dfy` | `Option`, and `Result` whose `Error` names the exceptions the model raises: the unsupported geometry, the table overrun and a negative array size |
| `Codec` | `codec.dfy` | `encodeNumber` and `encodeSignedNumber`, plus the format's decoder as their reference |
| `EncoderSettings` | `settings.dfy` | `PolylineEncoderSettings`: defaults, constructors, `initZoomLevelBreaks`, setters |
| `Significance` | `significance.dfy` | the index lists that `createEncodings` and `encodeLevels` walk |
| `Levels` | `levels.dfy` | `computeLevel` and `encodeLevels` |
| `DouglasPeucker` | `douglas_peucker.dfy` | the simplification as a recursion over spans, the reference the loop is proved equal to, and its tolerance guarantee |
| `SpanInvariant` | `span_invariant.dfy` | the loop invariant of the simplification loop, and its step lemmas |
| `Simplifier` | `simplifier.dfy` | the Douglas-Peucker loop at the head of `encode` |
| `UnsupportedGeometry` | `unsupported_geometry.dfy` | the exception's message and `arrayToString` |
| `PolylineEncoder` | `polyline_encoder.dfy` | `getLineToEncode`, `createEncodings`, `encode`, `dumbEncode` |

Conventions used throughout the model:

- Coordinates are the `int`s that `floor1e5` produces (`Coord(x, y)`).
- The point-to-segment distance is a parameter. `Simplify` takes it over
  points; `Encode` takes it over point indices, `dist(i, lo, hi)`, so that
  it can be the distance between the unquantised points.
- Text is a sequence of UTF-16 code units, because a Java `(char)` cast of
  a negative `int` yields any code unit.
- Exceptions are `Failure` values. Java `double`s are Dafny `real`s.

Correctness is stated against independent references:

- `Codec.DecodePolyline` and `Codec.DecodeAll` read encoded text back.
- `LatLngsAt` gives the expected points and `ExpectedCodes` the expected
  level codes.
- `DouglasPeucker.Simplified` is the simplification written as the usual
  recursion over spans; the stack loop is proved to compute it.
- `BreaksFor` describes the table the settings should hold.
- `Join` describes the message's list of types.

## Model

| member | source | states |
|---|---|---|
| JavaInt.Wrap | src/main/java/com/axiomalaska/polylineencoder/PolylineEncoder.java:244-245 | the 32-bit `int` result is congruent to the exact difference modulo 2^32, and equal to it when it fits |
| Codec.ZigZag | src/main/java/com/axiomalaska/polylineencoder/PolylineEncoder.java:148-152 | for \|n\| < 2^30, `n << 1` (complemented for negative n) is 2n for n ≥ 0 and -2n-1 for n < 0, so it is never negative |
| Codec.EncodeNumber | src/main/java/com/axiomalaska/polylineencoder/PolylineEncoder.java:156-169 | writes at least one unit; for num ≥ 0 every unit lies in 63..126 |
| Codec.EncodeNumberIsChunk | src/main/java/com/axiomalaska/polylineencoder/PolylineEncoder.java:156-169 | for num ≥ 0: every unit is in 63..126, every unit but the last has the continuation bit (≥ 95), the last is ≤ 94, a multi-unit encoding does not end in a zero group ('?'), and the sum of ((c-63)&31)·32^k is num |
| Codec.ChunkUnique | src/main/java/com/axiomalaska/polylineencoder/PolylineEncoder.java:156-169 | one text per value: any well-formed chunk without a trailing zero group that denotes num equals `encodeNumber(num)`, so the output is fixed unit for unit |
| Codec.SignedChunkUnique | src/main/java/com/axiomalaska/polylineencoder/PolylineEncoder.java:148-154 | one text per signed value within ±2^30: a canonical chunk whose un-zig-zagged value is num equals `encodeSignedNumber(num)` |
| Codec.EncodeSignedNumber | src/main/java/com/axiomalaska/polylineencoder/PolylineEncoder.java:148-154 | within ±2^30 the output is a well-formed group sequence whose value un-zig-zags to num |
| Codec.DecodeEncodeNumber | src/main/java/com/axiomalaska/polylineencoder/PolylineEncoder.java:156-169 | a reader consumes exactly the units written for num ≥ 0, returns num and leaves what follows untouched |
| Codec.DecodeEncodeSigned | src/main/java/com/axiomalaska/polylineencoder/PolylineEncoder.java:148-154 | the signed round trip for values within ±2^30 |
| Codec.EncodeSignedInjective | src/main/java/com/axiomalaska/polylineencoder/PolylineEncoder.java:148-154 | distinct values within ±2^30 never share an encoding |
| Codec.DecodeEncodeAll | src/main/java/com/axiomalaska/polylineencoder/PolylineEncoder.java:156-169 | a concatenation of encodings of non-negative values reads back as those values, in order |
| Codec.EncodeZero | src/main/java/com/axiomalaska/polylineencoder/PolylineEncoder.java:165-166 | `encodeNumber(0)` is `"?"` |
| Codec.EncodeSignedOnes | src/main/java/com/axiomalaska/polylineencoder/PolylineEncoder.java:148-154 | -1 and 1 encode as the distinct single units `'@'` and `'A'` |
| Codec.SignedOverflowCollides | src/main/java/com/axiomalaska/polylineencoder/PolylineEncoder.java:149 | at 2^30 the shift overflows and the encoding equals that of 0, so the ±2^30 bound is needed |
| EncoderSettings.ZoomLevelBreaks | src/main/java/com/axiomalaska/polylineencoder/PolylineEncoderSettings.java:22-28 | the table has numLevels entries, and entry i is verySmall·zoomFactor^(numLevels-i-1) |
| EncoderSettings.NewSettings | src/main/java/com/axiomalaska/polylineencoder/PolylineEncoderSettings.java:10-28 | succeeds iff numLevels ≥ 0 (otherwise `NegativeArraySize`), keeps the four arguments, and stores the table they determine |
| EncoderSettings.DefaultSettings | src/main/java/com/axiomalaska/polylineencoder/PolylineEncoderSettings.java:4-20 | the defaults are 18 levels, zoom factor 2, verySmall 0.00001 and forced endpoints, with a consistent 18-entry table |
| EncoderSettings.SetNumLevels | src/main/java/com/axiomalaska/polylineencoder/PolylineEncoderSettings.java:34-36 | sets numLevels; the other fields and the table are unchanged |
| EncoderSettings.SetZoomFactor | src/main/java/com/axiomalaska/polylineencoder/PolylineEncoderSettings.java:42-44 | sets zoomFactor; the other fields and the table are unchanged |
| EncoderSettings.SetVerySmall | src/main/java/com/axiomalaska/polylineencoder/PolylineEncoderSettings.java:50-52 | sets verySmall; the other fields and the table are unchanged |
| EncoderSettings.SetForceEndpoints | src/main/java/com/axiomalaska/polylineencoder/PolylineEncoderSettings.java:58-60 | sets forceEndpoints; the other fields and the table are unchanged |
| EncoderSettings.SetZoomLevelBreaks | src/main/java/com/axiomalaska/polylineencoder/PolylineEncoderSettings.java:66-68 | replaces only the table; the settings stay consistent iff the new table is the one the fields determine |
| EncoderSettings.WithVerySmall | src/main/java/com/axiomalaska/polylineencoder/PolylineEncoderSettings.java:50-52 | corrected setter: sets verySmall and rebuilds a consistent table, keeping the other fields |
| EncoderSettings.BreaksDescend | src/main/java/com/axiomalaska/polylineencoder/PolylineEncoderSettings.java:25-27 | with zoomFactor > 1 and verySmall > 0 the table strictly decreases, and its last entry is verySmall |
| EncoderSettings.LastBreakIsVerySmall | src/main/java/com/axiomalaska/polylineencoder/PolylineEncoderSettings.java:25-27 | the last entry of any consistent non-empty table is verySmall |
| EncoderSettings.SetNumLevelsStales | src/main/java/com/axiomalaska/polylineencoder/PolylineEncoderSettings.java:34-36 | changing numLevels leaves a table that no longer matches the fields |
| EncoderSettings.SetZoomFactorStales | src/main/java/com/axiomalaska/polylineencoder/PolylineEncoderSettings.java:42-44 | changing zoomFactor, with two or more levels and verySmall ≠ 0, leaves a table that no longer matches the fields |
| EncoderSettings.SetVerySmallStales | src/main/java/com/axiomalaska/polylineencoder/PolylineEncoderSettings.java:50-52 | changing verySmall, with at least one level, leaves a table that no longer matches the fields |
| EncoderSettings.SetForceEndpointsKeepsTable | src/main/java/com/axiomalaska/polylineencoder/PolylineEncoderSettings.java:58-60 | forceEndpoints plays no part in whether the table matches |
| Significance.KeptFrom | src/main/java/com/axiomalaska/polylineencoder/PolylineEncoder.java:237-238 | lists only points that `createEncodings` writes (non-zero entry, or first, or last), strictly ascending |
| Significance.KeptFromComplete | src/main/java/com/axiomalaska/polylineencoder/PolylineEncoder.java:237-238 | every written point from i on is listed |
| Significance.NonZeroFrom | src/main/java/com/axiomalaska/polylineencoder/PolylineEncoder.java:198-199 | lists only indices in the range with a non-zero entry, strictly ascending |
| Significance.NonZeroFromComplete | src/main/java/com/axiomalaska/polylineencoder/PolylineEncoder.java:198-199 | every non-zero index in the range is listed |
| Significance.KeptIsEndpointsAndInterior | src/main/java/com/axiomalaska/polylineencoder/PolylineEncoder.java:237-238 | the written points are the first point, the non-zero interior points and the last point; a one-point line writes its point once |
| Levels.ScanBreaks | src/main/java/com/axiomalaska/polylineencoder/PolylineEncoder.java:223-225 | stops at the first index whose break is at most d; it reads past the end (`IndexOutOfBounds`) exactly when every remaining break exceeds d |
| Levels.ComputeLevel | src/main/java/com/axiomalaska/polylineencoder/PolylineEncoder.java:220-229 | 0 when d ≤ verySmall; otherwise the least level whose break is at most d, and it fails iff every break exceeds d |
| Levels.ComputeLevelInBounds | src/main/java/com/axiomalaska/polylineencoder/PolylineEncoder.java:220-229 | with a consistent table of at least one level, the level always lies in 0..numLevels-1 |
| Levels.EmptyTableOverruns | src/main/java/com/axiomalaska/polylineencoder/PolylineEncoder.java:222-225 | with numLevels 0, which the constructor accepts, every distance above verySmall reads index 0 of an empty table |
| Levels.SingleLevelInBounds | src/main/java/com/axiomalaska/polylineencoder/PolylineEncoder.java:220-229 | a one-level table maps every distance to level 0 |
| Levels.ComputeLevelAntitone | src/main/java/com/axiomalaska/polylineencoder/PolylineEncoder.java:220-229 | above verySmall, a larger distance gets a level no larger |
| Levels.ComputeLevelBand | src/main/java/com/axiomalaska/polylineencoder/PolylineEncoder.java:220-229 | with a strictly descending table, the level is the band containing d: breaks[lev] ≤ d < breaks[lev-1] |
| Levels.LevelCode | src/main/java/com/axiomalaska/polylineencoder/PolylineEncoder.java:200 | for a level below numLevels the code `numLevels - lev - 1` does not wrap: it lies in 0..numLevels-1 and adds to lev to give numLevels-1 |
| Levels.Code | src/main/java/com/axiomalaska/polylineencoder/PolylineEncoder.java:200 | under well-formed settings an interior code `numLevels - computeLevel(d) - 1` lies in 0..numLevels-1 |
| Levels.CodesAt | src/main/java/com/axiomalaska/polylineencoder/PolylineEncoder.java:198-202 | one code per listed index, the k-th being that point's code |
| Levels.EndpointCode | src/main/java/com/axiomalaska/polylineencoder/PolylineEncoder.java:191-195 | it can fail only when endpoints are not forced, and then only with the table overrun |
| Levels.InteriorLevels | src/main/java/com/axiomalaska/polylineencoder/PolylineEncoder.java:198-202 | a failure of the middle-points loop is always the table overrun |
| Levels.EncodeLevels | src/main/java/com/axiomalaska/polylineencoder/PolylineEncoder.java:176-212 | a failure of `encodeLevels` is always the table overrun |
| Levels.InteriorLevelsEncodeCodes | src/main/java/com/axiomalaska/polylineencoder/PolylineEncoder.java:198-202 | the middle-points loop writes the codes of the non-zero interior points, in order |
| Levels.EncodeLevelsDecodes | src/main/java/com/axiomalaska/polylineencoder/PolylineEncoder.java:176-212 | under well-formed settings it succeeds and reads back as: endpoint code, one code per non-zero interior point, endpoint code (numLevels-1 when forced, else the code of absMaxDist) |
| Levels.LevelCountMatchesPoints | src/main/java/com/axiomalaska/polylineencoder/PolylineEncoder.java:176-212 | for n ≥ 2 there are as many level codes as written points; for n = 1 there are two codes for one point |
| Levels.StaleThresholdOverruns | src/main/java/com/axiomalaska/polylineencoder/PolylineEncoder.java:222-225 | after lowering verySmall without rebuilding the table, a distance between the new and old threshold reads past the table |
| Levels.StaleVerySmallOverruns | src/main/java/com/axiomalaska/polylineencoder/PolylineEncoderSettings.java:50-52 | on the defaults, `setVerySmall(0.000001)` followed by the level of any distance between 0.000001 and 0.00001 (0.000005, say) reads index 18 of an 18-entry table |
| Levels.WithVerySmallInBounds | src/main/java/com/axiomalaska/polylineencoder/PolylineEncoderSettings.java:50-52 | with the corrected setter, every level lies in 0..numLevels-1 |
| Simplifier.ScanSpan | src/main/java/com/axiomalaska/polylineencoder/PolylineEncoder.java:91-104 | maxDist bounds every interior distance; when positive, maxLoc is the first index that attains it (strict `>`), otherwise maxLoc is unchanged; absMaxDist becomes the larger of itself and maxDist; maxDist and the positive maxLoc are those of the reference `SpanMax` |
| Simplifier.PopSpan | src/main/java/com/axiomalaska/polylineencoder/PolylineEncoder.java:87-111 | one pass keeps the loop invariant and leaves what the recursion still has to do, applied to the new state, equal to before; the interior count drops (split) or the stack shrinks (discard), so the loop terminates |
| Simplifier.Simplify | src/main/java/com/axiomalaska/polylineencoder/PolylineEncoder.java:83-113 | the array and absMaxDist equal the recursive reference `DouglasPeucker.Simplified`; between two consecutive retained points every point lies within verySmall of their chord; n entries, all 0 with absMaxDist 0 for n ≤ 2; both endpoints 0; each non-zero entry exceeds verySmall and is the first maximum of the span it was chosen in; absMaxDist bounds every entry and every distance from the chord of the first and last points |
| DouglasPeucker.MaxFrom | src/main/java/com/axiomalaska/polylineencoder/PolylineEncoder.java:91-104 | the largest positive distance among the interior points from i on, with the first index attaining it, or 0 when none is positive |
| DouglasPeucker.SpanMax | src/main/java/com/axiomalaska/polylineencoder/PolylineEncoder.java:91-104 | the largest interior distance of a span (0 when none is positive), bounding every interior distance, and when positive its first maximum |
| DouglasPeucker.SpanMaxUnique | src/main/java/com/axiomalaska/polylineencoder/PolylineEncoder.java:91-104 | any maximum that bounds every interior distance and, when positive, is attained first at maxLoc is the one `SpanMax` gives |
| DouglasPeucker.Refine | src/main/java/com/axiomalaska/polylineencoder/PolylineEncoder.java:87-111 | the recursion over one span writes an array of the same length; `RefineFrame` and `RefineTolerance` state what it writes |
| DouglasPeucker.Simplified | src/main/java/com/axiomalaska/polylineencoder/PolylineEncoder.java:78-113 | one entry per point: all zero for two points or fewer, else the whole line refined |
| DouglasPeucker.SplitFold | src/main/java/com/axiomalaska/polylineencoder/PolylineEncoder.java:105-111 | recording a span's first maximum and pushing its two halves leaves the final result of the recursion unchanged |
| DouglasPeucker.DiscardFold | src/main/java/com/axiomalaska/polylineencoder/PolylineEncoder.java:105 | dropping a span whose maximum is at most verySmall leaves the final result of the recursion unchanged |
| DouglasPeucker.RefineFrame | src/main/java/com/axiomalaska/polylineencoder/PolylineEncoder.java:106-110 | simplifying a span writes only indices strictly inside it |
| DouglasPeucker.RefineTolerance | src/main/java/com/axiomalaska/polylineencoder/PolylineEncoder.java:87-111 | after a span with nothing recorded inside is simplified, every point between two consecutive kept indices lies within verySmall of their chord |
| DouglasPeucker.SimplifiedTolerance | src/main/java/com/axiomalaska/polylineencoder/PolylineEncoder.java:83-113 | between any two consecutive retained points of the result, every point lies within verySmall of their chord |
| SpanInvariant.SplitStep | src/main/java/com/axiomalaska/polylineencoder/PolylineEncoder.java:105-111 | recording the maximum and pushing both halves keeps the invariant |
| SpanInvariant.SplitStack | src/main/java/com/axiomalaska/polylineencoder/PolylineEncoder.java:106-110 | the chosen index was still 0, and the stack with both halves stays valid, disjoint and zero on pending interiors |
| SpanInvariant.SplitRecords | src/main/java/com/axiomalaska/polylineencoder/PolylineEncoder.java:106 | writing the first maximum at an unwritten index keeps the record of maxima and the write-once order |
| SpanInvariant.DiscardStep | src/main/java/com/axiomalaska/polylineencoder/PolylineEncoder.java:88-105 | dropping a span whose maximum is at most verySmall keeps the invariant |
| SpanInvariant.DominatesExtend | src/main/java/com/axiomalaska/polylineencoder/PolylineEncoder.java:100-102 | the running maximum still bounds every distance examined once a span is scanned |
| SpanInvariant.DominatesFirst | src/main/java/com/axiomalaska/polylineencoder/PolylineEncoder.java:84-85 | since the whole line is examined first, absMaxDist bounds every interior distance from the chord of the first and last points |
| SpanInvariant.PushTwo | src/main/java/com/axiomalaska/polylineencoder/PolylineEncoder.java:107-110 | replacing a span by its two halves at an interior index lowers the interior count by one |
| UnsupportedGeometry.ArrayToString | src/main/java/com/axiomalaska/polylineencoder/UnsupportedGeometryTypeException.java:26-39 | null iff the array or the separator is null; otherwise the elements joined by the separator, in order; "" for an empty array and the element itself for one element |
| UnsupportedGeometry.ArrayToStringComma | src/main/java/com/axiomalaska/polylineencoder/UnsupportedGeometryTypeException.java:22-24 | null iff the array is null; otherwise the join with ", " |
| UnsupportedGeometry.AppendRest | src/main/java/com/axiomalaska/polylineencoder/UnsupportedGeometryTypeException.java:33-36 | the loop only appends to the buffer: what was there stays as a prefix; its content is stated by `AppendRestIsJoin` |
| UnsupportedGeometry.AppendRestIsJoin | src/main/java/com/axiomalaska/polylineencoder/UnsupportedGeometryTypeException.java:31-37 | the append loop builds `a[0] + sep + a[1] + … + a[k-1]` |
| UnsupportedGeometry.JoinLength | src/main/java/com/axiomalaska/polylineencoder/UnsupportedGeometryTypeException.java:31-37 | a join of k items holds their characters and k-1 separators |
| UnsupportedGeometry.JoinSplit | src/main/java/com/axiomalaska/polylineencoder/UnsupportedGeometryTypeException.java:31-37 | items before and after any cut, joined separately, meet at one separator, so order is preserved |
| UnsupportedGeometry.Message | src/main/java/com/axiomalaska/polylineencoder/UnsupportedGeometryTypeException.java:18-20 | "Geometry type " + type + " not supported. Expected one of the following: " + the types joined by ", " ("null" for a null list) |
| UnsupportedGeometry.EncoderMessage | src/main/java/com/axiomalaska/polylineencoder/PolylineEncoder.java:332 | the encoder's message ends "Expected one of the following: LINESTRING, POLYGON" |
| PolylineEncoder.GetLineToEncode | src/main/java/com/axiomalaska/polylineencoder/PolylineEncoder.java:325-335 | succeeds iff the geometry is a line string or a polygon; returns the line itself or the exterior ring; otherwise fails with the exact exception message |
| PolylineEncoder.StridedIndices | src/main/java/com/axiomalaska/polylineencoder/PolylineEncoder.java:301 | the k-th visited index is i + k·step, and the next would be at or past n |
| PolylineEncoder.PointPair | src/main/java/com/axiomalaska/polylineencoder/PolylineEncoder.java:244-251 | the two signed numbers written for one point take at least two units; when both deltas are within ±2^30 every unit is in 63..126; `PairDecodes` reads it back |
| PolylineEncoder.CreateEncodingsFrom | src/main/java/com/axiomalaska/polylineencoder/PolylineEncoder.java:237-254 | the loop from i on writes nothing exactly when no point remains, and at least one pair otherwise, since the last point is always written; `CreateEncodingsFromIsPointsAt` states what it writes |
| PolylineEncoder.CreateEncodings | src/main/java/com/axiomalaska/polylineencoder/PolylineEncoder.java:231-256 | empty exactly for an empty line, at least one pair otherwise; `CreateEncodingsDecodes` states the read-back |
| PolylineEncoder.PointsAtDecode | src/main/java/com/axiomalaska/polylineencoder/PolylineEncoder.java:244-251 | for lines within ±2^29 and a base point within ±2^29, the delta pairs of any sequence of points read back, by prefix sums, as those points, latitude first |
| PolylineEncoder.PairDecodes | src/main/java/com/axiomalaska/polylineencoder/PolylineEncoder.java:244-251 | for a point and a base point within ±2^29, one (Δlat, Δlng) pair in front of decodable text reads back as that point, then the rest |
| PolylineEncoder.CreateEncodingsFromIsPointsAt | src/main/java/com/axiomalaska/polylineencoder/PolylineEncoder.java:237-254 | the `createEncodings` loop writes the pairs of exactly the retained points, in input order |
| PolylineEncoder.CreateEncodingsDecodes | src/main/java/com/axiomalaska/polylineencoder/PolylineEncoder.java:231-256 | for lines within ±2^29, the points string reads back as exactly the retained points, in order, with scaled coordinates restored |
| PolylineEncoder.EndpointsDecode | src/main/java/com/axiomalaska/polylineencoder/PolylineEncoder.java:238 | for non-empty lines within ±2^29, the first and last points are always written, first and last |
| PolylineEncoder.UnselectedMiddleDropped | src/test/java/com/axiomalaska/polylineEncoder/PolylineEncoderTest.java:30-34 | for three points with nothing selected, such as the collinear fixture, only the two endpoints are written |
| PolylineEncoder.IndexTolerance | src/main/java/com/axiomalaska/polylineencoder/PolylineEncoder.java:83-113 | with distances given by index, between two consecutive retained points every point is within verySmall of their chord |
| PolylineEncoder.SimplifyLine | src/main/java/com/axiomalaska/polylineencoder/PolylineEncoder.java:76-113 | the simplification of `encode` on the line's indices equals the reference, keeps the endpoints at 0, records only entries above verySmall and keeps every gap within tolerance |
| PolylineEncoder.WriteEncoding | src/main/java/com/axiomalaska/polylineencoder/PolylineEncoder.java:115-123 | under well-formed settings it succeeds; any failure is the table overrun; for lines within ±2^29 the points read back as the retained points; under well-formed settings the levels read back as the expected codes; under both, for two or more points, the two strings hold equal counts |
| PolylineEncoder.Encode | src/main/java/com/axiomalaska/polylineencoder/PolylineEncoder.java:74-124 | fails with the geometry message for other geometries; succeeds under well-formed settings; any other failure is the table overrun; the significance array and absMaxDist are those of the recursive reference on the line's indices, so every gap between retained points is within verySmall; for lines within ±2^29 the points read back as the retained points; under well-formed settings the levels read back as the expected codes, whose endpoint code follows absMaxDist when endpoints are not forced; under both, with at least two points, the two strings have equal counts |
| PolylineEncoder.EncodeDefault | src/main/java/com/axiomalaska/polylineencoder/PolylineEncoder.java:63-65 | with default settings it succeeds iff the geometry is supported; the significance array and absMaxDist are those of the reference; the points read back as the retained points (lines within ±2^29) and the levels as the expected codes of the defaults; for two or more points the two strings hold equal counts |
| PolylineEncoder.DumbPoints | src/main/java/com/axiomalaska/polylineencoder/PolylineEncoder.java:301-313 | the points half of the loop from i on writes nothing exactly when i is past the end, and at least one pair otherwise; `DumbPointsIsPointsAt` states what it writes |
| PolylineEncoder.DumbLevels | src/main/java/com/axiomalaska/polylineencoder/PolylineEncoder.java:301-314 | the levels half writes nothing exactly when i is past the end; `DumbLevelsCopies` states what it writes |
| PolylineEncoder.DumbPointsIsPointsAt | src/main/java/com/axiomalaska/polylineencoder/PolylineEncoder.java:301-313 | the points half of the loop writes the pairs of the points at i, i+step, … |
| PolylineEncoder.DumbLevelsCopies | src/main/java/com/axiomalaska/polylineencoder/PolylineEncoder.java:301-314 | the levels half writes `encodeNumber(level)` once per visited point |
| PolylineEncoder.DumbPointsDecode | src/main/java/com/axiomalaska/polylineencoder/PolylineEncoder.java:301-313 | for lines within ±2^29, the points string of the dump mode reads back as the points at 0, step, 2·step, … |
| PolylineEncoder.DumbLevelsDecode | src/main/java/com/axiomalaska/polylineencoder/PolylineEncoder.java:301-314 | the levels string reads back as one copy of a non-negative level per visited point |
| PolylineEncoder.StridedByOne | src/main/java/com/axiomalaska/polylineencoder/PolylineEncoder.java:301 | with step 1 the loop visits every index from i on, in order |
| PolylineEncoder.DumbEncode | src/main/java/com/axiomalaska/polylineencoder/PolylineEncoder.java:292-322 | succeeds iff the geometry is supported; otherwise fails with the error `getLineToEncode` raises |
| PolylineEncoder.DumbEncodeDecodes | src/main/java/com/axiomalaska/polylineencoder/PolylineEncoder.java:292-322 | for lines within ±2^29, writes the points at 0, step, 2·step, … below n (⌈n/step⌉ of them), and a non-negative level once per point |
| PolylineEncoder.DumbEncodeDefault | src/main/java/com/axiomalaska/polylineencoder/PolylineEncoder.java:274-277 | succeeds iff the geometry is supported |
| PolylineEncoder.DumbEncodeDefaultDecodes | src/main/java/com/axiomalaska/polylineencoder/PolylineEncoder.java:274-277 | for lines within ±2^29, writes every point, in order, each with level code 17 (numLevels - 1 of the defaults) |

## Left out

- The point-to-segment distance (`distance`, JTS `DistanceOp`) is a caller-supplied function. `Encode` takes it over point indices, `dist(i, lo, hi)`, standing for the distance between the unquantised points. No property depends on its values.
- `floor1e5` is left out. The points `createEncodings` and `dumbEncode` write enter the model already scaled by 10^5 and floored to `int`, because the double multiplication and floor belong to IEEE floating point.
- `double` arithmetic and comparisons are exact `real`s, so there is no NaN and no rounding. `Math.pow` in `initZoomLevelBreaks` is the exact power `Pow`.
- The WKT entry points are not modelled; they only parse text with JTS. These are `encode(String)`, `encode(String, int)` and `dumbEncodeFromWkt`, along with `WktUtil`. `encode(Geometry)` is `EncodeDefault`.
- `Reprojector` is not part of this model, because it is coordinate-system lookups in a foreign library.
- `EncodedPolyline` is not part of this model beyond a pair of strings.
- The unused `validDists` list and `ok` local of `encodeLevels` are dead code and are not modelled.
- `encodeLevels` computes the endpoint code twice from the same inputs. The model computes it once and writes it twice.
- The `(String)`, `(Throwable)` and `(String, Throwable)` exception constructors are left out, because they only pass their arguments to `Exception`.
- Geometry dispatch compares the upper-cased `getGeometryType()` names. The model uses the constructors `LineString`, `Polygon` and `OtherGeometry(type)` instead. A JTS `LinearRing`, `Point` or multi-geometry reports another name and is an `OtherGeometry`.
- `setZoomLevelBreaks(null)` is not modelled: the table is a sequence, never null. In the source a null table makes `computeLevel` throw `NullPointerException` at its first read (PolylineEncoder.java:223) whenever a distance exceeds verySmall.
- `getZoomLevelBreaks` hands out the settings' own array, so a caller can change the table in place. The model's settings are values, and such a change is modelled only as `SetZoomLevelBreaks` with the changed table.
- The geometry type is a constructor, not a name. An `OtherGeometry(type)` whose name upper-cases to `LINESTRING` or `POLYGON` stands for no JTS geometry, since the source would dispatch such a geometry as a line string or polygon; the model does not exclude that value.
- Simplifier.Simplify: requires verySmall ≥ 0, which the source does not check. `DouglasPeucker.Refine` and `DouglasPeucker.Simplified` carry the same requirement. With a negative threshold, a span whose distances are all 0 is split at a `maxLoc` left over from an earlier span. That point can lie outside the span, and the loop need not end. Encoding under a negative threshold is not modelled.
- PolylineEncoder.Encode: requires verySmall ≥ 0, for the same reason.
- PolylineEncoder.DumbEncode: requires step ≥ 1, which the source does not check. A step of 0 repeats index 0 forever, and a negative step reads index `step`, which throws. The overflow of `i += step` for a step near the `int` maximum is also not modelled.
- PolylineEncoder.DumbEncodeDecodes: the read-back is stated only for lines whose scaled coordinates lie within ±2^29 (`SafeLine`). Beyond that a delta can exceed ±2^30, and `n << 1` overflows (see `Codec.SignedOverflowCollides`). Real longitudes and latitudes scaled by 10^5 lie far inside the bound.
- PolylineEncoder.CreateEncodingsDecodes: stated only for `SafeLine` lines, for the same reason.
- PolylineEncoder.Encode: the points read-back is stated only for `SafeLine` lines, for the same reason. The level read-back is stated for well-formed settings, a consistent table with at least one level. Under other settings only the failure kind is stated.
- PolylineEncoder.PointPair: its own contract gives only the length and the unit range; the read-back is `PolylineEncoder.PairDecodes`.
- PolylineEncoder.CreateEncodingsFrom: its own contract gives only when the output is empty; what it writes is `PolylineEncoder.CreateEncodingsFromIsPointsAt`.
- PolylineEncoder.CreateEncodings: its own contract gives only when the output is empty; the read-back is `PolylineEncoder.CreateEncodingsDecodes`.
- PolylineEncoder.DumbPoints: its own contract gives only when the output is empty; what it writes is `PolylineEncoder.DumbPointsIsPointsAt`.
- PolylineEncoder.DumbLevels: its own contract gives only when the output is empty; what it writes is `PolylineEncoder.DumbLevelsCopies`.
- UnsupportedGeometry.AppendRest: its own contract gives only that the buffer is extended; the content is `UnsupportedGeometry.AppendRestIsJoin`.
- Codec.EncodeNumber: its own contract gives only the unit range. The well-formedness of the continuation bits and the recovered value are stated by `Codec.EncodeNumberIsChunk`.
- `computeLevel` overruns its table when the distance exceeds verySmall but every break exceeds the distance, because the loop advances while `d < breaks[lev]`. With a consistent table the last break equals verySmall, so the overrun needs an empty table (`Levels.EmptyTableOverruns`) or a stale one (`Levels.StaleThresholdOverruns`).

## Findings

| source | as written | input that shows it | evidently intended | confidence | as-written member | corrected member |
|---|---|---|---|---|---|---|
| src/main/java/com/axiomalaska/polylineencoder/PolylineEncoderSettings.java:50-52 | `setVerySmall` changes the threshold but keeps the table built from the old one, whose last entry is the old threshold | default settings, `setVerySmall(0.000001)`, then a line whose chosen interior point is at distance 0.000005: `computeLevel` reads `zoomLevelBreaks[18]` and throws `ArrayIndexOutOfBoundsException` | the table follows the threshold, as both constructors ensure, so every level lies in 0..numLevels-1 | high; not executed | Levels.StaleVerySmallOverruns | EncoderSettings.WithVerySmall, Levels.WithVerySmallInBounds |

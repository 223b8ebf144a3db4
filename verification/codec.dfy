/** The variable-length integer text codec of the Google encoded polyline
    format: `encodeNumber` and `encodeSignedNumber`, together with the
    decoder that the format defines, used here as the reference against
    which the encoder is proved. */
module Codec {
  import opened JavaInt
  import opened Outcome

  /** One UTF-16 code unit, the element of a Java `String`. */
  type CodeUnit = x: int | 0 <= x < 0x1_0000

  /** The text the encoder appends to its `StringBuffer`s. */
  type Text = seq<CodeUnit>

  /** Every 5-bit group is offset by 63 (`'?'`) to make it printable. */
  const Offset: int := 63

  /** The bit of a 6-bit group that says another group follows. */
  const Continuation: int := 0x20

  /** The exclusive bound of the signed range: the least positive value
      whose `num << 1` overflows a Java `int`. */
  const SignedBound: int := 0x4000_0000

  /** A value `encodeSignedNumber` maps without 32-bit overflow. */
  predicate InSignedRange(n: int) {
    -SignedBound <= n < SignedBound
  }

  // ---------------------------------------------------------------------
  // Encoding

  /** The zig-zag step of `encodeSignedNumber`: `num << 1` in 32-bit
      arithmetic, bitwise-complemented when `num` is negative. Within the
      signed range this is the usual interleaving of signs, and its image
      is non-negative. */
  function ZigZag(num: Int32): (r: Int32)
    ensures InSignedRange(num) ==> 0 <= r && (if num >= 0 then r == 2 * num else r == -2 * num - 1)
  {
    var shifted := Wrap(num * 2);
    if num < 0 then -1 - shifted else shifted
  }

  /** `encodeNumber`: 5-bit groups, least significant first, each with the
      continuation bit set while at least 32 remains, then a final group.
      For `num >= 32` the Java `num & 0x1f` is `num % 32` and `num >>= 5` is
      `num / 32`. A negative `num` skips the loop and becomes the single
      code unit `(char) (num + 63)`, i.e. its low 16 bits. */
  function EncodeNumber(num: Int32): (r: Text)
    ensures |r| >= 1
    ensures 0 <= num ==> forall k :: 0 <= k < |r| ==> Offset <= r[k] <= Offset + 63
    decreases if num < 0 then 0 else num
  {
    if num >= Continuation then
      [(Continuation + num % 32) + Offset] + EncodeNumber(num / 32)
    else
      [(num + Offset) % 0x1_0000]
  }

  /** `encodeSignedNumber`: the zig-zag image of `num`, then `encodeNumber`. */
  function EncodeSignedNumber(num: Int32): (r: Text)
    ensures InSignedRange(num) ==> IsChunk(r) && UnZigZag(ChunkValue(r)) == num
  {
    ZigZagInverse(num);
    if InSignedRange(num) then EncodeNumberIsChunk(ZigZag(num)); EncodeNumber(ZigZag(num))
    else EncodeNumber(ZigZag(num))
  }

  /** The concatenated encodings of a sequence of non-negative values. */
  function EncodeAll(xs: seq<Int32>): Text {
    if |xs| == 0 then [] else EncodeNumber(xs[0]) + EncodeAll(xs[1..])
  }

  // ---------------------------------------------------------------------
  // The shape of one encoded value

  /** A well-formed encoded value: all units in 63..126, every unit but the
      last carries the continuation bit (>= 95), the last does not (<= 94). */
  predicate IsChunk(s: Text) {
    && |s| >= 1
    && (forall k :: 0 <= k < |s| ==> Offset <= s[k] <= Offset + 63)
    && (forall k :: 0 <= k < |s| - 1 ==> s[k] >= Offset + Continuation)
    && s[|s| - 1] < Offset + Continuation
  }

  /** A chunk without a trailing zero group: when it has more than one
      unit, the last is not `'?'`. `encodeNumber` writes a final group only
      while something is left, so its output has this shape. */
  predicate Canonical(s: Text) {
    |s| > 1 ==> s[|s| - 1] != Offset
  }

  /** The number a chunk denotes: the sum of `((c - 63) & 31) * 32^k`. */
  function ChunkValue(s: Text): int {
    if |s| == 0 then 0 else (s[0] - Offset) % 32 + 32 * ChunkValue(s[1..])
  }

  // ---------------------------------------------------------------------
  // Decoding (the format's reader, not part of the Java encoder)

  /** Reads one unsigned value from the front of `s`, returning the rest. */
  function DecodeNumber(s: Text): (r: Option<(int, Text)>)
    ensures r.Some? ==> |r.value.1| < |s|
  {
    if |s| == 0 || s[0] < Offset || s[0] > Offset + 63 then None
    else if s[0] - Offset >= Continuation then
      match DecodeNumber(s[1..])
      case None => None
      case Some((v, rest)) => Some((s[0] - Offset - Continuation + 32 * v, rest))
    else Some((s[0] - Offset, s[1..]))
  }

  /** The inverse of the zig-zag map: even codes are non-negative values. */
  function UnZigZag(u: int): int {
    if u % 2 == 0 then u / 2 else -((u + 1) / 2)
  }

  /** Reads one signed value from the front of `s`. */
  function DecodeSigned(s: Text): (r: Option<(int, Text)>)
    ensures r.Some? ==> |r.value.1| < |s|
  {
    match DecodeNumber(s)
    case None => None
    case Some((u, rest)) => Some((UnZigZag(u), rest))
  }

  /** Reads unsigned values until `s` is used up. */
  function DecodeAll(s: Text): Option<seq<int>>
    decreases |s|
  {
    if |s| == 0 then Some([])
    else match DecodeNumber(s)
      case None => None
      case Some((v, rest)) =>
        match DecodeAll(rest)
        case None => None
        case Some(vs) => Some([v] + vs)
  }

  /** A decoded point, latitude first as the format writes it. */
  datatype LatLng = LatLng(lat: int, lng: int)

  /** Reads (Δlat, Δlng) pairs and sums them from the running position. */
  function DecodePairs(s: Text, lat: int, lng: int): Option<seq<LatLng>>
    decreases |s|
  {
    if |s| == 0 then Some([])
    else match DecodeSigned(s)
      case None => None
      case Some((dlat, r1)) =>
        match DecodeSigned(r1)
        case None => None
        case Some((dlng, r2)) =>
          match DecodePairs(r2, lat + dlat, lng + dlng)
          case None => None
          case Some(ps) => Some([LatLng(lat + dlat, lng + dlng)] + ps)
  }

  /** Decodes a whole `points` string, starting from (0, 0). */
  function DecodePolyline(s: Text): Option<seq<LatLng>> {
    DecodePairs(s, 0, 0)
  }

  // ---------------------------------------------------------------------
  // Properties

  lemma ZigZagInverse(num: Int32)
    ensures InSignedRange(num) ==> UnZigZag(ZigZag(num)) == num
  {
  }

  /** Distinct values in the signed range never share an encoding. */
  lemma EncodeSignedInjective(a: Int32, b: Int32)
    requires InSignedRange(a) && InSignedRange(b)
    requires EncodeSignedNumber(a) == EncodeSignedNumber(b)
    ensures a == b
  {
  }

  /** `encodeNumber` of a non-negative value is a well-formed chunk that
      denotes the value. */
  lemma {:induction false} EncodeNumberIsChunk(num: Int32)
    requires 0 <= num
    ensures IsChunk(EncodeNumber(num)) && ChunkValue(EncodeNumber(num)) == num
    ensures Canonical(EncodeNumber(num))
    decreases num
  {
    var r := EncodeNumber(num);
    if num >= Continuation {
      var q, m := num / 32, num % 32;
      assert num == 32 * q + m;
      var c: CodeUnit := Continuation + m + Offset;
      var tail := EncodeNumber(q);
      EncodeNumberIsChunk(q);
      assert r == [c] + tail;
      ChunkCons(c, tail);
      assert r[|r| - 1] == tail[|tail| - 1];
      if |tail| == 1 {
        assert tail[0] == q + Offset;
      }
    } else {
      assert r == [num + Offset];
      assert ChunkValue(r) == num % 32 + 32 * ChunkValue([]);
    }
  }

  /** A unit with the continuation bit in front of a chunk is a chunk,
      worth the unit's five bits plus 32 times the rest. */
  lemma ChunkCons(c: CodeUnit, tail: Text)
    requires Offset + Continuation <= c <= Offset + 63 && IsChunk(tail)
    ensures IsChunk([c] + tail)
    ensures ChunkValue([c] + tail) == (c - Offset - Continuation) + 32 * ChunkValue(tail)
  {
    var r := [c] + tail;
    assert r[1..] == tail;
    forall k | 0 <= k < |r|
      ensures Offset <= r[k] <= Offset + 63
    {
      if k > 0 { assert r[k] == tail[k - 1]; }
    }
    forall k | 0 <= k < |r| - 1
      ensures r[k] >= Offset + Continuation
    {
      if k > 0 { assert r[k] == tail[k - 1]; }
    }
    assert r[|r| - 1] == tail[|tail| - 1];
    assert (c - Offset) % 32 == c - Offset - Continuation;
  }

  /** A chunk's value is never negative, and is positive when its last
      group is not zero. */
  lemma {:induction false} ChunkValueSign(s: Text)
    requires IsChunk(s)
    ensures ChunkValue(s) >= 0
    ensures s[|s| - 1] != Offset ==> ChunkValue(s) >= 1
    decreases |s|
  {
    if |s| > 1 {
      var t := s[1..];
      assert IsChunk(t) by {
        forall k | 0 <= k < |t| ensures Offset <= t[k] <= Offset + 63 {
          assert t[k] == s[k + 1];
        }
        forall k | 0 <= k < |t| - 1 ensures t[k] >= Offset + Continuation {
          assert t[k] == s[k + 1];
        }
      }
      assert t[|t| - 1] == s[|s| - 1];
      ChunkValueSign(t);
    } else {
      assert ChunkValue(s) == (s[0] - Offset) % 32 + 32 * ChunkValue(s[1..]);
    }
  }

  /** There is one canonical chunk per value: any well-formed chunk without
      a trailing zero group that denotes `num` is exactly what
      `encodeNumber` writes for it. */
  lemma {:induction false} ChunkUnique(s: Text, num: Int32)
    requires 0 <= num
    requires IsChunk(s) && Canonical(s) && ChunkValue(s) == num
    ensures s == EncodeNumber(num)
    decreases |s|
  {
    var t := s[1..];
    if |s| == 1 {
      assert ChunkValue(s) == (s[0] - Offset) % 32 + 32 * ChunkValue(t);
      assert num == s[0] - Offset;
    } else {
      assert IsChunk(t) by {
        forall k | 0 <= k < |t| ensures Offset <= t[k] <= Offset + 63 {
          assert t[k] == s[k + 1];
        }
        forall k | 0 <= k < |t| - 1 ensures t[k] >= Offset + Continuation {
          assert t[k] == s[k + 1];
        }
      }
      assert t[|t| - 1] == s[|s| - 1];
      ChunkValueSign(t);
      var v := ChunkValue(t);
      assert s[0] >= Offset + Continuation;
      assert num == (s[0] - Offset - Continuation) + 32 * v;
      assert num / 32 == v && num % 32 == s[0] - Offset - Continuation;
      ChunkUnique(t, v);
      assert s == [s[0]] + t;
    }
  }

  /** The signed counterpart: a canonical chunk whose un-zig-zagged value is
      `num` is what `encodeSignedNumber` writes for it. */
  lemma SignedChunkUnique(s: Text, num: Int32)
    requires InSignedRange(num)
    requires IsChunk(s) && Canonical(s) && UnZigZag(ChunkValue(s)) == num
    ensures s == EncodeSignedNumber(num)
  {
    ChunkValueSign(s);
    assert ChunkValue(s) == ZigZag(num);
    ChunkUnique(s, ZigZag(num));
  }

  /** Reading back what `encodeNumber` wrote returns the value and leaves
      whatever followed it untouched. */
  lemma {:induction false} DecodeEncodeNumber(num: Int32, rest: Text)
    requires 0 <= num
    ensures DecodeNumber(EncodeNumber(num) + rest) == Some((num, rest))
    decreases num
  {
    var s := EncodeNumber(num) + rest;
    if num >= Continuation {
      var q, m := num / 32, num % 32;
      assert num == 32 * q + m;
      var c: CodeUnit := Continuation + m + Offset;
      var tail := EncodeNumber(q) + rest;
      assert EncodeNumber(num) == [c] + EncodeNumber(q);
      assert s == [c] + tail;
      DecodeEncodeNumber(q, rest);
      assert DecodeNumber(tail) == Some((q, rest));
      assert c - Offset - Continuation + 32 * q == num;
      assert DecodeNumber(s) == Some((num, rest));
    } else {
      assert s[0] == num + Offset && s[1..] == rest;
      assert DecodeNumber(s) == Some((num, rest));
    }
  }

  /** The signed round trip, for values the zig-zag step does not overflow. */
  lemma DecodeEncodeSigned(num: Int32, rest: Text)
    requires InSignedRange(num)
    ensures DecodeSigned(EncodeSignedNumber(num) + rest) == Some((num, rest))
  {
    DecodeEncodeNumber(ZigZag(num), rest);
    ZigZagInverse(num);
  }

  /** A concatenation of encoded non-negative values decodes to the values. */
  lemma {:induction false} DecodeEncodeAll(xs: seq<Int32>)
    requires forall k :: 0 <= k < |xs| ==> 0 <= xs[k]
    ensures DecodeAll(EncodeAll(xs)) == Some(xs)
    decreases |xs|
  {
    if |xs| > 0 {
      DecodeEncodeNumber(xs[0], EncodeAll(xs[1..]));
      DecodeEncodeAll(xs[1..]);
      assert [xs[0]] + xs[1..] == xs;
    }
  }

  /** Encoding a concatenation is concatenating the encodings. */
  lemma {:induction false} EncodeAllAppend(xs: seq<Int32>, ys: seq<Int32>)
    ensures EncodeAll(xs + ys) == EncodeAll(xs) + EncodeAll(ys)
    decreases |xs|
  {
    if |xs| > 0 {
      assert (xs + ys)[1..] == xs[1..] + ys;
      EncodeAllAppend(xs[1..], ys);
    } else {
      assert xs + ys == ys;
    }
  }

  /** `encodeNumber(0)` is the single character `'?'`. */
  lemma EncodeZero()
    ensures EncodeNumber(0) == ['?' as CodeUnit]
  {
  }

  /** `encodeSignedNumber(-1)` and `encodeSignedNumber(1)` are the distinct
      single characters `'@'` and `'A'`. */
  lemma EncodeSignedOnes()
    ensures EncodeSignedNumber(-1) == ['@' as CodeUnit]
    ensures EncodeSignedNumber(1) == ['A' as CodeUnit]
  {
  }

  /** Outside the signed range `num << 1` overflows: 2^30 shifts to the
      `int` minimum, whose single code unit is the same `'?'` that 0 gives. */
  lemma SignedOverflowCollides()
    ensures EncodeSignedNumber(SignedBound) == EncodeSignedNumber(0)
  {
  }
}

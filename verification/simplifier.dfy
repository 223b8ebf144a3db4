module Simplifier {
  import opened Significance
  import opened DouglasPeucker
  import opened SpanInvariant

  /** The inner `for` loop over the interior of `(lo, hi)`. `maxLoc` keeps
      its previous value when no interior distance exceeds 0, as in the
      source, where it is declared once outside the outer loop. */
  method ScanSpan<P>(pts: seq<P>, dist: (P, P, P) -> real, lo: nat, hi: nat, maxLoc0: nat, absMax0: real)
    returns (maxDist: real, maxLoc: nat, absMax: real)
    requires lo < hi < |pts|
    requires absMax0 >= 0.0
    ensures maxDist >= 0.0
    ensures forall j :: lo < j < hi ==> SpanDist(pts, dist, j, lo, hi) <= maxDist
    ensures maxDist > 0.0 ==> FirstMax(pts, dist, lo, hi, maxLoc) && maxDist == SpanDist(pts, dist, maxLoc, lo, hi)
    ensures maxDist == 0.0 ==> maxLoc == maxLoc0
    ensures absMax == (if maxDist > absMax0 then maxDist else absMax0)
    ensures maxDist == SpanMax(pts, dist, lo, hi).0
    ensures maxDist > 0.0 ==> maxLoc == SpanMax(pts, dist, lo, hi).1
  {
    maxDist, maxLoc, absMax := 0.0, maxLoc0, absMax0;
    var i := lo + 1;
    while i < hi
      invariant lo + 1 <= i <= hi
      invariant maxDist >= 0.0
      invariant forall j :: lo < j < i ==> SpanDist(pts, dist, j, lo, hi) <= maxDist
      invariant maxDist > 0.0 ==>
        && lo < maxLoc < i && maxDist == SpanDist(pts, dist, maxLoc, lo, hi)
        && forall j :: lo < j < maxLoc ==> SpanDist(pts, dist, j, lo, hi) < maxDist
      invariant maxDist == 0.0 ==> maxLoc == maxLoc0
      invariant absMax == (if maxDist > absMax0 then maxDist else absMax0)
    {
      var temp := dist(pts[i], pts[lo], pts[hi]);
      if temp > maxDist {
        maxDist := temp;
        maxLoc := i;
        if maxDist > absMax {
          absMax := maxDist;
        }
      }
      i := i + 1;
    }
    SpanMaxUnique(pts, dist, lo, hi, maxDist, maxLoc);
  }

  /** Produces the significance array `dists` (0 for points not selected)
      and `absMaxDist`, the largest distance computed in any span. The
      ghost outputs record, for the proof, the order indices were written
      in, the span each was chosen in, and every span examined. */
  method Simplify<P>(pts: seq<P>, dist: (P, P, P) -> real, verySmall: real)
    returns (dists: seq<real>, absMaxDist: real,
             ghost order: seq<nat>, ghost spanOf: seq<Span>, ghost examined: seq<Span>)
    requires verySmall >= 0.0
    ensures |dists| == |pts|
    ensures |pts| <= 2 ==> absMaxDist == 0.0 && forall i :: 0 <= i < |dists| ==> dists[i] == 0.0
    ensures |pts| >= 1 ==> dists[0] == 0.0 && dists[|pts| - 1] == 0.0
    ensures forall i :: 0 <= i < |dists| && dists[i] != 0.0 ==> dists[i] > verySmall
    ensures Recorded(pts, dist, dists, spanOf, verySmall)
    ensures WriteOrder(dists, order)
    ensures 0.0 <= absMaxDist && forall i :: 0 <= i < |dists| ==> dists[i] <= absMaxDist
    ensures absMaxDist > verySmall ==> exists i :: 0 <= i < |dists| && dists[i] == absMaxDist
    ensures Dominates(pts, dist, examined, absMaxDist)
    ensures |pts| > 2 ==> |examined| >= 1 && examined[0] == (0, |pts| - 1)
    ensures |pts| > 2 ==> forall j :: 0 < j < |pts| - 1 ==> dist(pts[j], pts[0], pts[|pts| - 1]) <= absMaxDist
    ensures dists == Simplified(pts, dist, verySmall).d && absMaxDist == Simplified(pts, dist, verySmall).absMax
    ensures forall a, b :: 0 <= a < b < |pts| && Retained(dists, a) && Retained(dists, b) && Clear(dists, a, b) ==>
      WithinTolerance(pts, dist, verySmall, a, b)
  {
    var n := |pts|;
    var d := Zeros(n);
    absMaxDist := 0.0;
    var maxLoc: nat := 0;
    order, spanOf, examined := [], seq(n, _ => (0, 0)), [];
    ghost var absLoc: nat := 0;
    if n > 2 {
      var stack: seq<Span> := [(0, n - 1)];
      assert stack[..0] == [];
      while |stack| > 0
        invariant Invariant(pts, dist, verySmall, stack, d, spanOf, order, absMaxDist, absLoc, examined)
        invariant RefineStack(pts, dist, verySmall, stack, DpState(d, absMaxDist)) == Simplified(pts, dist, verySmall)
        decreases InteriorSum(stack), |stack|
      {
        stack, d, maxLoc, absMaxDist, spanOf, order, absLoc, examined :=
          PopSpan(pts, dist, verySmall, stack, d, maxLoc, absMaxDist, spanOf, order, absLoc, examined);
      }
    }
    dists := d;
    if n > 2 {
      DominatesFirst(pts, dist, examined, absMaxDist);
    }
    SimplifiedTolerance(pts, dist, verySmall);
  }

  /** One pass of the outer loop: pop the top span, scan it, and either
      record its first maximum and push both halves, or drop it. The
      local array of the source is the sequence `d`. */
  method PopSpan<P>(pts: seq<P>, dist: (P, P, P) -> real, verySmall: real,
                    stack: seq<Span>, d: seq<real>, maxLoc: nat, absMax: real,
                    ghost spanOf: seq<Span>, ghost order: seq<nat>, ghost absLoc: nat, ghost examined: seq<Span>)
    returns (stack': seq<Span>, d': seq<real>, maxLoc': nat, absMax': real,
             ghost spanOf': seq<Span>, ghost order': seq<nat>, ghost absLoc': nat, ghost examined': seq<Span>)
    requires verySmall >= 0.0 && |stack| > 0
    requires Invariant(pts, dist, verySmall, stack, d, spanOf, order, absMax, absLoc, examined)
    ensures Invariant(pts, dist, verySmall, stack', d', spanOf', order', absMax', absLoc', examined')
    ensures RefineStack(pts, dist, verySmall, stack', DpState(d', absMax'))
      == RefineStack(pts, dist, verySmall, stack, DpState(d, absMax))
    ensures InteriorSum(stack') < InteriorSum(stack)
      || (InteriorSum(stack') == InteriorSum(stack) && |stack'| < |stack|)
  {
    var top := stack[|stack| - 1];
    var rest := stack[..|stack| - 1];
    var lo, hi := top.0, top.1;
    var maxDist: real;
    maxDist, maxLoc', absMax' := ScanSpan(pts, dist, lo, hi, maxLoc, absMax);
    assert Scanned(pts, dist, lo, hi, maxDist, maxLoc', absMax, absMax');
    examined' := examined + [(lo, hi)];
    if maxDist > verySmall {
      d' := d[maxLoc' := maxDist];
      order' := order + [maxLoc'];
      spanOf' := spanOf[maxLoc' := (lo, hi)];
      absLoc' := if maxDist > absMax then maxLoc' else absLoc;
      stack' := rest + [(lo, maxLoc'), (maxLoc', hi)];
      SplitStep(pts, dist, verySmall, stack, d, spanOf, order, absMax, absLoc, examined,
                maxDist, maxLoc', absMax', stack', d', spanOf', order', absLoc', examined');
      PushTwo(rest, lo, maxLoc', hi);
      SplitFold(pts, dist, verySmall, stack, DpState(d, absMax), stack', DpState(d', absMax'));
      assert stack == rest + [(lo, hi)];
    } else {
      stack', d', spanOf', order', absLoc' := rest, d, spanOf, order, absLoc;
      DiscardStep(pts, dist, verySmall, stack, d, spanOf, order, absMax, absLoc, examined,
                  maxDist, maxLoc', absMax', stack', examined');
      DiscardFold(pts, dist, verySmall, stack, DpState(d, absMax), DpState(d', absMax'));
      assert InteriorSum(stack) >= InteriorSum(rest) by {
        assert stack[..|stack| - 1] == rest;
      }
    }
  }

}

/** Douglas-Peucker simplification stated as a recursion over spans: the
    reference the stack loop of `encode` is proved equal to, and the
    tolerance guarantee that reference gives. */
module DouglasPeucker {
  import opened Significance

  /** A span `(lo, hi)` of point indices; its interior is lo < i < hi. */
  type Span = (nat, nat)

  /** Distance of point `i` from the chord of span `(lo, hi)`. */
  function SpanDist<P>(pts: seq<P>, dist: (P, P, P) -> real, i: nat, lo: nat, hi: nat): real
    requires i < |pts| && lo < |pts| && hi < |pts|
  {
    dist(pts[i], pts[lo], pts[hi])
  }

  /** `m` is the first interior index of `(lo, hi)` attaining the largest
      distance from its chord. */
  predicate FirstMax<P>(pts: seq<P>, dist: (P, P, P) -> real, lo: nat, hi: nat, m: nat) {
    && lo < m < hi < |pts|
    && (forall j :: lo < j < hi ==> SpanDist(pts, dist, j, lo, hi) <= SpanDist(pts, dist, m, lo, hi))
    && (forall j :: lo < j < m ==> SpanDist(pts, dist, j, lo, hi) < SpanDist(pts, dist, m, lo, hi))
  }

  /** Every span lies inside a line of `n` points and has lo < hi. */
  ghost predicate ValidStack(stack: seq<Span>, n: nat) {
    forall k :: 0 <= k < |stack| ==> stack[k].0 < stack[k].1 < n
  }

  /** What the simplifier accumulates: the significance array and the
      largest distance computed so far. */
  datatype DpState = DpState(d: seq<real>, absMax: real)

  // ---------------------------------------------------------------------
  // The largest distance in a span

  /** The largest positive distance from the chord of `(lo, hi)` among the
      points i <= j < hi, with the first index attaining it; `(0.0, lo)`
      when none is positive. */
  function MaxFrom<P>(pts: seq<P>, dist: (P, P, P) -> real, lo: nat, hi: nat, i: nat): (r: (real, nat))
    requires lo < i && lo < hi < |pts|
    ensures r.0 >= 0.0
    ensures forall j :: i <= j < hi ==> SpanDist(pts, dist, j, lo, hi) <= r.0
    ensures r.0 > 0.0 ==>
      && i <= r.1 < hi && SpanDist(pts, dist, r.1, lo, hi) == r.0
      && forall j :: i <= j < r.1 ==> SpanDist(pts, dist, j, lo, hi) < r.0
    decreases hi - i
  {
    if i >= hi then (0.0, lo)
    else
      var rest := MaxFrom(pts, dist, lo, hi, i + 1);
      var t := SpanDist(pts, dist, i, lo, hi);
      if t > 0.0 && t >= rest.0 then (t, i) else rest
  }

  /** The largest distance over the interior of `(lo, hi)` (0 when none is
      positive) and, when positive, its first maximum. */
  function SpanMax<P>(pts: seq<P>, dist: (P, P, P) -> real, lo: nat, hi: nat): (r: (real, nat))
    requires lo < hi < |pts|
    ensures r.0 >= 0.0
    ensures forall j :: lo < j < hi ==> SpanDist(pts, dist, j, lo, hi) <= r.0
    ensures r.0 > 0.0 ==> FirstMax(pts, dist, lo, hi, r.1) && r.0 == SpanDist(pts, dist, r.1, lo, hi)
  {
    MaxFrom(pts, dist, lo, hi, lo + 1)
  }

  /** A maximum that bounds every interior distance and, when positive,
      is attained first at `maxLoc` is the one `SpanMax` gives. */
  lemma SpanMaxUnique<P>(pts: seq<P>, dist: (P, P, P) -> real, lo: nat, hi: nat, maxDist: real, maxLoc: nat)
    requires lo < hi < |pts|
    requires maxDist >= 0.0 && forall j :: lo < j < hi ==> SpanDist(pts, dist, j, lo, hi) <= maxDist
    requires maxDist > 0.0 ==> FirstMax(pts, dist, lo, hi, maxLoc) && maxDist == SpanDist(pts, dist, maxLoc, lo, hi)
    ensures SpanMax(pts, dist, lo, hi).0 == maxDist
    ensures maxDist > 0.0 ==> SpanMax(pts, dist, lo, hi).1 == maxLoc
  {
    var r := SpanMax(pts, dist, lo, hi);
    if r.0 > 0.0 {
      assert SpanDist(pts, dist, r.1, lo, hi) <= maxDist;
    }
    if maxDist > 0.0 {
      assert SpanDist(pts, dist, maxLoc, lo, hi) <= r.0;
    }
  }

  // ---------------------------------------------------------------------
  // The recursion over spans

  /** Simplifies span `(lo, hi)` of `s`: its largest distance raises the
      running maximum; if it exceeds `verySmall` it is recorded at its
      first maximum `m`, then `(m, hi)` and `(lo, m)` are simplified in
      turn. */
  function Refine<P>(pts: seq<P>, dist: (P, P, P) -> real, verySmall: real, lo: nat, hi: nat, s: DpState): (r: DpState)
    requires verySmall >= 0.0 && lo < hi < |pts| && |s.d| == |pts|
    ensures |r.d| == |pts|
    decreases hi - lo
  {
    var sm := SpanMax(pts, dist, lo, hi);
    var abs := if sm.0 > s.absMax then sm.0 else s.absMax;
    if sm.0 > verySmall then
      var right := Refine(pts, dist, verySmall, sm.1, hi, DpState(s.d[sm.1 := sm.0], abs));
      Refine(pts, dist, verySmall, lo, sm.1, right)
    else
      DpState(s.d, abs)
  }

  function Zeros(n: nat): (r: seq<real>)
    ensures |r| == n && forall i :: 0 <= i < n ==> r[i] == 0.0
  {
    seq(n, _ => 0.0)
  }

  /** The significance array and largest distance for the whole line:
      all zero for two points or fewer, else the whole line refined. */
  function Simplified<P>(pts: seq<P>, dist: (P, P, P) -> real, verySmall: real): (r: DpState)
    requires verySmall >= 0.0
    ensures |r.d| == |pts|
  {
    if |pts| > 2 then Refine(pts, dist, verySmall, 0, |pts| - 1, DpState(Zeros(|pts|), 0.0))
    else DpState(Zeros(|pts|), 0.0)
  }

  /** The state after every span of `stack` has been refined, top first. */
  ghost function RefineStack<P>(pts: seq<P>, dist: (P, P, P) -> real, verySmall: real, stack: seq<Span>, s: DpState): (r: DpState)
    requires verySmall >= 0.0 && ValidStack(stack, |pts|) && |s.d| == |pts|
    ensures |r.d| == |pts|
    decreases |stack|
  {
    if |stack| == 0 then s
    else
      var top := stack[|stack| - 1];
      RefineStack(pts, dist, verySmall, stack[..|stack| - 1], Refine(pts, dist, verySmall, top.0, top.1, s))
  }

  /** Splitting the top span at its first maximum, recording the maximum
      there, leaves the final state unchanged. */
  lemma SplitFold<P>(pts: seq<P>, dist: (P, P, P) -> real, verySmall: real, stack: seq<Span>, s: DpState,
                     st: seq<Span>, s': DpState)
    requires verySmall >= 0.0 && |stack| > 0 && ValidStack(stack, |pts|) && |s.d| == |pts|
    requires var lo, hi := stack[|stack| - 1].0, stack[|stack| - 1].1;
      var sm := SpanMax(pts, dist, lo, hi);
      && sm.0 > verySmall
      && st == stack[..|stack| - 1] + [(lo, sm.1), (sm.1, hi)]
      && s' == DpState(s.d[sm.1 := sm.0], if sm.0 > s.absMax then sm.0 else s.absMax)
    ensures ValidStack(st, |pts|) && |s'.d| == |pts|
    ensures RefineStack(pts, dist, verySmall, st, s') == RefineStack(pts, dist, verySmall, stack, s)
  {
    var lo, hi := stack[|stack| - 1].0, stack[|stack| - 1].1;
    var sm := SpanMax(pts, dist, lo, hi);
    var m := sm.1;
    var rest := stack[..|stack| - 1];
    assert ValidStack(rest, |pts|) by {
      forall k | 0 <= k < |rest| ensures rest[k].0 < rest[k].1 < |pts| { assert rest[k] == stack[k]; }
    }
    assert ValidStack(rest + [(lo, m)], |pts|) by {
      forall k | 0 <= k <= |rest| ensures (rest + [(lo, m)])[k].0 < (rest + [(lo, m)])[k].1 < |pts| {
        if k < |rest| { assert (rest + [(lo, m)])[k] == rest[k]; }
      }
    }
    assert ValidStack(st, |pts|) by {
      forall k | 0 <= k < |st| ensures st[k].0 < st[k].1 < |pts| {
        if k < |rest| { assert st[k] == rest[k]; }
      }
    }
    assert st[..|st| - 1] == rest + [(lo, m)];
    assert (rest + [(lo, m)])[..|rest|] == rest;
    var right := Refine(pts, dist, verySmall, m, hi, s');
    assert RefineStack(pts, dist, verySmall, st, s') == RefineStack(pts, dist, verySmall, rest + [(lo, m)], right);
  }

  /** Dropping the top span when its largest distance is within the
      tolerance leaves the final state unchanged. */
  lemma DiscardFold<P>(pts: seq<P>, dist: (P, P, P) -> real, verySmall: real, stack: seq<Span>, s: DpState,
                       s': DpState)
    requires verySmall >= 0.0 && |stack| > 0 && ValidStack(stack, |pts|) && |s.d| == |pts|
    requires var sm := SpanMax(pts, dist, stack[|stack| - 1].0, stack[|stack| - 1].1);
      && sm.0 <= verySmall
      && s' == DpState(s.d, if sm.0 > s.absMax then sm.0 else s.absMax)
    ensures ValidStack(stack[..|stack| - 1], |pts|) && |s'.d| == |pts|
    ensures RefineStack(pts, dist, verySmall, stack[..|stack| - 1], s') == RefineStack(pts, dist, verySmall, stack, s)
  {
    var rest := stack[..|stack| - 1];
    assert ValidStack(rest, |pts|) by {
      forall k | 0 <= k < |rest| ensures rest[k].0 < rest[k].1 < |pts| { assert rest[k] == stack[k]; }
    }
  }

  // ---------------------------------------------------------------------
  // What the recursion guarantees

  /** Refining `(lo, hi)` writes only its interior. */
  lemma {:induction false} RefineFrame<P>(pts: seq<P>, dist: (P, P, P) -> real, verySmall: real, lo: nat, hi: nat, s: DpState)
    requires verySmall >= 0.0 && lo < hi < |pts| && |s.d| == |pts|
    ensures forall k :: 0 <= k < |pts| && (k <= lo || hi <= k) ==>
      Refine(pts, dist, verySmall, lo, hi, s).d[k] == s.d[k]
    decreases hi - lo
  {
    var sm := SpanMax(pts, dist, lo, hi);
    if sm.0 > verySmall {
      var s' := DpState(s.d[sm.1 := sm.0], if sm.0 > s.absMax then sm.0 else s.absMax);
      RefineFrame(pts, dist, verySmall, sm.1, hi, s');
      RefineFrame(pts, dist, verySmall, lo, sm.1, Refine(pts, dist, verySmall, sm.1, hi, s'));
    }
  }

  /** No entry strictly between `a` and `b` is recorded. */
  predicate Clear(d: seq<real>, a: nat, b: nat) {
    forall j :: a < j < b && j < |d| ==> d[j] == 0.0
  }

  /** Every point strictly between `a` and `b` is within `verySmall` of
      their chord. */
  predicate WithinTolerance<P>(pts: seq<P>, dist: (P, P, P) -> real, verySmall: real, a: nat, b: nat) {
    a < b < |pts| && forall j :: a < j < b ==> SpanDist(pts, dist, j, a, b) <= verySmall
  }

  /** Index `a` is kept within `(lo, hi)`: an end, or a recorded entry. */
  predicate KeptIn(d: seq<real>, lo: nat, hi: nat, a: nat) {
    a == lo || a == hi || (a < |d| && d[a] != 0.0)
  }

  /** Between any two consecutive kept indices of `[lo, hi]` every point is
      within tolerance of their chord. */
  ghost predicate TolerantIn<P>(pts: seq<P>, dist: (P, P, P) -> real, verySmall: real, d: seq<real>, lo: nat, hi: nat) {
    forall a, b :: lo <= a < b <= hi && KeptIn(d, lo, hi, a) && KeptIn(d, lo, hi, b) && Clear(d, a, b) ==>
      WithinTolerance(pts, dist, verySmall, a, b)
  }

  /** Refining a span with nothing recorded inside it leaves every gap
      between consecutive kept indices within tolerance. */
  lemma {:induction false} RefineTolerance<P>(pts: seq<P>, dist: (P, P, P) -> real, verySmall: real, lo: nat, hi: nat, s: DpState)
    requires verySmall >= 0.0 && lo < hi < |pts| && |s.d| == |pts|
    requires Clear(s.d, lo, hi)
    ensures TolerantIn(pts, dist, verySmall, Refine(pts, dist, verySmall, lo, hi, s).d, lo, hi)
    decreases hi - lo
  {
    var sm := SpanMax(pts, dist, lo, hi);
    var md, m := sm.0, sm.1;
    var r := Refine(pts, dist, verySmall, lo, hi, s).d;
    if md > verySmall {
      var s' := DpState(s.d[m := md], if md > s.absMax then md else s.absMax);
      var right := Refine(pts, dist, verySmall, m, hi, s');
      assert r == Refine(pts, dist, verySmall, lo, m, right).d;
      RefineFrame(pts, dist, verySmall, m, hi, s');
      RefineFrame(pts, dist, verySmall, lo, m, right);
      RefineTolerance(pts, dist, verySmall, m, hi, s');
      assert Clear(right.d, lo, m) by {
        forall j | lo < j < m && j < |right.d| ensures right.d[j] == 0.0 {
          assert right.d[j] == s'.d[j] == s.d[j];
        }
      }
      RefineTolerance(pts, dist, verySmall, lo, m, right);
      assert r[m] == md;
      forall a, b | lo <= a < b <= hi && KeptIn(r, lo, hi, a) && KeptIn(r, lo, hi, b) && Clear(r, a, b)
        ensures WithinTolerance(pts, dist, verySmall, a, b)
      {
        if b <= m {
          assert KeptIn(r, lo, m, a) && KeptIn(r, lo, m, b);
        } else if m <= a {
          assert forall k :: m <= k <= hi ==> r[k] == right.d[k];
          assert KeptIn(right.d, m, hi, a) && KeptIn(right.d, m, hi, b);
          assert Clear(right.d, a, b);
        }
      }
    } else {
      forall a, b | lo <= a < b <= hi && KeptIn(r, lo, hi, a) && KeptIn(r, lo, hi, b) && Clear(r, a, b)
        ensures WithinTolerance(pts, dist, verySmall, a, b)
      {
        assert a == lo && b == hi;
      }
    }
  }

  /** The Douglas-Peucker guarantee: between any two consecutive retained
      points, every point lies within `verySmall` of their chord. */
  lemma SimplifiedTolerance<P>(pts: seq<P>, dist: (P, P, P) -> real, verySmall: real)
    requires verySmall >= 0.0
    ensures var d := Simplified(pts, dist, verySmall).d;
      forall a, b :: 0 <= a < b < |pts| && Retained(d, a) && Retained(d, b) && Clear(d, a, b) ==>
        WithinTolerance(pts, dist, verySmall, a, b)
  {
    var n := |pts|;
    var d := Simplified(pts, dist, verySmall).d;
    if n > 2 {
      RefineTolerance(pts, dist, verySmall, 0, n - 1, DpState(Zeros(n), 0.0));
      forall a, b | 0 <= a < b < n && Retained(d, a) && Retained(d, b) && Clear(d, a, b)
        ensures WithinTolerance(pts, dist, verySmall, a, b)
      {
        assert KeptIn(d, 0, n - 1, a) && KeptIn(d, 0, n - 1, b);
      }
    } else {
      forall a, b | 0 <= a < b < n && Retained(d, a) && Retained(d, b) && Clear(d, a, b)
        ensures WithinTolerance(pts, dist, verySmall, a, b)
      {
        assert a == 0 && b == 1;
      }
    }
  }
}

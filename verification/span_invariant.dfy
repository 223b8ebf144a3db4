module SpanInvariant {

  import opened DouglasPeucker

  // ---------------------------------------------------------------------
  // Loop invariants of the outer loop

  /** The interiors of pending spans do not overlap. */
  ghost predicate DisjointStack(stack: seq<Span>) {
    forall k, l :: 0 <= k < l < |stack| ==> stack[k].1 <= stack[l].0 || stack[l].1 <= stack[k].0
  }

  /** Nothing has been recorded yet inside any pending span. */
  ghost predicate ZeroOnPending(d: seq<real>, stack: seq<Span>) {
    forall k, j :: 0 <= k < |stack| && stack[k].0 < j < stack[k].1 && j < |d| ==> d[j] == 0.0
  }

  /** Every recorded entry is the first maximum of the span it was chosen
      in, and exceeds the tolerance. */
  ghost predicate Recorded<P>(pts: seq<P>, dist: (P, P, P) -> real, d: seq<real>, spanOf: seq<Span>, verySmall: real) {
    && |d| == |pts| && |spanOf| == |pts|
    && forall i :: 0 <= i < |d| && d[i] != 0.0 ==>
      && FirstMax(pts, dist, spanOf[i].0, spanOf[i].1, i)
      && d[i] == SpanDist(pts, dist, i, spanOf[i].0, spanOf[i].1)
      && d[i] > verySmall
  }

  /** `order` lists each written index once, and exactly those. */
  ghost predicate WriteOrder(d: seq<real>, order: seq<nat>) {
    && (forall k, l :: 0 <= k < l < |order| ==> order[k] != order[l])
    && (forall k :: 0 <= k < |order| ==> order[k] < |d|)
    && (forall i :: 0 <= i < |d| ==> (d[i] != 0.0 <==> i in order))
  }

  /** Every distance computed in an examined span is at most `absMax`. */
  ghost predicate Dominates<P>(pts: seq<P>, dist: (P, P, P) -> real, examined: seq<Span>, absMax: real) {
    && (forall k :: 0 <= k < |examined| ==> examined[k].0 < examined[k].1 < |pts|)
    && forall k, j :: 0 <= k < |examined| && examined[k].0 < j < examined[k].1 ==>
      SpanDist(pts, dist, j, examined[k].0, examined[k].1) <= absMax
  }

  /** Interior points summed over the stack: it drops by one when a span
      is split, and never grows when one is discarded. */
  function InteriorSum(stack: seq<Span>): nat {
    if |stack| == 0 then 0
    else
      var top := stack[|stack| - 1];
      InteriorSum(stack[..|stack| - 1]) + (if top.0 < top.1 then top.1 - top.0 - 1 else 0)
  }

  // ---------------------------------------------------------------------
  // The simplification loop

  /** The outer loop's invariant, over the array contents `d`. */
  ghost predicate Invariant<P>(pts: seq<P>, dist: (P, P, P) -> real, verySmall: real, stack: seq<Span>,
                               d: seq<real>, spanOf: seq<Span>, order: seq<nat>,
                               absMax: real, absLoc: nat, examined: seq<Span>) {
    var n := |pts|;
    && n > 2 && |d| == n
    && ValidStack(stack, n) && DisjointStack(stack) && ZeroOnPending(d, stack)
    && d[0] == 0.0 && d[n - 1] == 0.0
    && Recorded(pts, dist, d, spanOf, verySmall)
    && WriteOrder(d, order)
    && 0.0 <= absMax && (forall i :: 0 <= i < n ==> d[i] <= absMax)
    && (absMax > verySmall ==> absLoc < n && d[absLoc] == absMax)
    && Dominates(pts, dist, examined, absMax)
    && ((|examined| >= 1 && examined[0] == (0, n - 1)) || (examined == [] && stack == [(0, n - 1)]))
  }

  /** What `ScanSpan` reports about span `(lo, hi)`. */
  ghost predicate Scanned<P>(pts: seq<P>, dist: (P, P, P) -> real, lo: nat, hi: nat,
                             maxDist: real, maxLoc: nat, absOld: real, absNew: real) {
    && lo < hi < |pts|
    && maxDist >= 0.0
    && (forall j :: lo < j < hi ==> SpanDist(pts, dist, j, lo, hi) <= maxDist)
    && (maxDist > 0.0 ==> FirstMax(pts, dist, lo, hi, maxLoc) && maxDist == SpanDist(pts, dist, maxLoc, lo, hi))
    && absNew == (if maxDist > absOld then maxDist else absOld)
  }

  /** A popped span whose largest distance exceeds the tolerance records
      it at its first maximum and is replaced by its two halves. */
  lemma SplitStep<P>(pts: seq<P>, dist: (P, P, P) -> real, verySmall: real, stack: seq<Span>,
                     d: seq<real>, spanOf: seq<Span>, order: seq<nat>,
                     absMax: real, absLoc: nat, examined: seq<Span>,
                     maxDist: real, maxLoc: nat, absNew: real,
                     stack': seq<Span>, d': seq<real>, spanOf': seq<Span>, order': seq<nat>,
                     absLoc': nat, examined': seq<Span>)
    requires verySmall >= 0.0
    requires Invariant(pts, dist, verySmall, stack, d, spanOf, order, absMax, absLoc, examined)
    requires |stack| > 0
    requires Scanned(pts, dist, stack[|stack| - 1].0, stack[|stack| - 1].1, maxDist, maxLoc, absMax, absNew)
    requires maxDist > verySmall
    requires var lo, hi := stack[|stack| - 1].0, stack[|stack| - 1].1;
      && stack' == stack[..|stack| - 1] + [(lo, maxLoc), (maxLoc, hi)]
      && maxLoc < |d| && d' == d[maxLoc := maxDist]
      && maxLoc < |spanOf| && spanOf' == spanOf[maxLoc := (lo, hi)]
      && order' == order + [maxLoc]
      && absLoc' == (if maxDist > absMax then maxLoc else absLoc)
      && examined' == examined + [(lo, hi)]
    ensures Invariant(pts, dist, verySmall, stack', d', spanOf', order', absNew, absLoc', examined')
  {
    var n := |pts|;
    var lo, hi := stack[|stack| - 1].0, stack[|stack| - 1].1;
    SplitStack(stack, d, n, maxLoc, maxDist);
    SplitRecords(pts, dist, verySmall, d, spanOf, order, lo, hi, maxLoc, maxDist);
    assert forall i :: 0 <= i < n ==> d'[i] <= absNew;
    DominatesExtend(pts, dist, examined, absMax, absNew, lo, hi);
    assert |examined + [(lo, hi)]| >= 1 && (examined + [(lo, hi)])[0] == (0, n - 1) by {
      if examined == [] { assert stack == [(0, n - 1)]; }
    }
  }

  /** Replacing the top span by its two halves at an interior index keeps
      the stack valid and disjoint, and the split index was still 0. */
  lemma SplitStack(stack: seq<Span>, d: seq<real>, n: nat, maxLoc: nat, maxDist: real)
    requires |stack| > 0 && |d| == n
    requires ValidStack(stack, n) && DisjointStack(stack) && ZeroOnPending(d, stack)
    requires stack[|stack| - 1].0 < maxLoc < stack[|stack| - 1].1
    ensures d[maxLoc] == 0.0
    ensures var lo, hi := stack[|stack| - 1].0, stack[|stack| - 1].1;
      var stack' := stack[..|stack| - 1] + [(lo, maxLoc), (maxLoc, hi)];
      ValidStack(stack', n) && DisjointStack(stack') && ZeroOnPending(d[maxLoc := maxDist], stack')
  {
    var lo, hi := stack[|stack| - 1].0, stack[|stack| - 1].1;
    var rest := stack[..|stack| - 1];
    var stack' := rest + [(lo, maxLoc), (maxLoc, hi)];
    var d' := d[maxLoc := maxDist];
    assert d[maxLoc] == 0.0 by {
      assert stack[|stack| - 1].0 < maxLoc < stack[|stack| - 1].1;
    }
    // The top span is disjoint from every other pending span.
    assert forall k :: 0 <= k < |rest| ==> rest[k].1 <= lo || hi <= rest[k].0 by {
      forall k | 0 <= k < |rest|
        ensures rest[k].1 <= lo || hi <= rest[k].0
      {
        assert rest[k] == stack[k];
      }
    }
    assert ValidStack(stack', n) by {
      forall k | 0 <= k < |stack'|
        ensures stack'[k].0 < stack'[k].1 < n
      {
        if k < |rest| { assert stack'[k] == stack[k]; }
      }
    }
    assert DisjointStack(stack') by {
      forall k, l | 0 <= k < l < |stack'|
        ensures stack'[k].1 <= stack'[l].0 || stack'[l].1 <= stack'[k].0
      {
        if l < |rest| { assert stack'[k] == stack[k] && stack'[l] == stack[l]; }
        else if k < |rest| { assert stack'[k] == stack[k]; }
      }
    }
    assert ZeroOnPending(d', stack') by {
      forall k, j | 0 <= k < |stack'| && stack'[k].0 < j < stack'[k].1 && j < |d'|
        ensures d'[j] == 0.0
      {
        if k < |rest| {
          assert stack'[k] == stack[k];
          assert d[j] == 0.0;
        } else {
          assert lo < j < hi && j != maxLoc;
          assert d[j] == 0.0 by {
            assert stack[|stack| - 1].0 < j < stack[|stack| - 1].1;
          }
        }
      }
    }
  }

  /** Recording the first maximum of a span at a fresh index keeps the
      records and the write order. */
  lemma SplitRecords<P>(pts: seq<P>, dist: (P, P, P) -> real, verySmall: real,
                        d: seq<real>, spanOf: seq<Span>, order: seq<nat>,
                        lo: nat, hi: nat, maxLoc: nat, maxDist: real)
    requires Recorded(pts, dist, d, spanOf, verySmall) && WriteOrder(d, order)
    requires maxLoc < |d| && d[maxLoc] == 0.0
    requires FirstMax(pts, dist, lo, hi, maxLoc) && maxDist == SpanDist(pts, dist, maxLoc, lo, hi)
    requires maxDist > verySmall >= 0.0
    ensures Recorded(pts, dist, d[maxLoc := maxDist], spanOf[maxLoc := (lo, hi)], verySmall)
    ensures WriteOrder(d[maxLoc := maxDist], order + [maxLoc])
  {
    var d' := d[maxLoc := maxDist];
    var order' := order + [maxLoc];
    assert maxLoc !in order;
    forall i | 0 <= i < |d|
      ensures d'[i] != 0.0 <==> i in order'
    {
      if i != maxLoc { assert d'[i] == d[i]; }
    }
  }

  /** A popped span whose largest distance does not exceed the tolerance
      is dropped; nothing is recorded. */
  lemma DiscardStep<P>(pts: seq<P>, dist: (P, P, P) -> real, verySmall: real, stack: seq<Span>,
                       d: seq<real>, spanOf: seq<Span>, order: seq<nat>,
                       absMax: real, absLoc: nat, examined: seq<Span>,
                       maxDist: real, maxLoc: nat, absNew: real,
                       stack': seq<Span>, examined': seq<Span>)
    requires verySmall >= 0.0
    requires Invariant(pts, dist, verySmall, stack, d, spanOf, order, absMax, absLoc, examined)
    requires |stack| > 0
    requires Scanned(pts, dist, stack[|stack| - 1].0, stack[|stack| - 1].1, maxDist, maxLoc, absMax, absNew)
    requires maxDist <= verySmall
    requires stack' == stack[..|stack| - 1]
    requires examined' == examined + [stack[|stack| - 1]]
    ensures Invariant(pts, dist, verySmall, stack', d, spanOf, order, absNew, absLoc, examined')
  {
    var n := |pts|;
    var lo, hi := stack[|stack| - 1].0, stack[|stack| - 1].1;
    var rest := stack[..|stack| - 1];
    assert ValidStack(rest, n) by {
      forall k | 0 <= k < |rest| ensures rest[k].0 < rest[k].1 < n { assert rest[k] == stack[k]; }
    }
    assert DisjointStack(rest) by {
      forall k, l | 0 <= k < l < |rest|
        ensures rest[k].1 <= rest[l].0 || rest[l].1 <= rest[k].0
      {
        assert rest[k] == stack[k] && rest[l] == stack[l];
      }
    }
    assert ZeroOnPending(d, rest) by {
      forall k, j | 0 <= k < |rest| && rest[k].0 < j < rest[k].1 && j < |d|
        ensures d[j] == 0.0
      {
        assert rest[k] == stack[k];
      }
    }
    DominatesExtend(pts, dist, examined, absMax, absNew, lo, hi);
    assert |examined + [(lo, hi)]| >= 1 && (examined + [(lo, hi)])[0] == (0, n - 1) by {
      if examined == [] { assert stack == [(0, n - 1)]; }
    }
  }

  /** Examining one more span whose distances are all at most the new
      running maximum keeps every examined distance below it. */
  lemma DominatesExtend<P>(pts: seq<P>, dist: (P, P, P) -> real, examined: seq<Span>,
                           absOld: real, absNew: real, lo: nat, hi: nat)
    requires Dominates(pts, dist, examined, absOld) && absOld <= absNew
    requires lo < hi < |pts|
    requires forall j :: lo < j < hi ==> SpanDist(pts, dist, j, lo, hi) <= absNew
    ensures Dominates(pts, dist, examined + [(lo, hi)], absNew)
  {
    var e := examined + [(lo, hi)];
    forall k, j | 0 <= k < |e| && e[k].0 < j < e[k].1
      ensures SpanDist(pts, dist, j, e[k].0, e[k].1) <= absNew
    {
      if k < |examined| {
        assert e[k] == examined[k];
      }
    }
  }

  /** The first span examined is the whole line. */
  lemma DominatesFirst<P>(pts: seq<P>, dist: (P, P, P) -> real, examined: seq<Span>, absMax: real)
    requires |pts| > 2 && Dominates(pts, dist, examined, absMax)
    requires |examined| >= 1 && examined[0] == (0, |pts| - 1)
    ensures forall j :: 0 < j < |pts| - 1 ==> dist(pts[j], pts[0], pts[|pts| - 1]) <= absMax
  {
    forall j | 0 < j < |pts| - 1
      ensures dist(pts[j], pts[0], pts[|pts| - 1]) <= absMax
    {
      assert SpanDist(pts, dist, j, examined[0].0, examined[0].1) <= absMax;
    }
  }

  /** Splitting the top span at an interior index removes that index from
      the interior count. */
  lemma PushTwo(rest: seq<Span>, lo: nat, m: nat, hi: nat)
    requires lo < m < hi
    ensures InteriorSum(rest + [(lo, m), (m, hi)]) + 1 == InteriorSum(rest + [(lo, hi)])
  {
    var s := rest + [(lo, m), (m, hi)];
    assert s[..|s| - 1] == rest + [(lo, m)];
    assert (rest + [(lo, m)])[..|rest|] == rest;
    assert (rest + [(lo, hi)])[..|rest|] == rest;
  }
}

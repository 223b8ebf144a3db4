/** The significance array the simplifier produces (one distance per input
    point, 0 for points it did not select) and the index lists the two
    output loops walk: `createEncodings` keeps the endpoints and every
    non-zero entry, `encodeLevels` visits the non-zero interior entries. */
module Significance {

  /** `createEncodings` writes point i: `dists[i] != 0 || i == 0 || i == n - 1`. */
  predicate Retained(dists: seq<real>, i: nat)
    requires i < |dists|
  {
    dists[i] != 0.0 || i == 0 || i == |dists| - 1
  }

  /** The retained indices in [i, n), ascending. */
  function KeptFrom(dists: seq<real>, i: nat): (r: seq<nat>)
    requires i <= |dists|
    ensures forall k :: 0 <= k < |r| ==> i <= r[k] < |dists| && Retained(dists, r[k])
    ensures forall k, l :: 0 <= k < l < |r| ==> r[k] < r[l]
    decreases |dists| - i
  {
    if i == |dists| then []
    else (if Retained(dists, i) then [i] else []) + KeptFrom(dists, i + 1)
  }

  /** The indices of the points `createEncodings` writes, in order. */
  function KeptIndices(dists: seq<real>): seq<nat> {
    KeptFrom(dists, 0)
  }

  /** The indices in [lo, hi) with a non-zero entry, ascending. */
  function NonZeroFrom(dists: seq<real>, lo: nat, hi: nat): (r: seq<nat>)
    requires lo <= hi <= |dists|
    ensures forall k :: 0 <= k < |r| ==> lo <= r[k] < hi && dists[r[k]] != 0.0
    ensures forall k, l :: 0 <= k < l < |r| ==> r[k] < r[l]
    decreases hi - lo
  {
    if lo == hi then []
    else (if dists[lo] != 0.0 then [lo] else []) + NonZeroFrom(dists, lo + 1, hi)
  }

  /** The interior indices `encodeLevels` writes a level for: 1 <= i < n-1
      with a non-zero entry. */
  function InteriorIndices(dists: seq<real>): seq<nat> {
    if |dists| < 2 then [] else NonZeroFrom(dists, 1, |dists| - 1)
  }

  /** Every retained index from `i` on is listed. */
  lemma {:induction false} KeptFromComplete(dists: seq<real>, i: nat, j: nat)
    requires i <= j < |dists| && Retained(dists, j)
    ensures j in KeptFrom(dists, i)
    decreases j - i
  {
    if i < j {
      KeptFromComplete(dists, i + 1, j);
    }
  }

  /** Every non-zero index in [lo, hi) is listed. */
  lemma {:induction false} NonZeroFromComplete(dists: seq<real>, lo: nat, hi: nat, j: nat)
    requires lo <= j < hi <= |dists| && dists[j] != 0.0
    ensures j in NonZeroFrom(dists, lo, hi)
    decreases j - lo
  {
    if lo < j {
      NonZeroFromComplete(dists, lo + 1, hi, j);
    }
  }

  /** The written points are the first, the non-zero interior ones, and the
      last; a one-point line writes its single point once. */
  lemma KeptIsEndpointsAndInterior(dists: seq<real>)
    ensures |dists| >= 2 ==> KeptIndices(dists) == [0] + InteriorIndices(dists) + [|dists| - 1]
    ensures |dists| == 1 ==> KeptIndices(dists) == [0]
    ensures |dists| == 0 ==> KeptIndices(dists) == []
  {
    if |dists| >= 2 {
      KeptTail(dists, 1);
      assert KeptFrom(dists, 0) == [0] + KeptFrom(dists, 1);
    } else if |dists| == 1 {
      assert KeptFrom(dists, 0) == [0] + KeptFrom(dists, 1);
    }
  }

  lemma {:induction false} KeptTail(dists: seq<real>, i: nat)
    requires 1 <= i <= |dists| - 1
    ensures KeptFrom(dists, i) == NonZeroFrom(dists, i, |dists| - 1) + [|dists| - 1]
    decreases |dists| - i
  {
    var last := |dists| - 1;
    if i < last {
      KeptTail(dists, i + 1);
      var head := if dists[i] != 0.0 then [i] else [];
      assert KeptFrom(dists, i) == head + KeptFrom(dists, i + 1);
      assert NonZeroFrom(dists, i, last) == head + NonZeroFrom(dists, i + 1, last);
      assert head + (NonZeroFrom(dists, i + 1, last) + [last]) == (head + NonZeroFrom(dists, i + 1, last)) + [last];
    } else {
      assert KeptFrom(dists, i) == [i] + KeptFrom(dists, i + 1);
      assert NonZeroFrom(dists, i, last) == [];
    }
  }
}

/** Exploration noise and `np.clip`, as used by the agents' `get_action`
    (ddpg_sp/DDPG_class.py and sac_sp/SAC_class.py).  Real numbers stand in
    for float32; rounding is not modelled. */
module Clipping {

  function MaxReal(a: real, b: real): real
  {
    if a >= b then a else b
  }

  function MinReal(a: real, b: real): real
  {
    if a <= b then a else b
  }

  /** `np.clip(x, lo, hi)`, which numpy evaluates as `minimum(maximum(x, lo), hi)`:
      inside the interval nothing changes, outside it the nearer bound is
      taken, and an empty interval (`hi < lo`) yields `hi`. */
  function Clip(x: real, lo: real, hi: real): (r: real)
    ensures lo <= hi ==> lo <= r <= hi
    ensures lo <= x <= hi ==> r == x
    ensures x < lo && lo <= hi ==> r == lo
    ensures hi < x ==> r == hi
    ensures hi < lo ==> r == hi
  {
    MinReal(MaxReal(x, lo), hi)
  }

  /** `np.clip` applied elementwise to a vector. */
  function ClipVec(a: seq<real>, lo: real, hi: real): (r: seq<real>)
    ensures |r| == |a|
    ensures forall k :: 0 <= k < |a| ==> r[k] == Clip(a[k], lo, hi)
  {
    seq(|a|, k requires 0 <= k < |a| => Clip(a[k], lo, hi))
  }

  /** `a += noise_scale * noise`, with the Gaussian draw passed in. */
  function Perturb(a: seq<real>, scale: real, noise: seq<real>): (r: seq<real>)
    requires |noise| == |a|
    ensures |r| == |a|
    ensures forall k :: 0 <= k < |a| ==> r[k] == a[k] + scale * noise[k]
  {
    seq(|a|, k requires 0 <= k < |a| => a[k] + scale * noise[k])
  }

  /** Every component of a clipped vector lies in `[lo, hi]`. */
  lemma ClipVecBounds(a: seq<real>, lo: real, hi: real)
    requires lo <= hi
    ensures forall k :: 0 <= k < |a| ==> lo <= ClipVec(a, lo, hi)[k] <= hi
  {
  }

  /** A vector already inside `[lo, hi]` comes back unchanged. */
  lemma ClipVecInRange(a: seq<real>, lo: real, hi: real)
    requires forall k :: 0 <= k < |a| ==> lo <= a[k] <= hi
    ensures ClipVec(a, lo, hi) == a
  {
    var r := ClipVec(a, lo, hi);
    assert |r| == |a|;
    forall k | 0 <= k < |a|
      ensures r[k] == a[k]
    {
    }
  }

  /** Clipping twice is clipping once. */
  lemma ClipVecIdempotent(a: seq<real>, lo: real, hi: real)
    ensures ClipVec(ClipVec(a, lo, hi), lo, hi) == ClipVec(a, lo, hi)
  {
    var r := ClipVec(a, lo, hi);
    if lo <= hi {
      ClipVecInRange(r, lo, hi);
    } else {
      var rr := ClipVec(r, lo, hi);
      forall k | 0 <= k < |r|
        ensures rr[k] == r[k]
      {
      }
    }
  }

  /** A zero noise scale leaves the vector as it is. */
  lemma PerturbZero(a: seq<real>, noise: seq<real>)
    requires |noise| == |a|
    ensures Perturb(a, 0.0, noise) == a
  {
    var r := Perturb(a, 0.0, noise);
    forall k | 0 <= k < |a|
      ensures r[k] == a[k]
    {
    }
  }
}

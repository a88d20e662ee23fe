/** The one step of `compute_reconstruction` that is the pipeline's own
    logic: `FA[np.isnan(FA)] = 0`, which overwrites every undefined
    fractional-anisotropy value with zero in place. */
module Reconstruction {

  /** A floating-point FA value: a number or NaN. */
  datatype Fa = NaN | Value(v: real)

  /** The value one voxel holds after sanitisation. */
  function SanitizedVoxel(x: Fa): Fa
  {
    if x.NaN? then Value(0.0) else x
  }

  /** The FA volume (flattened) after sanitisation. */
  function Sanitized(fa: seq<Fa>): (r: seq<Fa>)
    ensures |r| == |fa|
  {
    seq(|fa|, i requires 0 <= i < |fa| => SanitizedVoxel(fa[i]))
  }

  /** After sanitisation no voxel is NaN; NaN voxels hold 0 and every other
      voxel keeps its value. */
  lemma SanitizedSpec(fa: seq<Fa>)
    ensures forall i :: 0 <= i < |fa| ==> !Sanitized(fa)[i].NaN?
    ensures forall i :: 0 <= i < |fa| && fa[i].NaN? ==> Sanitized(fa)[i] == Value(0.0)
    ensures forall i :: 0 <= i < |fa| && !fa[i].NaN? ==> Sanitized(fa)[i] == fa[i]
  {
  }

  /** A volume without NaN is left as it is; so sanitising twice is
      sanitising once. */
  lemma SanitizedIdempotent(fa: seq<Fa>)
    ensures (forall i :: 0 <= i < |fa| ==> !fa[i].NaN?) ==> Sanitized(fa) == fa
    ensures Sanitized(Sanitized(fa)) == Sanitized(fa)
  {
  }

  /** `FA[np.isnan(FA)] = 0` on the array holding the volume. */
  method SanitizeNaN(fa: array<Fa>)
    modifies fa
    ensures fa[..] == Sanitized(old(fa[..]))
  {
    var i := 0;
    while i < fa.Length
      invariant 0 <= i <= fa.Length
      invariant forall k :: 0 <= k < i ==> fa[k] == SanitizedVoxel(old(fa[k]))
      invariant forall k :: i <= k < fa.Length ==> fa[k] == old(fa[k])
    {
      if fa[i].NaN? {
        fa[i] := Value(0.0);
      }
      i := i + 1;
    }
  }
}

/** Dense real matrices as the reweighting core sees them: a row-major
    `seq<seq<real>>` value, and the `array2<real>` that is filled in place.
    Reals stand in for the doubles of the source. */
module Matrix {

  /** `m` has `n` rows of `n` entries each. */
  ghost predicate IsSquare(m: seq<seq<real>>, n: nat) {
    |m| == n && forall a :: 0 <= a < n ==> |m[a]| == n
  }

  /** `m` is square and equal to its own transpose. */
  ghost predicate IsSymmetric(m: seq<seq<real>>) {
    IsSquare(m, |m|) &&
    forall a, b :: 0 <= a < |m| && 0 <= b < |m| ==> m[a][b] == m[b][a]
  }

  /** The value held by a two-dimensional array, row by row. */
  function Rows(g: array2<real>): (m: seq<seq<real>>)
    reads g
    ensures |m| == g.Length0
    ensures forall a :: 0 <= a < g.Length0 ==> |m[a]| == g.Length1
    ensures forall a, b :: 0 <= a < g.Length0 && 0 <= b < g.Length1 ==> m[a][b] == g[a, b]
  {
    seq(g.Length0, a reads g requires 0 <= a < g.Length0 =>
      seq(g.Length1, b reads g requires 0 <= b < g.Length1 => g[a, b]))
  }
}

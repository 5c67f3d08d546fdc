/** The geometric free-energy correction REWEIGHT_GEOMFES: the log-weight of a
    sample is half the log-determinant of the matrix of pairwise projected CV
    gradients.

    The host action supplies the number of arguments `ndim` and the projection
    `getProjection(i, j)`; the matrix library supplies `logdet`.  Neither is
    visible here, so both are parameters: `proj` and `logdet` are arbitrary
    functions, and nothing below depends on what they compute. */
module ReweightGeomFES {
  import opened Matrix

  /** Whether the host has to supply gradient projections before the weight
      is asked for: always, for this correction. */
  function CheckNeedsGradients(): (needs: bool)
    ensures needs
  {
    true
  }

  // ---------------------------------------------------------------------
  // Specification of the assembled matrix
  // ---------------------------------------------------------------------

  /** Cell (a, b) of the projected gradient matrix: the projection of the
      lower-indexed argument onto the higher-indexed one, so that only pairs
      with first index <= second index are ever consulted. */
  function Entry(proj: (int, int) -> real, a: int, b: int): real {
    if a <= b then proj(a, b) else proj(b, a)
  }

  /** The `n x n` projected gradient matrix built from the host's projections. */
  function ProjectedGradient(n: nat, proj: (int, int) -> real): (g: seq<seq<real>>)
    ensures IsSquare(g, n)
  {
    seq(n, a requires 0 <= a < n => seq(n, b requires 0 <= b < n => Entry(proj, a, b)))
  }

  /** The assembled matrix is symmetric, its upper triangle (diagonal included)
      holds the projections and its lower triangle mirrors them. */
  lemma ProjectedGradientShape(n: nat, proj: (int, int) -> real)
    ensures IsSymmetric(ProjectedGradient(n, proj))
    ensures forall i, j :: 0 <= i <= j < n ==>
      ProjectedGradient(n, proj)[i][j] == proj(i, j) && ProjectedGradient(n, proj)[j][i] == proj(i, j)
  {
  }

  /** The assembled matrix is the only symmetric `n x n` matrix whose upper
      triangle holds the projections. */
  lemma SymmetricCompletionIsUnique(n: nat, proj: (int, int) -> real, m: seq<seq<real>>)
    requires IsSymmetric(m) && |m| == n
    requires forall i, j :: 0 <= i <= j < n ==> m[i][j] == proj(i, j)
    ensures m == ProjectedGradient(n, proj)
  {
    var g := ProjectedGradient(n, proj);
    forall a | 0 <= a < n
      ensures m[a] == g[a]
    {
      forall b | 0 <= b < n
        ensures m[a][b] == g[a][b]
      {
        if b < a {
          assert m[a][b] == m[b][a];
        }
      }
    }
  }

  /** Projections asked for with the first index above the second never
      influence the matrix: two hosts that agree on the upper triangle yield
      the same matrix, whatever they would answer below it. */
  lemma UpperTriangleDetermines(n: nat, p: (int, int) -> real, q: (int, int) -> real)
    requires forall i, j :: 0 <= i <= j < n ==> p(i, j) == q(i, j)
    ensures ProjectedGradient(n, p) == ProjectedGradient(n, q)
  {
    var gp, gq := ProjectedGradient(n, p), ProjectedGradient(n, q);
    forall a | 0 <= a < n
      ensures gp[a] == gq[a]
    {
      assert forall b :: 0 <= b < n ==> gp[a][b] == gq[a][b];
    }
  }

  /** With a single argument the matrix is the 1 x 1 matrix of that
      argument's squared gradient norm, built by the same general code. */
  lemma SingleArgument(proj: (int, int) -> real)
    ensures ProjectedGradient(1, proj) == [[proj(0, 0)]]
  {
    var g := ProjectedGradient(1, proj);
    assert g[0] == [proj(0, 0)];
  }

  /** With two arguments the off-diagonal projection is asked for once and
      appears in both off-diagonal cells. */
  lemma TwoArguments(proj: (int, int) -> real)
    ensures ProjectedGradient(2, proj) ==
      [[proj(0, 0), proj(0, 1)], [proj(0, 1), proj(1, 1)]]
  {
    var g := ProjectedGradient(2, proj);
    assert g[0] == [proj(0, 0), proj(0, 1)];
    assert g[1] == [proj(0, 1), proj(1, 1)];
  }

  // ---------------------------------------------------------------------
  // The projection queries made by the nested loops
  // ---------------------------------------------------------------------

  /** Queries of row `i` made before column `j`: (i, i), ..., (i, j - 1). */
  function RowQueries(i: int, j: int): seq<(int, int)> {
    if j <= i then [] else seq(j - i, k => (i, i + k))
  }

  /** Queries made by the outer loop before row `i`, for `n` arguments. */
  function QueriesBefore(i: nat, n: nat): seq<(int, int)> {
    if i == 0 then [] else QueriesBefore(i - 1, n) + RowQueries(i - 1, n)
  }

  lemma QueriesBeforeNext(i: nat, n: nat)
    ensures QueriesBefore(i + 1, n) == QueriesBefore(i, n) + RowQueries(i, n)
  {
  }

  /** Every projection query of one weight computation, in the order made. */
  function QueryLog(n: nat): seq<(int, int)> {
    QueriesBefore(n, n)
  }

  /** No pair occurs twice in `s`. */
  ghost predicate Distinct(s: seq<(int, int)>) {
    forall k, l :: 0 <= k < l < |s| ==> s[k] != s[l]
  }

  /** One more step of the inner loop appends the query (i, j). */
  lemma RowQueriesStep(done: seq<(int, int)>, queries: seq<(int, int)>, i: int, j: int)
    requires i <= j && queries == done + RowQueries(i, j)
    ensures queries + [(i, j)] == done + RowQueries(i, j + 1)
  {
    var r, r' := RowQueries(i, j), RowQueries(i, j + 1);
    assert |r'| == |r| + 1;
    forall k | 0 <= k < |r'|
      ensures r'[k] == (r + [(i, j)])[k]
    {
    }
  }

  lemma RowQueriesMembers(i: int, j: int, a: int, b: int)
    ensures (a, b) in RowQueries(i, j) <==> a == i && i <= b < j
  {
    if a == i && i <= b < j {
      assert RowQueries(i, j)[b - i] == (a, b);
    }
  }

  lemma RowQueriesDistinct(i: int, j: int)
    ensures Distinct(RowQueries(i, j))
  {
  }

  lemma {:induction false} QueriesBeforeMembers(i: nat, n: nat, a: int, b: int)
    ensures (a, b) in QueriesBefore(i, n) <==> 0 <= a < i && a <= b < n
  {
    if i > 0 {
      QueriesBeforeMembers(i - 1, n, a, b);
      RowQueriesMembers(i - 1, n, a, b);
    }
  }

  lemma DistinctConcat(s: seq<(int, int)>, t: seq<(int, int)>)
    requires Distinct(s) && Distinct(t)
    requires forall k, l :: 0 <= k < |s| && 0 <= l < |t| ==> s[k] != t[l]
    ensures Distinct(s + t)
  {
    forall k, l | 0 <= k < l < |s + t|
      ensures (s + t)[k] != (s + t)[l]
    {
      if l < |s| {
      } else if k < |s| {
        assert (s + t)[l] == t[l - |s|];
      } else {
        assert (s + t)[k] == t[k - |s|] && (s + t)[l] == t[l - |s|];
      }
    }
  }

  lemma {:induction false} QueriesBeforeDistinct(i: nat, n: nat)
    ensures Distinct(QueriesBefore(i, n))
  {
    if i > 0 {
      QueriesBeforeDistinct(i - 1, n);
      var prefix, row := QueriesBefore(i - 1, n), RowQueries(i - 1, n);
      forall k, l | 0 <= k < |prefix| && 0 <= l < |row|
        ensures prefix[k] != row[l]
      {
        var p := prefix[k];
        assert (p.0, p.1) in prefix;
        QueriesBeforeMembers(i - 1, n, p.0, p.1);
      }
      DistinctConcat(prefix, row);
    }
  }

  /** In a sequence without repetitions every element occurs exactly once. */
  lemma {:induction false} DistinctCount(s: seq<(int, int)>, x: (int, int))
    requires Distinct(s)
    ensures multiset(s)[x] == if x in s then 1 else 0
  {
    if s != [] {
      var init := s[..|s| - 1];
      assert s == init + [s[|s| - 1]];
      assert Distinct(init);
      DistinctCount(init, x);
      assert s[|s| - 1] !in init;
    }
  }

  /** Every unordered pair of arguments is asked for exactly once, always with
      the smaller index first, and nothing outside `0 <= i <= j < n` is asked. */
  lemma QueryLogExactlyOnce(n: nat)
    ensures forall i, j :: multiset(QueryLog(n))[(i, j)] == if 0 <= i <= j < n then 1 else 0
  {
    QueriesBeforeDistinct(n, n);
    forall i, j
      ensures multiset(QueryLog(n))[(i, j)] == if 0 <= i <= j < n then 1 else 0
    {
      QueriesBeforeMembers(n, n, i, j);
      DistinctCount(QueryLog(n), (i, j));
    }
  }

  /** Each query in the log lies in the upper triangle of the matrix. */
  lemma QueryLogInUpperTriangle(n: nat)
    ensures forall k :: 0 <= k < |QueryLog(n)| ==> 0 <= QueryLog(n)[k].0 <= QueryLog(n)[k].1 < n
  {
    forall k | 0 <= k < |QueryLog(n)|
      ensures 0 <= QueryLog(n)[k].0 <= QueryLog(n)[k].1 < n
    {
      var p := QueryLog(n)[k];
      assert (p.0, p.1) in QueryLog(n);
      QueriesBeforeMembers(n, n, p.0, p.1);
    }
  }

  lemma RowCountArithmetic(i: int, n: int)
    ensures (i - 1) * (2 * n - i + 2) + 2 * (n - i + 1) == i * (2 * n - i + 1)
  {
  }

  lemma {:induction false} QueriesBeforeLength(i: nat, n: nat)
    requires i <= n
    ensures 2 * |QueriesBefore(i, n)| == i * (2 * n - i + 1)
  {
    if i > 0 {
      QueriesBeforeLength(i - 1, n);
      assert |QueriesBefore(i, n)| == |QueriesBefore(i - 1, n)| + (n - i + 1);
      RowCountArithmetic(i, n);
    }
  }

  /** One weight computation makes `n (n + 1) / 2` projection queries. */
  lemma QueryLogLength(n: nat)
    ensures |QueryLog(n)| == n * (n + 1) / 2
  {
    QueriesBeforeLength(n, n);
  }

  // ---------------------------------------------------------------------
  // The cells stored to by the nested loops
  // ---------------------------------------------------------------------

  /** The stores made while answering the queries `qs`: each query (i, j)
      stores to the mirrored cell (j, i) and then to the cell (i, j). */
  function Mirrored(qs: seq<(int, int)>): seq<(int, int)> {
    if qs == [] then []
    else
      var q := qs[|qs| - 1];
      Mirrored(qs[..|qs| - 1]) + [(q.1, q.0), (q.0, q.1)]
  }

  /** `writes` holds, for the k-th query (i, j), the stores to (j, i) and
      then (i, j) at positions 2k and 2k + 1. */
  ghost predicate StoresOf(qs: seq<(int, int)>, writes: seq<(int, int)>) {
    |writes| == 2 * |qs| &&
    forall k :: 0 <= k < |qs| ==> writes[2 * k] == (qs[k].1, qs[k].0) && writes[2 * k + 1] == qs[k]
  }

  /** Answering one more query appends its two stores. */
  lemma StoresOfStep(qs: seq<(int, int)>, writes: seq<(int, int)>, q: (int, int))
    requires StoresOf(qs, writes)
    ensures StoresOf(qs + [q], writes + [(q.1, q.0), (q.0, q.1)])
  {
  }

  lemma {:induction false} MirroredIsStoresOf(qs: seq<(int, int)>, writes: seq<(int, int)>)
    requires StoresOf(qs, writes)
    ensures writes == Mirrored(qs)
  {
    if qs != [] {
      var n := |qs| - 1;
      assert StoresOf(qs[..n], writes[..2 * n]);
      MirroredIsStoresOf(qs[..n], writes[..2 * n]);
      assert writes == writes[..2 * n] + [writes[2 * n], writes[2 * n + 1]];
    }
  }

  /** Every store into the matrix during one weight computation, in order. */
  function WriteLog(n: nat): seq<(int, int)> {
    Mirrored(QueryLog(n))
  }

  lemma {:induction false} MirroredCount(qs: seq<(int, int)>, a: int, b: int)
    ensures multiset(Mirrored(qs))[(a, b)] == multiset(qs)[(a, b)] + multiset(qs)[(b, a)]
  {
    if qs != [] {
      var init, q := qs[..|qs| - 1], qs[|qs| - 1];
      assert qs == init + [q];
      MirroredCount(init, a, b);
    }
  }

  /** Every cell of the `n x n` matrix is stored to, so none keeps its initial
      value: each off-diagonal cell once, each diagonal cell twice (the same
      value both times), and no cell outside the matrix. */
  lemma WriteLogCoversMatrix(n: nat)
    ensures forall a, b :: multiset(WriteLog(n))[(a, b)] ==
                            if 0 <= a < n && 0 <= b < n then (if a == b then 2 else 1) else 0
  {
    QueryLogExactlyOnce(n);
    forall a, b
      ensures multiset(WriteLog(n))[(a, b)] ==
                if 0 <= a < n && 0 <= b < n then (if a == b then 2 else 1) else 0
    {
      MirroredCount(QueryLog(n), a, b);
    }
  }

  // ---------------------------------------------------------------------
  // getLogWeight
  // ---------------------------------------------------------------------

  /** Cell (a, b) has been written once the loops have reached row `i`,
      column `j`: the row of its smaller index is finished, or it is the
      current row and its larger index lies before `j`. */
  ghost predicate Filled(i: int, j: int, a: int, b: int) {
    if a <= b then a < i || (a == i && b < j) else b < i || (b == i && a < j)
  }

  /** Once every cell is filled, the array holds the projected gradient matrix. */
  lemma FilledIsProjectedGradient(grads: array2<real>, n: nat, proj: (int, int) -> real)
    requires grads.Length0 == n && grads.Length1 == n
    requires forall a, b :: 0 <= a < n && 0 <= b < n ==>
      grads[a, b] == if Filled(n, n, a, b) then ProjectedGradient(n, proj)[a][b] else 0.0
    ensures Rows(grads) == ProjectedGradient(n, proj)
  {
    var g := Rows(grads);
    forall a | 0 <= a < n
      ensures g[a] == ProjectedGradient(n, proj)[a]
    {
      assert forall b :: 0 <= b < n ==> g[a][b] == ProjectedGradient(n, proj)[a][b];
    }
  }

  /** One store into the matrix, `grads[r, c] := v`, logged as `(r, c)`. */
  method Store(grads: array2<real>, r: nat, c: nat, v: real, ghost writes: seq<(int, int)>)
    returns (ghost writes': seq<(int, int)>)
    requires r < grads.Length0 && c < grads.Length1
    modifies grads
    ensures writes' == writes + [(r, c)]
    ensures grads[r, c] == v
    ensures forall a, b :: 0 <= a < grads.Length0 && 0 <= b < grads.Length1 && (a != r || b != c) ==>
      grads[a, b] == old(grads[a, b])
  {
    grads[r, c] := v;
    writes' := writes + [(r, c)];
  }

  /** One pass of the inner loop, for row `i`: queries (i, i), ..., (i, n - 1)
      in turn and stores each answer into both mirrored cells, so that every
      cell whose smaller index is `i` now holds its projection. */
  method FillRow(grads: array2<real>, proj: (int, int) -> real, i: nat, ghost target: seq<seq<real>>,
                 ghost queries: seq<(int, int)>, ghost writes: seq<(int, int)>)
    returns (ghost queries': seq<(int, int)>, ghost writes': seq<(int, int)>)
    requires grads.Length0 == grads.Length1 && i < grads.Length0
    requires target == ProjectedGradient(grads.Length0, proj)
    requires StoresOf(queries, writes)
    requires forall a, b :: 0 <= a < grads.Length0 && 0 <= b < grads.Length0 ==>
      grads[a, b] == if Filled(i, i, a, b) then target[a][b] else 0.0
    modifies grads
    ensures queries' == queries + RowQueries(i, grads.Length0)
    ensures StoresOf(queries', writes')
    ensures forall a, b :: 0 <= a < grads.Length0 && 0 <= b < grads.Length0 ==>
      grads[a, b] == if Filled(i + 1, i + 1, a, b) then target[a][b] else 0.0
  {
    var ndim := grads.Length0;
    queries', writes' := queries, writes;
    var j := i;
    while j < ndim
      invariant i <= j <= ndim
      invariant queries' == queries + RowQueries(i, j)
      invariant StoresOf(queries', writes')
      invariant forall a, b :: 0 <= a < ndim && 0 <= b < ndim ==>
        grads[a, b] == if Filled(i, j, a, b) then target[a][b] else 0.0
    {
      var v := proj(i, j);
      RowQueriesStep(queries, queries', i, j);
      StoresOfStep(queries', writes', (i, j));
      queries' := queries' + [(i, j)];
      writes' := Store(grads, j, i, v, writes');
      writes' := Store(grads, i, j, grads[j, i], writes');
      j := j + 1;
    }
  }

  /** The log-weight of the current sample for `ndim` arguments.  The matrix
      starts zeroed and is filled in place, one unordered pair per step; its
      value when `logdet` is applied is the projected gradient matrix, and the
      result is half the log-determinant.  `queries` records every projection
      asked for and `writes` every cell stored to, both in the order made. */
  method GetLogWeight(ndim: nat, proj: (int, int) -> real, logdet: seq<seq<real>> -> real)
    returns (w: real, ghost queries: seq<(int, int)>, ghost writes: seq<(int, int)>)
    ensures w == logdet(ProjectedGradient(ndim, proj)) / 2.0
    ensures queries == QueryLog(ndim)
    ensures writes == WriteLog(ndim)
  {
    ghost var target := ProjectedGradient(ndim, proj);
    var grads := new real[ndim, ndim]((_, _) => 0.0);
    queries, writes := [], [];
    var i := 0;
    while i < ndim
      invariant 0 <= i <= ndim
      invariant queries == QueriesBefore(i, ndim)
      invariant StoresOf(queries, writes)
      invariant forall a, b :: 0 <= a < ndim && 0 <= b < ndim ==>
        grads[a, b] == if Filled(i, i, a, b) then target[a][b] else 0.0
    {
      queries, writes := FillRow(grads, proj, i, target, queries, writes);
      QueriesBeforeNext(i, ndim);
      i := i + 1;
    }
    MirroredIsStoresOf(queries, writes);
    FilledIsProjectedGradient(grads, ndim, proj);
    var val := logdet(Rows(grads));
    w := val / 2.0;
  }

  /** Two weight computations over unchanged projections agree: the method
      keeps no state between calls. */
  method GetLogWeightIsRepeatable(ndim: nat, proj: (int, int) -> real, logdet: seq<seq<real>> -> real)
    returns (first: real, second: real)
    ensures first == second
  {
    ghost var q: seq<(int, int)>, s: seq<(int, int)>;
    first, q, s := GetLogWeight(ndim, proj, logdet);
    second, q, s := GetLogWeight(ndim, proj, logdet);
  }
}

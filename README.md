# REWEIGHT_GEOMFES log-weight, modelled in Dafny

PLUMED's `REWEIGHT_GEOMFES` action gives each sample of a biased trajectory
a log-weight. The weight corrects a histogram over the action's arguments
(collective variables, CVs) for the geometry of the CV mapping. Each call to
`ReweightGeomFES::getLogWeight` does three things:

1. It allocates a zeroed `ndim x ndim` matrix, where `ndim` is the number of
   arguments.
2. It asks the host for the gradient projection `getProjection(i, j)` once
   per pair `i <= j`. Each value goes into both `grads(i,j)` and `grads(j,i)`.
3. It passes the matrix to the library routine `logdet` and returns half of
   the result.

`checkNeedsGradients` tells the host that this action always needs gradient
projections.

The model is two modules:

- `Matrix` (`matrix.dfy`): square and symmetric matrices as `seq<seq<real>>`,
  and the row-by-row value of an `array2<real>`.
- `ReweightGeomFES` (`reweight_geom_fes.dfy`):
  - `CheckNeedsGradients`;
  - `ProjectedGradient`, the specification of the assembled matrix, and
    lemmas about it;
  - `QueryLog` and `WriteLog`, the order in which the loops query the host and
    store into cells, and lemmas about them;
  - `GetLogWeight`, the nested loops over an `array2<real>` that is filled in
    place. It is proved against `ProjectedGradient`, `QueryLog` and `WriteLog`.
    The inner loop is its own method, `FillRow`, so that each loop is
    verified on its own. Every cell assignment goes through `Store`, which
    performs the store and appends that cell to the store log, so the log
    records the stores actually made, in their order.

The host's `getProjection` and the library's `logdet` are not visible, so both
are function parameters (`proj`, `logdet`). Nothing proved depends on what
they compute. Reals stand in for doubles.

## Model

| member | source | states |
|---|---|---|
| `ReweightGeomFES.CheckNeedsGradients` | droplet/fes/ReweightGeomFES.cpp:108 | The action always requires gradient projections from the host. |
| `ReweightGeomFES.ProjectedGradient` | droplet/fes/ReweightGeomFES.cpp:126-127 | The assembled matrix has `ndim` rows of `ndim` entries. |
| `ReweightGeomFES.GetLogWeight` | droplet/fes/ReweightGeomFES.cpp:125-138 | The result is exactly half of `logdet` applied to the matrix left by the loops. That matrix equals `ProjectedGradient(ndim, proj)`. The queries made are exactly `QueryLog(ndim)` and the stores are exactly `WriteLog(ndim)`, in that order. No state outside the fresh local matrix changes: the method has no `modifies` clause. |
| `ReweightGeomFES.FillRow` | droplet/fes/ReweightGeomFES.cpp:131-133 | One pass of the inner loop for row `i` queries `(i,i), ..., (i,ndim-1)` in that order. Each answer is stored first into `(j,i)` and then, read back from there, into `(i,j)`; the store log produced by `Store` is extended by exactly these two cells in this order. Afterwards every cell whose smaller index is at most `i` holds its projection, and every other cell still holds zero. |
| `ReweightGeomFES.Store` | droplet/fes/ReweightGeomFES.cpp:132 | One cell assignment: the cell `(r, c)` now holds `v`, every other cell keeps its value, and `(r, c)` is appended to the store log. |
| `ReweightGeomFES.GetLogWeightIsRepeatable` | droplet/fes/ReweightGeomFES.cpp:125-138 | Two calls with the same argument count and the same projections return the same value. The action keeps no state between samples. |
| `ReweightGeomFES.FilledIsProjectedGradient` | droplet/fes/ReweightGeomFES.cpp:130-134 | Once the loops have covered every cell, the array's value is the projected gradient matrix. |
| `ReweightGeomFES.ProjectedGradientShape` | droplet/fes/ReweightGeomFES.cpp:130-134 | The matrix is symmetric. For every `i <= j < ndim`, both `(i,j)` and `(j,i)` hold `getProjection(i,j)`. |
| `ReweightGeomFES.SymmetricCompletionIsUnique` | droplet/fes/ReweightGeomFES.cpp:130-134 | Any symmetric `ndim x ndim` matrix whose upper triangle holds the projections equals the assembled matrix. |
| `ReweightGeomFES.UpperTriangleDetermines` | droplet/fes/ReweightGeomFES.cpp:130-132 | Two hosts whose projections agree for `i <= j` give the same matrix. Hence they give the same weight, whatever they would return for `i > j`. |
| `ReweightGeomFES.SingleArgument` | droplet/fes/ReweightGeomFES.cpp:126-134 | With one argument, the general loops build the 1x1 matrix `[[getProjection(0,0)]]`. |
| `ReweightGeomFES.TwoArguments` | droplet/fes/ReweightGeomFES.cpp:126-134 | With two arguments, the matrix is `[[p(0,0), p(0,1)], [p(0,1), p(1,1)]]`. |
| `ReweightGeomFES.QueryLogExactlyOnce` | droplet/fes/ReweightGeomFES.cpp:130-132 | Each pair `(i, j)` with `0 <= i <= j < ndim` is queried exactly once. No other pair is queried, in particular none with `i > j`. |
| `ReweightGeomFES.QueryLogInUpperTriangle` | droplet/fes/ReweightGeomFES.cpp:130-132 | Every query made satisfies `0 <= i <= j < ndim`. |
| `ReweightGeomFES.QueryLogLength` | droplet/fes/ReweightGeomFES.cpp:130-131 | One weight computation makes `ndim*(ndim+1)/2` queries. |
| `ReweightGeomFES.WriteLogCoversMatrix` | droplet/fes/ReweightGeomFES.cpp:130-133 | Every cell of the matrix is stored to, so none keeps its zero initial value. Off-diagonal cells are stored once and diagonal cells twice. No store falls outside the matrix. |

## Left out

- The registration of the action, its keywords and its constructor (`PLUMED_REGISTER_ACTION`, `registerKeywords`, `checkRead`; droplet/fes/ReweightGeomFES.cpp:111-123). These belong to the host framework's configuration parsing and registry, which are not part of this model.
- The internals of `logdet` and `Matrix<double>` (tools/Matrix.h is not part of this model). `logdet` is an arbitrary function of the assembled matrix. The model invents no singular-matrix or negative-determinant error, because the source raises none.
- Any status that `logdet` returns: line 136 ignores the call's result, and so does the model.
- The model assumes that the `Matrix(nr, nc)` constructor zero-fills the matrix. The final matrix does not depend on this, because every cell is overwritten (`WriteLogCoversMatrix`).
- `getProjection` and the rest of `ReweightBase` (bias/ReweightBase.h is not part of this model). The projection is an arbitrary function of the index pair.
- Floating point: doubles are reals, so the rounding of `val/2.0` and of `logdet` is not modelled.
- GetLogWeight: `ndim` is a `nat`. The model does not capture the source's conversion of the unsigned argument count to `int`, which only matters above `INT_MAX` arguments.
- The physics in the documentation comment (droplet/fes/ReweightGeomFES.cpp:26-96): it describes intended meaning, not behaviour of the code.
- sn2/nn.py: a fitting script built on foreign numerical libraries plus file I/O. It has no logic to verify.
- Checks for `ndim = 0`, a singular matrix or a negative determinant: `getLogWeight` has none. The model follows the code, so `ndim = 0` yields half of `logdet` of the empty matrix.
- GetLogWeight, GetLogWeightIsRepeatable: the model assumes that `logdet` always assigns its out-parameter `val`, which line 128 declares without an initial value. If `logdet` failed without writing it, the source would return an uninitialised value, and neither `w == logdet(...) / 2.0` nor the equality of two calls would hold on that path. `logdet` is modelled as a total function of the matrix.

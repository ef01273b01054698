/**
 * Index arithmetic of the scalar-field sampler: turning a normalised
 * coordinate into a lattice cell on one axis, and flattening a 3D cell into
 * the position of its sample in the field's one-dimensional storage.
 *
 * Floating-point values are modelled as reals and the platform's `usize` as
 * `nat`, with its upper bound written out where the float-to-integer cast
 * saturates.
 */
module Lattice {

  /** The largest value of a 64-bit `usize`. */
  const USIZE_MAX: nat := 0xFFFF_FFFF_FFFF_FFFF

  /** The grid resolution along x, y and z. */
  datatype Dims = Dims(nx: nat, ny: nat, nz: nat)

  /** A lattice cell, addressed by one index per axis. */
  datatype Cell = Cell(x: nat, y: nat, z: nat)

  /** Every axis has at least one cell, so `dim - 1` does not underflow. */
  predicate Positive(d: Dims) {
    d.nx >= 1 && d.ny >= 1 && d.nz >= 1
  }

  /** Every axis length is representable as a `usize`. */
  predicate FitsUsize(d: Dims) {
    d.nx <= USIZE_MAX && d.ny <= USIZE_MAX && d.nz <= USIZE_MAX
  }

  /** The number of cells of the grid, which is the length of its storage. */
  function Volume(d: Dims): (n: nat)
    ensures n == 0 <==> d.nx == 0 || d.ny == 0 || d.nz == 0
  {
    ProductZero(d.nx, d.ny, d.nz);
    d.nx * d.ny * d.nz
  }

  predicate InGrid(c: Cell, d: Dims) {
    c.x < d.nx && c.y < d.ny && c.z < d.nz
  }

  /**
   * The saturating float-to-`usize` conversion (`v as usize`): negative
   * values become 0, values at or above 2^64 become `USIZE_MAX`, and
   * everything else is truncated towards zero.
   */
  function SaturatingCast(v: real): (t: nat)
    ensures t <= USIZE_MAX
    ensures 0.0 <= v < (USIZE_MAX + 1) as real ==> t as real <= v < t as real + 1.0
  {
    if v <= 0.0 then 0
    else if v >= (USIZE_MAX + 1) as real then USIZE_MAX
    else v.Floor
  }

  /** `t.min(dim - 1)`: the largest cell index of the axis that does not exceed `t`. */
  function Clamp(t: nat, dim: nat): (r: nat)
    requires dim >= 1
    ensures r < dim && r <= t
    ensures r == t || r == dim - 1
  {
    if t <= dim - 1 then t else dim - 1
  }

  /** The index along one axis of the cell that holds normalised coordinate `coord`. */
  function AxisIndex(coord: real, dim: nat): (i: nat)
    requires dim >= 1
    ensures i < dim
  {
    Clamp(SaturatingCast(coord * dim as real), dim)
  }

  /** The cell that the sampler reads for the point (x, y, z). */
  function CellAt(d: Dims, x: real, y: real, z: real): (c: Cell)
    requires Positive(d)
    ensures InGrid(c, d)
  {
    Cell(AxisIndex(x, d.nx), AxisIndex(y, d.ny), AxisIndex(z, d.nz))
  }

  /** Row-major position of a cell in the storage: `x + y*nx + z*nx*ny`. */
  function Flatten(c: Cell, d: Dims): nat {
    c.x + c.y * d.nx + c.z * d.nx * d.ny
  }

  /** The position in the storage that the sampler reads for the point (x, y, z). */
  function SampleIndex(d: Dims, x: real, y: real, z: real): (i: nat)
    requires Positive(d)
    ensures i < Volume(d)
  {
    var c := CellAt(d, x, y, z);
    FlattenInBounds(c, d);
    Flatten(c, d)
  }

  /** The cell stored at position `i`; the inverse of `Flatten`. */
  function Unflatten(i: nat, d: Dims): Cell
    requires d.nx >= 1 && d.ny >= 1
  {
    var j: nat := i / d.nx;
    Cell(i % d.nx, j % d.ny, j / d.ny)
  }

  // ---------------------------------------------------------------------
  // Arithmetic helpers

  /** A product of three naturals is zero exactly when one factor is. */
  lemma ProductZero(a: nat, b: nat, c: nat)
    ensures a * b * c == 0 <==> a == 0 || b == 0 || c == 0
  {
    if a != 0 && b != 0 && c != 0 {
      assert a * b >= 1;
      assert a * b * c >= 1;
    }
  }

  lemma MulLeft(a: nat, b: nat, n: nat)
    requires a <= b
    ensures a * n <= b * n
  {
  }

  lemma MulPred(k: nat, m: nat)
    requires k >= 1
    ensures (k - 1) * m == k * m - m
  {
  }

  /** A value below `m` plus a multiple of `m` stays below the next multiple. */
  lemma StepBound(r: nat, q: nat, m: nat, k: nat)
    requires r < m && q < k
    ensures r + q * m < k * m
  {
    MulLeft(q, k - 1, m);
    MulPred(k, m);
  }

  /** Euclidean division of `q*n + r` by `n`, for `r < n`, gives back `q` and `r`. */
  lemma DivModOf(q: nat, r: nat, n: nat)
    requires r < n
    ensures (q * n + r) / n == q && (q * n + r) % n == r
  {
    var a := q * n + r;
    var q', r' := a / n, a % n;
    assert a == q' * n + r';
    if q' < q {
      MulLeft(q' + 1, q, n);
      assert false;
    } else if q' > q {
      MulLeft(q + 1, q', n);
      assert false;
    }
  }

  /** A value below `n*m` divided by `n` is below `m`. */
  lemma DivBelow(a: nat, n: nat, m: nat)
    requires n >= 1 && a < n * m
    ensures a / n < m
  {
    var q := a / n;
    assert a == q * n + a % n;
    if q >= m {
      MulLeft(m, q, n);
      assert false;
    }
  }

  // ---------------------------------------------------------------------
  // Properties of the axis index

  /**
   * The clamp is the identity on valid indices and sends every index at or
   * beyond the axis length to the last cell.
   */
  lemma ClampCases(t: nat, dim: nat)
    requires dim >= 1
    ensures t < dim <==> Clamp(t, dim) == t
    ensures t >= dim ==> Clamp(t, dim) == dim - 1
  {
  }

  /** The conversion never decreases when its argument grows. */
  lemma SaturatingCastMonotone(u: real, v: real)
    requires u <= v
    ensures SaturatingCast(u) <= SaturatingCast(v)
  {
  }

  /**
   * A coordinate in [0, 1) falls in the cell `floor(coord * dim)`, and that
   * cell contains it: `i / dim <= coord < (i + 1) / dim`.
   */
  lemma AxisIndexOfUnitCoord(coord: real, dim: nat)
    requires 1 <= dim <= USIZE_MAX
    requires 0.0 <= coord < 1.0
    ensures AxisIndex(coord, dim) == (coord * dim as real).Floor
    ensures AxisIndex(coord, dim) as real <= coord * dim as real < AxisIndex(coord, dim) as real + 1.0
  {
    var v := ScaleBelow(coord, dim);
    CastBelow(v, dim);
  }

  /** Below the axis length (so below 2^64) the conversion is the floor, and stays below the length. */
  lemma CastBelow(v: real, dim: nat)
    requires 1 <= dim <= USIZE_MAX
    requires 0.0 <= v < dim as real
    ensures SaturatingCast(v) == v.Floor
    ensures SaturatingCast(v) < dim
  {
    assert v < (USIZE_MAX + 1) as real;
    var t := SaturatingCast(v);
    if v == 0.0 {
      assert t == 0 == v.Floor;
    }
    assert t as real <= v;
  }

  /** Scaling a fraction of [0, 1) by the axis length stays inside [0, length). */
  lemma ScaleBelow(c: real, dim: nat) returns (v: real)
    requires 0.0 <= c < 1.0 && dim >= 1
    ensures v == c * dim as real
    ensures 0.0 <= v < dim as real
  {
    v := c * dim as real;
    var n := dim as real;
    var rest := 1.0 - c;
    assert rest * n > 0.0;
    assert c * n >= 0.0;
    assert rest * n == n - c * n;
  }

  /** A point of the half-open unit cube lies in cell `(floor(x*nx), floor(y*ny), floor(z*nz))`. */
  lemma CellAtOfUnitPoint(d: Dims, x: real, y: real, z: real)
    requires Positive(d) && FitsUsize(d)
    requires 0.0 <= x < 1.0 && 0.0 <= y < 1.0 && 0.0 <= z < 1.0
    ensures CellAt(d, x, y, z).x == (x * d.nx as real).Floor
    ensures CellAt(d, x, y, z).y == (y * d.ny as real).Floor
    ensures CellAt(d, x, y, z).z == (z * d.nz as real).Floor
  {
    var c := CellAt(d, x, y, z);
    assert c == Cell(AxisIndex(x, d.nx), AxisIndex(y, d.ny), AxisIndex(z, d.nz));
    AxisIndexOfUnitCoord(x, d.nx);
    AxisIndexOfUnitCoord(y, d.ny);
    AxisIndexOfUnitCoord(z, d.nz);
  }

  /** A coordinate whose scaled value reaches the axis length (1.0 or more) reads the last cell. */
  lemma AxisIndexAtOrPastEnd(coord: real, dim: nat)
    requires 1 <= dim <= USIZE_MAX
    requires coord >= 1.0
    ensures AxisIndex(coord, dim) == dim - 1
  {
    ScaleAtLeast(coord, dim as real);
  }

  /** Scaling by a positive factor keeps a value of at least 1 at or above the factor. */
  lemma ScaleAtLeast(c: real, n: real)
    requires c >= 1.0 && n > 0.0
    ensures c * n >= n
  {
    var extra := c - 1.0;
    assert extra * n >= 0.0;
    assert extra * n == c * n - n;
  }

  /** A coordinate at or below 0 (negative coordinates saturate) reads the first cell. */
  lemma AxisIndexAtOrBeforeStart(coord: real, dim: nat)
    requires dim >= 1
    requires coord <= 0.0
    ensures AxisIndex(coord, dim) == 0
  {
    ScaleAtMostZero(coord, dim as real);
  }

  /** Scaling a non-positive value by a positive factor keeps it non-positive. */
  lemma ScaleAtMostZero(c: real, n: real)
    requires c <= 0.0 && n > 0.0
    ensures c * n <= 0.0
  {
    assert (-c) * n >= 0.0;
    assert (-c) * n == -(c * n);
  }

  /**
   * A coordinate of [0, 1) close enough to 1 that its scaled value reaches
   * `dim - 1` (a coordinate of `1.0 - eps` for small `eps`) reads the last cell.
   */
  lemma AxisIndexNearEnd(coord: real, dim: nat)
    requires 1 <= dim <= USIZE_MAX
    requires 0.0 <= coord < 1.0
    requires (dim - 1) as real <= coord * dim as real
    ensures AxisIndex(coord, dim) == dim - 1
  {
    AxisIndexOfUnitCoord(coord, dim);
  }

  /** Larger coordinates never select an earlier cell. */
  lemma AxisIndexMonotone(c1: real, c2: real, dim: nat)
    requires dim >= 1
    requires c1 <= c2
    ensures AxisIndex(c1, dim) <= AxisIndex(c2, dim)
  {
    var u, v := ScaleMonotone(c1, c2, dim);
    SaturatingCastMonotone(u, v);
  }

  /** Scaling by an axis length keeps the order of two values. */
  lemma ScaleMonotone(c1: real, c2: real, dim: nat) returns (u: real, v: real)
    requires c1 <= c2 && dim >= 1
    ensures u == c1 * dim as real && v == c2 * dim as real
    ensures u <= v
  {
    var n := dim as real;
    u, v := c1 * n, c2 * n;
    assert (c2 - c1) * n >= 0.0;
    assert (c2 - c1) * n == v - u;
  }

  // ---------------------------------------------------------------------
  // Properties of the flattening

  /** A cell inside the grid is stored strictly before the end of the storage. */
  lemma FlattenInBounds(c: Cell, d: Dims)
    requires InGrid(c, d)
    ensures Flatten(c, d) < Volume(d)
  {
    StepBound(c.x, c.y, d.nx, d.ny);
    StepBound(c.x + c.y * d.nx, c.z, d.nx * d.ny, d.nz);
    assert c.z * d.nx * d.ny == c.z * (d.nx * d.ny);
  }

  /** Flattening then unflattening a cell of the grid gives the cell back. */
  lemma UnflattenFlatten(c: Cell, d: Dims)
    requires InGrid(c, d)
    ensures Unflatten(Flatten(c, d), d) == c
  {
    var nx, ny := d.nx, d.ny;
    var j := c.y + c.z * ny;
    assert Flatten(c, d) == j * nx + c.x by {
      assert j * nx == c.y * nx + c.z * ny * nx;
      assert c.z * ny * nx == c.z * nx * ny;
    }
    DivModOf(j, c.x, nx);
    DivModOf(c.z, c.y, ny);
  }

  /** Every position of the storage is the flattening of exactly the cell `Unflatten` gives. */
  lemma FlattenUnflatten(i: nat, d: Dims)
    requires Positive(d) && i < Volume(d)
    ensures InGrid(Unflatten(i, d), d)
    ensures Flatten(Unflatten(i, d), d) == i
  {
    var nx, ny, nz := d.nx, d.ny, d.nz;
    var j := i / nx;
    assert i == j * nx + i % nx;
    assert nx * (ny * nz) == Volume(d);
    DivBelow(i, nx, ny * nz);
    assert j == (j / ny) * ny + j % ny;
    DivBelow(j, ny, nz);
    var c := Unflatten(i, d);
    calc {
      Flatten(c, d);
      c.x + c.y * nx + c.z * nx * ny;
      { assert c.z * nx * ny == (c.z * ny) * nx; }
      c.x + (c.y + c.z * ny) * nx;
      i % nx + j * nx;
      i;
    }
  }

  /** Distinct cells of the grid are stored at distinct positions. */
  lemma FlattenInjective(c1: Cell, c2: Cell, d: Dims)
    requires InGrid(c1, d) && InGrid(c2, d)
    requires Flatten(c1, d) == Flatten(c2, d)
    ensures c1 == c2
  {
    UnflattenFlatten(c1, d);
    UnflattenFlatten(c2, d);
  }

  /** The origin cell is stored first and the far corner cell last. */
  lemma FlattenCorners(d: Dims)
    requires Positive(d)
    ensures Flatten(Cell(0, 0, 0), d) == 0
    ensures Flatten(Cell(d.nx - 1, d.ny - 1, d.nz - 1), d) == Volume(d) - 1
  {
    var nx, ny, nz := d.nx, d.ny, d.nz;
    var layer := nx * ny;
    MulPred(ny, nx);
    assert ny * nx == layer;
    MulPred(nz, layer);
    assert (nz - 1) * nx * ny == (nz - 1) * layer;
    assert nz * layer == Volume(d);
  }
}

/**
 * The scalar field: a flat vector of samples over a 3D lattice, the
 * nearest-cell sampler that the isosurface extractor queries, and the
 * generator that fills a fresh field with random values in [0, 1].
 */
module ScalarFieldModel {
  import opened Lattice

  /**
   * A grid of `f32` samples (modelled as reals) stored row-major in `data`,
   * together with the grid's resolution.
   */
  class ScalarField {
    var data: seq<real>
    var dimensions: Dims

    /** The storage holds exactly one sample per lattice cell. */
    ghost predicate WellFormed()
      reads this
    {
      |data| == Volume(dimensions)
    }

    /** The struct literal of the generator: no samples yet, resolution `dim`. */
    constructor (dim: Dims)
      ensures data == [] && dimensions == dim
    {
      data := [];
      dimensions := dim;
    }

    /** The stored sample of a cell of the grid. */
    function At(c: Cell): (v: real)
      reads this
      requires WellFormed() && InGrid(c, dimensions)
      ensures v in data
    {
      FlattenInBounds(c, dimensions);
      data[Flatten(c, dimensions)]
    }

    /**
     * Nearest-cell sampling at the normalised point (x, y, z): each
     * coordinate is scaled by its axis length, truncated and clamped to the
     * last cell, and the sample at the flattened cell is returned. The read
     * is always within `data`. Being a function, it leaves the field as it is.
     */
    function Sample(x: real, y: real, z: real): (v: real)
      reads this
      requires WellFormed() && Positive(dimensions)
      ensures v in data
    {
      data[SampleIndex(dimensions, x, y, z)]
    }
  }

  /** A value drawn from the closed interval [0.0, 1.0], as `gen_range(0.0..=1.0)` does. */
  predicate InUnitInterval(v: real) {
    0.0 <= v <= 1.0
  }

  /**
   * Builds a field of resolution `dim` and pushes one random sample per cell.
   * The random source is a nondeterministic choice of some value in [0, 1].
   */
  method GenerateScalarField(dim: Dims) returns (field: ScalarField)
    ensures fresh(field)
    ensures field.dimensions == dim
    ensures field.WellFormed() && |field.data| == dim.nx * dim.ny * dim.nz
    ensures forall i :: 0 <= i < |field.data| ==> InUnitInterval(field.data[i])
  {
    field := new ScalarField(dim);
    var n := dim.nx * dim.ny * dim.nz;
    for k := 0 to n
      invariant field.dimensions == dim
      invariant |field.data| == k
      invariant forall i :: 0 <= i < k ==> InUnitInterval(field.data[i])
    {
      var v: real :| InUnitInterval(v);
      field.data := field.data + [v];
    }
  }

  // -----------------------------------------------------------------------
  // Properties of sampling

  /**
   * A point of the half-open unit cube is sampled at the cell
   * `(floor(x*nx), floor(y*ny), floor(z*nz))`: the stored value of the
   * lattice cell that contains the point. `d` names the field's
   * dimensions.
   */
  lemma SampleOfUnitPoint(f: ScalarField, d: Dims, x: real, y: real, z: real)
    requires d == f.dimensions
    requires f.WellFormed() && Positive(d) && FitsUsize(d)
    requires 0.0 <= x < 1.0 && 0.0 <= y < 1.0 && 0.0 <= z < 1.0
    ensures CellAt(d, x, y, z).x == (x * d.nx as real).Floor
    ensures CellAt(d, x, y, z).y == (y * d.ny as real).Floor
    ensures CellAt(d, x, y, z).z == (z * d.nz as real).Floor
    ensures f.Sample(x, y, z) == f.At(CellAt(d, x, y, z))
  {
    CellAtOfUnitPoint(d, x, y, z);
  }

  /** A point on or beyond the far faces of the unit cube reads the last sample. */
  lemma SampleAtFarCorner(f: ScalarField, x: real, y: real, z: real)
    requires f.WellFormed() && Positive(f.dimensions) && FitsUsize(f.dimensions)
    requires x >= 1.0 && y >= 1.0 && z >= 1.0
    ensures f.Sample(x, y, z) == f.data[|f.data| - 1]
  {
    var d := f.dimensions;
    AxisIndexAtOrPastEnd(x, d.nx);
    AxisIndexAtOrPastEnd(y, d.ny);
    AxisIndexAtOrPastEnd(z, d.nz);
    FlattenCorners(d);
  }

  /**
   * A point of [0, 1)^3 close enough to the far corner that every scaled
   * coordinate reaches the last cell (`1.0 - eps` on each axis for small
   * `eps`) reads the last sample.
   */
  lemma SampleNearFarCorner(f: ScalarField, x: real, y: real, z: real)
    requires f.WellFormed() && Positive(f.dimensions) && FitsUsize(f.dimensions)
    requires 0.0 <= x < 1.0 && 0.0 <= y < 1.0 && 0.0 <= z < 1.0
    requires (f.dimensions.nx - 1) as real <= x * f.dimensions.nx as real
    requires (f.dimensions.ny - 1) as real <= y * f.dimensions.ny as real
    requires (f.dimensions.nz - 1) as real <= z * f.dimensions.nz as real
    ensures f.Sample(x, y, z) == f.data[|f.data| - 1]
  {
    var d := f.dimensions;
    AxisIndexNearEnd(x, d.nx);
    AxisIndexNearEnd(y, d.ny);
    AxisIndexNearEnd(z, d.nz);
    FlattenCorners(d);
  }

  /** A point on or before the near faces of the unit cube reads the first sample. */
  lemma SampleAtOrigin(f: ScalarField, x: real, y: real, z: real)
    requires f.WellFormed() && Positive(f.dimensions)
    requires x <= 0.0 && y <= 0.0 && z <= 0.0
    ensures f.Sample(x, y, z) == f.data[0]
  {
    var d := f.dimensions;
    AxisIndexAtOrBeforeStart(x, d.nx);
    AxisIndexAtOrBeforeStart(y, d.ny);
    AxisIndexAtOrBeforeStart(z, d.nz);
    FlattenCorners(d);
  }

  /** Every stored sample is the value of exactly one cell of the grid. */
  lemma EverySampleHasOneCell(f: ScalarField, i: nat)
    requires f.WellFormed() && Positive(f.dimensions) && i < |f.data|
    ensures InGrid(Unflatten(i, f.dimensions), f.dimensions)
    ensures f.At(Unflatten(i, f.dimensions)) == f.data[i]
    ensures forall c :: InGrid(c, f.dimensions) && Flatten(c, f.dimensions) == i ==> c == Unflatten(i, f.dimensions)
  {
    var d := f.dimensions;
    FlattenUnflatten(i, d);
    forall c | InGrid(c, d) && Flatten(c, d) == i
      ensures c == Unflatten(i, d)
    {
      UnflattenFlatten(c, d);
    }
  }

  /** Sampling a field whose stored values all lie in [0, 1], as generated fields' do, returns a value in [0, 1]. */
  lemma GeneratedSampleInUnitInterval(f: ScalarField, x: real, y: real, z: real)
    requires f.WellFormed() && Positive(f.dimensions)
    requires forall i :: 0 <= i < |f.data| ==> InUnitInterval(f.data[i])
    ensures InUnitInterval(f.Sample(x, y, z))
  {
    var i := SampleIndex(f.dimensions, x, y, z);
    assert f.Sample(x, y, z) == f.data[i];
  }
}

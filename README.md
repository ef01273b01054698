# scalar_field — a Dafny model of the scalar-field domain model

The program generates a random 3D scalar field, hands it to an external
marching-cubes extractor as a point sampler, and renders the iso-surfaces
at four iso-values with colours from a small colour map. The logic the
program owns, and which is modelled here, is:

- **`ScalarField`** (`scalar_field.dfy`, module `ScalarFieldModel`): a flat
  `data` vector of samples and the grid `dimensions` `(nx, ny, nz)`, stored
  row-major at `x + y*nx + z*nx*ny`. It is a `class` because the generator
  pushes into its `data` field in place.
- **`sample`**: each normalised coordinate is multiplied by the axis length,
  converted to `usize` (a saturating truncation), clamped to `dim - 1`, and
  the three indices are flattened to read one element of `data`. The index
  arithmetic lives in `lattice.dfy` (module `Lattice`); `ScalarField.Sample`
  is a function with `reads this`, so it cannot change the field. The
  central fact is memory safety: with every axis at least 1 long and
  `|data| == nx*ny*nz`, the flattened index is always below `|data|`
  (`Lattice.SampleIndex`, proved through `Lattice.FlattenInBounds`).
- **`generate_scalar_field`**: a method that builds the field with empty
  data and pushes `nx*ny*nz` values, each some value of `[0, 1]` (the random
  draw is a nondeterministic choice).
- **`custom_color`** (`color.dfy`, module `ColorMap`): `(1 - v, v, 0)`,
  stated as the linear blend from red to green.

Modelling decisions:

- `f32` values are reals; `usize` values are `nat`, with `USIZE_MAX` written
  out where the float-to-integer cast saturates (`v <= 0` gives 0,
  `v >= 2^64` gives `USIZE_MAX`, otherwise truncation).
- The sampler clamps every index, and so does the model. The comment at
  src/main.rs:65 says the clamp prevents out-of-bounds reads: without it a
  coordinate of 1.0 would give index `dim` on that axis and could index past
  the end of `data`.
- `generate_scalar_field` accepts any dimensions, as the code does: with an
  axis of length 0 it returns a field with no samples (`Lattice.Volume` is
  0 exactly when some axis is 0).
- `sample` with an axis of length 0 underflows at `dim - 1`; the model
  requires `Positive(dimensions)` instead of modelling the panic.

## Model

| member | source | states |
|---|---|---|
| Lattice.SaturatingCast | src/main.rs:66-68 | `as usize` never exceeds `USIZE_MAX`, and for an argument in `[0, 2^64)` it is the floor: `t <= v < t + 1` |
| Lattice.SaturatingCastMonotone | src/main.rs:66-68 | the conversion is monotone in its argument |
| Lattice.Clamp | src/main.rs:66-68 | `t.min(dim - 1)` is a valid index of the axis, not above `t`, and is either `t` or the last index |
| Lattice.ClampCases | src/main.rs:66-68 | the clamp leaves `t` unchanged exactly when `t < dim`, and sends `t >= dim` to `dim - 1` |
| Lattice.AxisIndex | src/main.rs:66-68 | the per-axis index is at most `dim - 1` whatever the coordinate, given `dim >= 1` |
| Lattice.AxisIndexOfUnitCoord | src/main.rs:66-68 | a coordinate in `[0, 1)` maps to `floor(coord * dim)`, and that cell contains it |
| Lattice.AxisIndexAtOrPastEnd | src/main.rs:66-68 | a coordinate of 1.0 or more maps to the last cell `dim - 1` |
| Lattice.AxisIndexAtOrBeforeStart | src/main.rs:66-68 | a coordinate of 0 or less (negatives saturate to 0) maps to cell 0 |
| Lattice.AxisIndexMonotone | src/main.rs:66-68 | a larger coordinate never selects an earlier cell |
| Lattice.Volume | src/main.rs:77-80 | `dim.0 * dim.1 * dim.2`, the number of samples; it is 0 exactly when some axis has length 0 |
| Lattice.Flatten | src/main.rs:70 | the row-major index `x + y*nx + z*nx*ny`; its properties are stated by `FlattenInBounds`, `UnflattenFlatten`, `FlattenUnflatten`, `FlattenInjective` and `FlattenCorners` |
| Lattice.AxisIndexNearEnd | src/main.rs:66-68 | a coordinate `1.0 - eps` of `[0, 1)` whose scaled value reaches `dim - 1` maps to the last cell |
| Lattice.CellAt | src/main.rs:66-68 | the three clamped indices form a cell inside the grid |
| Lattice.CellAtOfUnitPoint | src/main.rs:66-68 | a point of `[0, 1)^3` selects cell `(floor(x*nx), floor(y*ny), floor(z*nz))` |
| Lattice.SampleIndex | src/main.rs:66-70 | the flattened index that `sample` reads is strictly below `nx*ny*nz` |
| Lattice.FlattenInBounds | src/main.rs:70 | every cell of the grid flattens to a position below `nx*ny*nz` |
| Lattice.UnflattenFlatten | src/main.rs:70 | decomposing the flattened index of a cell gives the cell back |
| Lattice.FlattenUnflatten | src/main.rs:70 | every position below `nx*ny*nz` is the flattened index of a cell of the grid |
| Lattice.FlattenInjective | src/main.rs:70 | distinct cells are stored at distinct positions |
| Lattice.FlattenCorners | src/main.rs:70 | the origin cell is stored at position 0 and the far corner at `nx*ny*nz - 1` |
| ScalarFieldModel.ScalarField.constructor | src/main.rs:76-79 | a new field has no samples and the given dimensions |
| ScalarFieldModel.ScalarField.At | src/main.rs:70 | the sample of a grid cell is read within `data` |
| ScalarFieldModel.ScalarField.Sample | src/main.rs:64-71 | sampling a well-formed field reads an element of `data`, never outside it, and changes nothing |
| ScalarFieldModel.SampleOfUnitPoint | src/main.rs:64-71 | a point of `[0, 1)^3` is sampled at the stored value of cell `(floor(x*nx), floor(y*ny), floor(z*nz))`, the cell that contains it |
| ScalarFieldModel.SampleAtFarCorner | src/main.rs:64-71 | a point with every coordinate 1.0 or more reads the last element of `data` |
| ScalarFieldModel.SampleNearFarCorner | src/main.rs:64-71 | a point `(1 - eps, 1 - eps, 1 - eps)` of `[0, 1)^3` whose scaled coordinates reach the last cell on every axis reads the last element of `data` |
| ScalarFieldModel.SampleAtOrigin | src/main.rs:64-71 | a point with every coordinate 0 or less reads the first element of `data` |
| ScalarFieldModel.EverySampleHasOneCell | src/main.rs:70 | every element of `data` is the sample of exactly one grid cell |
| ScalarFieldModel.GenerateScalarField | src/main.rs:74-84 | the new field has the given dimensions, exactly `nx*ny*nz` samples, and every sample in `[0, 1]` |
| ScalarFieldModel.GeneratedSampleInUnitInterval | src/main.rs:64-84 | sampling a field whose samples all lie in `[0, 1]`, as generated ones do, returns a value in `[0, 1]` |
| ColorMap.CustomColor | src/main.rs:86-88 | the colour is the blend a fraction `value` of the way from red to green |
| ColorMap.CustomColorEndpoints | src/main.rs:86-88 | value 0 is red, value 1 is green, value 0.5 is `(0.5, 0.5, 0)` |
| ColorMap.CustomColorInRange | src/main.rs:86-88 | on `[0, 1]` the components are intensities in `[0, 1]`, red plus green is 1, blue is 0 |
| ColorMap.CustomColorMonotone | src/main.rs:86-88 | red falls and green rises as the value grows |
| ColorMap.CustomColorInjective | src/main.rs:86-88 | distinct values get distinct colours |

## Left out

- `main` (src/main.rs:10-56): window creation, the cube, lighting, the
  iso-value loop and the render loop are calls into the rendering toolkit.
- Marching-cubes extraction (src/main.rs:31-34) belongs to an external
  library whose source is not part of this model.
- Regrouping the extractor's output into points and triangles with
  `chunks(3)`, and the `as u16` index cast (src/main.rs:36-44): they only
  adapt external output to the renderer's mesh type; the cast truncates
  indices above 65535, which no contract here states.
- `Rc<RefCell<..>>` mesh ownership (src/main.rs:49): renderer plumbing.
- Randomness (src/main.rs:75, 81): `thread_rng` and `gen_range` are external;
  each draw is modelled as an arbitrary value of `[0, 1]`, so nothing is said
  about the distribution or independence of the draws.
- `f32` arithmetic: the rounding of `x * dim as f32`, of `dim as f32` for very
  large dimensions, and of `1.0 - value` are not modelled; the arithmetic is
  exact over reals. NaN coordinates (which `as usize` maps to 0) and
  infinite coordinates (which saturate to 0 or `usize::MAX`) have no real
  counterpart; the clamp would send them to the first or the last cell.
- `USIZE_MAX` fixes a 64-bit target; on a 32-bit target the cast saturates
  at 2^32 - 1 instead, which the clamp absorbs in the same way.
- `Vec::with_capacity` (src/main.rs:77): the reserved capacity is not
  observable through the model.
- ScalarFieldModel.GenerateScalarField: the `usize` product `dim.0 * dim.1 * dim.2` is taken
  over unbounded integers, so its overflow for enormous dimensions (a panic
  in debug builds, wrap-around in release builds) is not modelled.
- ScalarFieldModel.ScalarField.Sample: requires every axis length to be at least 1 instead of
  modelling the underflow of `dim - 1` for a zero-length axis.

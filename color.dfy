/**
 * The colour map of the iso-surfaces: an iso-value in [0, 1] is shown as a
 * colour on the straight line from pure red (value 0) to pure green
 * (value 1). Components are `f32` in the program and reals here.
 */
module ColorMap {

  datatype Rgb = Rgb(r: real, g: real, b: real)

  const Red := Rgb(1.0, 0.0, 0.0)
  const Green := Rgb(0.0, 1.0, 0.0)

  /** The point a fraction `t` of the way from colour `a` to colour `b`. */
  function Mix(a: Rgb, b: Rgb, t: real): Rgb {
    Rgb(a.r + t * (b.r - a.r), a.g + t * (b.g - a.g), a.b + t * (b.b - a.b))
  }

  /** `Vector3::new(1.0 - value, value, 0.0)`: linear, and not clamped outside [0, 1]. */
  function CustomColor(value: real): (c: Rgb)
    ensures c == Mix(Red, Green, value)
  {
    Rgb(1.0 - value, value, 0.0)
  }

  /** Both ends of the value range, and its middle. */
  lemma CustomColorEndpoints()
    ensures CustomColor(0.0) == Red
    ensures CustomColor(1.0) == Green
    ensures CustomColor(0.5) == Rgb(0.5, 0.5, 0.0)
  {
  }

  /** Within [0, 1] every component is a valid intensity, red and green add up to 1, and blue is 0. */
  lemma CustomColorInRange(value: real)
    requires 0.0 <= value <= 1.0
    ensures var c := CustomColor(value);
      0.0 <= c.r <= 1.0 && 0.0 <= c.g <= 1.0 && c.r + c.g == 1.0 && c.b == 0.0
  {
  }

  /** Red falls and green rises as the value grows. */
  lemma CustomColorMonotone(v1: real, v2: real)
    requires v1 <= v2
    ensures CustomColor(v1).r >= CustomColor(v2).r
    ensures CustomColor(v1).g <= CustomColor(v2).g
  {
  }

  /** Distinct values get distinct colours, so the four iso-surfaces are told apart. */
  lemma CustomColorInjective(v1: real, v2: real)
    requires CustomColor(v1) == CustomColor(v2)
    ensures v1 == v2
  {
  }
}

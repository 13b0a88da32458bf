/** Encoded straight RGB over the reals, and the controls' declared range. */
module Colour {

  datatype Rgb = Rgb(red: real, green: real, blue: real)

  datatype Channel = Red | Green | Blue

  function Component(p: Rgb, c: Channel): real {
    match c case Red => p.red case Green => p.green case Blue => p.blue
  }

  /** A control clamped into [0, 1]. */
  function Clamped(value: real): (r: real)
    ensures 0.0 <= r <= 1.0
    ensures 0.0 <= value <= 1.0 ==> r == value
  {
    if value < 0.0 then 0.0 else if value > 1.0 then 1.0 else value
  }
}

/** Points of the plane. */
module Plane {
  datatype Point = Point(x: real, y: real)
}

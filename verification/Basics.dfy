/** What several components share. */
module Basics {

  datatype Option<+T> = None | Some(value: T)

  const INT_MIN: int := -0x8000_0000
  const INT_MAX: int := 0x7fff_ffff

  /** A position in millionths of a degree (FixedPointCoordinate). */
  datatype Coordinate = Coordinate(lat: int, lon: int)

  function Min(a: int, b: int): int {
    if a < b then a else b
  }

  function Max(a: int, b: int): int {
    if a < b then b else a
  }
}

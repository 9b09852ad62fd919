module Positions {
  datatype Pos = Pos(x: int, y: int, z: int)
}

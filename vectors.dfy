/** Three-component vectors over exact reals: positions, velocities and
    directions of the scene. Distances are compared squared, so no square
    root is ever taken. */
module Vectors {

  datatype Vec3 = Vec3(x: real, y: real, z: real)

  function Add(p: Vec3, q: Vec3): Vec3 {
    Vec3(p.x + q.x, p.y + q.y, p.z + q.z)
  }

  function Sub(p: Vec3, q: Vec3): Vec3 {
    Vec3(p.x - q.x, p.y - q.y, p.z - q.z)
  }

  function Scale(p: Vec3, k: real): Vec3 {
    Vec3(p.x * k, p.y * k, p.z * k)
  }

  /** The squared length of `p` (the square of three.js `length()`). */
  function NormSq(p: Vec3): real {
    p.x * p.x + p.y * p.y + p.z * p.z
  }

  /** The squared distance between two points (the square of `distanceTo`). */
  function DistSq(p: Vec3, q: Vec3): real {
    NormSq(Sub(p, q))
  }
}

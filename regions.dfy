/**
 * Integer vectors and axis-aligned voxel regions, the geometry the format layer
 * reads: a region is valid when its lower corner does not exceed its upper corner
 * on any axis, and it spans `upper - lower + 1` voxels on each axis.
 */
module Regions {

  datatype Vec3 = Vec3(x: int, y: int, z: int)

  datatype Region = Region(lower: Vec3, upper: Vec3)

  predicate IsValid(r: Region) {
    r.lower.x <= r.upper.x && r.lower.y <= r.upper.y && r.lower.z <= r.upper.z
  }

  /** The number of voxels the region spans on each axis (both corners included). */
  function Dimensions(r: Region): (d: Vec3)
    ensures IsValid(r) <==> d.x >= 1 && d.y >= 1 && d.z >= 1
  {
    Vec3(r.upper.x - r.lower.x + 1, r.upper.y - r.lower.y + 1, r.upper.z - r.lower.z + 1)
  }

  /** Component-wise `a <= b` on all three axes. */
  predicate AllLessEqual(a: Vec3, b: Vec3) {
    a.x <= b.x && a.y <= b.y && a.z <= b.z
  }

  predicate AllPositive(v: Vec3) {
    v.x > 0 && v.y > 0 && v.z > 0
  }

  /** A region fits a maximum size when its dimensions do not exceed it on any axis. */
  predicate FitsWithin(r: Region, maxSize: Vec3) {
    AllLessEqual(Dimensions(r), maxSize)
  }
}

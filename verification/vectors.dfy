/** The vector payloads of the geometry chunks. Their components are floats
    whose encoding lives outside this model, so each vector is kept as the
    fixed-width bytes its reader consumes and its writer produces. */
module Vectors {
  import opened Binary

  /** Two 32-bit components. */
  const Vector2Size: nat := 8

  /** Three 32-bit components. */
  const Vector3Size: nat := 12

  datatype Vector2 = Vector2(raw: seq<byte>)

  datatype Vector3 = Vector3(raw: seq<byte>)

  predicate IsVector2(v: Vector2) {
    |v.raw| == Vector2Size
  }

  predicate IsVector3(v: Vector3) {
    |v.raw| == Vector3Size
  }
}

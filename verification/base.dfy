/** Shared vocabulary: the byte type the renderer and cell states store, and
    the error outcome that stands for a Rust panic on an out-of-range index. */
module Base {

  /** Rust's `u8`. */
  type U8 = x: int | 0 <= x < 256

  /** Why an operation panicked: an index outside a buffer of length `len`. */
  datatype Fault = IndexOutOfBounds(index: int, len: int)

  /** The outcome of an operation that may panic in the source. */
  datatype Result<T> = Ok(value: T) | Err(error: Fault)
}

/** Bevy's `IVec3`, reduced to what the automaton uses: component-wise
    addition, subtraction and negation. Components are unbounded integers. */
module Vec3 {

  datatype IVec3 = IVec3(x: int, y: int, z: int)

  const Zero: IVec3 := IVec3(0, 0, 0)

  function Splat(v: int): IVec3 {
    IVec3(v, v, v)
  }

  function Add(a: IVec3, b: IVec3): IVec3 {
    IVec3(a.x + b.x, a.y + b.y, a.z + b.z)
  }

  function Sub(a: IVec3, b: IVec3): IVec3 {
    IVec3(a.x - b.x, a.y - b.y, a.z - b.z)
  }

  function Neg(a: IVec3): IVec3 {
    IVec3(-a.x, -a.y, -a.z)
  }
}

/** Values shared by the swarm coordinator and the player controller. */
module Common {

  /** A point on the screen plane; the source's third coordinate is always 0 and is dropped. */
  datatype Vec2 = Vec2(x: real, y: real)

  datatype Option<T> = None | Some(value: T)

  /** Absolute value, as `f32::abs`. */
  function Abs(v: real): (r: real)
    ensures r >= 0.0
    ensures r == v || r == -v
  {
    if v < 0.0 then -v else v
  }
}

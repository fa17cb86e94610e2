/** Value types shared by the colour helpers, the fill engine and the server-image decoder. */
module Types {

  /** One channel of an RGBA sample, as stored in a canvas `ImageData` buffer. */
  type Byte = x: int | 0 <= x < 256

  /** An integer pixel coordinate `(x, y)`: origin top-left, y grows downwards. */
  type Point = (int, int)

  datatype Option<T> = None | Some(value: T)

  function Abs(x: int): (r: nat)
    ensures r == x || r == -x
  {
    if x < 0 then -x else x
  }
}

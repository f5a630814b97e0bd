/** The bounds the sources put on numbers. */
module Numbers {

  function Max(a: int, b: int): int {
    if a < b then b else a
  }

  function Least(a: int, b: int): int {
    if a < b then a else b
  }

  function AtLeastZero(x: real): real {
    if x < 0.0 then 0.0 else x
  }
}

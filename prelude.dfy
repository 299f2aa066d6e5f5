/** Small value types shared by the model: optional values, .NET-style
    failures surfaced as results, and integer maximum. */
module Prelude {

  datatype Option<+T> = None | Some(value: T)

  /** The two exceptions the modelled code can raise: `ArgumentException`
      from `ToDictionary` on a repeated key, and
      `ArgumentOutOfRangeException` from `DateTime` arithmetic that leaves
      the representable range. */
  datatype Error = DuplicateKey | ArgumentOutOfRange

  datatype Result<+T> = Ok(value: T) | Err(error: Error)

  /** `Math.Max` on integers. */
  function Max(a: int, b: int): (m: int)
    ensures m >= a && m >= b
    ensures m == a || m == b
  {
    if a >= b then a else b
  }

  /** The whole numbers from `a` to `b`, both included. */
  function Range(a: int, b: int): (r: set<int>)
    ensures forall k :: k in r <==> a <= k <= b
    ensures a <= b + 1 ==> |r| == b - a + 1
    decreases b - a
  {
    if b < a then {} else Range(a, b - 1) + {b}
  }
}

/** Small value wrappers shared by the model: an optional value, a result with
    an error message, and the "one value or an array of values" shape that the
    game data uses for phrases, prerequisites and alias lists. */
module Wrappers {

  datatype Option<+T> = None | Some(value: T)

  datatype Result<+R> = Success(value: R) | Failure(error: string)

  /** A JSON-like field that holds either a single value or an array of them. */
  datatype OneOrMany<+T> = One(single: T) | Many(items: seq<T>)

  /** `toArray`: a single value becomes a one-element list, an array is kept. */
  function ToArray<T>(x: OneOrMany<T>): seq<T>
  {
    match x
    case One(v) => [v]
    case Many(vs) => vs
  }
}

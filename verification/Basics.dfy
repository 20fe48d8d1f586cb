/** Datatypes that several parts of the model share. */
module Basics {
  datatype Option<T> = None | Some(value: T)

  /** `SkPoint`, with real coordinates. */
  datatype Point = Point(x: real, y: real)
}

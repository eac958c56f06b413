/** Java references that may be `null`, as values. */
module Nullable {

  /** `None` stands for Java's `null`. */
  datatype Option<+T> = None | Some(value: T)

  /** A Java `String` field or variable, which may hold `null`. */
  type JString = Option<string>
}

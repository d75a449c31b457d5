/** Values that stand in for Java's nullable references. */
module Wrappers {

  /** A reference that may be null: `None` is Java's `null`. */
  datatype Option<+T> = None | Some(value: T)

  /** The argument of an `equals(Object)` call: null, an object of some other
      class, or an object of the receiver's own class. */
  datatype Obj<+T> = Null | OfOtherClass | Of(value: T)
}

/** The small part of the DOM both scripts touch, as plain values. */
module Dom {

  /** A possibly absent element, attribute or global (`null`/`undefined`). */
  datatype Option<T> = None | Some(value: T)

  /** A direct child element of `main`: its tag, its class list and its text. */
  datatype Child = Child(tag: string, classes: seq<string>, text: string)
}

/** How a driver call ends. */
module Signals {
  /** `Ordinary` is an `Exception`; `Base` is a `BaseException` that is not, such as a
      cancellation. The tag identifies the raised object. */
  datatype Signal = Fine | Ordinary(tag: int) | Base(tag: int)
}

/** Failure-carrying datatypes shared by the modules of the model, and the
    Python exception kinds that the modelled library raises or lets through. */
module Wrappers {

  datatype Option<+T> = None | Some(value: T)

  datatype Result<+T, +E> = Success(value: T) | Failure(error: E)

  /** Outcome of an operation that returns nothing but may raise. */
  datatype Outcome<+E> = Pass | Fail(error: E)

  /** The exception classes that the library raises, or that escape from the
      built-ins it calls. */
  datatype PyError =
    | IndexError          // list index out of range, `l[0]` of an empty list
    | ValueError          // explicit `raise ValueError`, `list.index` miss, bad unpacking
    | TypeError           // explicit `raise TypeError`
    | ZeroDivisionError   // float division by zero
    | UnboundLocalError   // a local read before any assignment
    | StopIteration       // `Biter.next` / `Biter.prev` at an end
    | NoItemsLeft         // `NoItemsLeftException` of the random module
}

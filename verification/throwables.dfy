/** The Java throwables the toolkit raises, catches or tests with `instanceof`.
    A throwable is a value: its class, its message and an optional cause. */
module Throwables {
  import opened Wrappers

  datatype ExceptionClass =
    | RuntimeException
    | IllegalArgumentException
    | IllegalStateException
    | NullPointerException
    | IndexOutOfBoundsException
    | CancellationException
    | RejectedExecutionException
    | InterruptedException
    | ExecutionException
    | TimeoutException
    | CheckedException
    | Error

  /** `instanceof RuntimeException`: the unchecked exception classes. */
  predicate IsRuntime(c: ExceptionClass) {
    c in {RuntimeException, IllegalArgumentException, IllegalStateException, NullPointerException,
          IndexOutOfBoundsException, CancellationException, RejectedExecutionException}
  }

  /** `instanceof Exception`: everything except `Error`. */
  predicate IsException(c: ExceptionClass) {
    c != Error
  }

  datatype Throwable = Throwable(cls: ExceptionClass, message: string, cause: Option<Throwable>)

  /** A freshly constructed throwable with no cause. */
  function Raise(cls: ExceptionClass, message: string): Throwable {
    Throwable(cls, message, None)
  }
}

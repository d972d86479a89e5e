/**
 This module holds the types and constants shared by the delayed-task engine:
 the Task record, the timestamp it carries, the opaque callback handle and the
 small failure-compatible wrappers every operation returns.
 */
module Config {

  /** C's `unsigned short`. */
  type u16 = x: int | 0 <= x < 0x1_0000

  const U16Modulus: int := 0x1_0000

  /** Size of the task array and of the id storage array in the shipped build. */
  const MaxTaskQuantity: nat := 50
  /** A registered or rescheduled delay must exceed this before a re-sort is considered. */
  const MinDelayForSort: nat := 50
  /** Seconds to milliseconds. */
  const RatioSecMs: nat := 1000
  /** Nanoseconds to milliseconds. */
  const RatioNanosecMsec: nat := 1000000

  datatype Option<+T> = None | Some(value: T)

  datatype Result<+R, +E> = Success(value: R) | Failure(error: E)

  /** A `struct timespec` as filled in by `timespec_get`. */
  datatype Timespec = Timespec(sec: int, nsec: int)

  /**
   The callback is a function pointer in the program; here it is an opaque
   handle whose only observable property is its identity. `NullCallback` is
   what a zeroed Task holds.
   */
  datatype Callback = NullCallback | Callback(handle: nat)

  /** One pending delayed invocation. */
  datatype Task = Task(
    callback: Callback,
    funcArg: u16,
    delay: u16,
    id: u16,
    createdTimespec: Timespec)

  /** The value of `(Task){0}`. */
  const ZeroTask: Task := Task(NullCallback, 0, 0, 0, Timespec(0, 0))
}

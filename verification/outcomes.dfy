/**
 * Results shared by the models: an optional value (a C pointer that may
 * be NULL) and the outcome of code that can dereference NULL, read past
 * the end of a string or store through a failed `mem_sbrk`.
 */
module Outcomes {
  datatype Option<T> = None | Some(value: T)

  /** `Fault` is a step the C code takes into undefined behaviour. */
  datatype Outcome<T> = Done(value: T) | Fault
}

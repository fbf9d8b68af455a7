/** The ways a call into the fixed-width codec can end. */
module Outcomes {

  /** `Done` carries the call's result. `Panic` is a failed `assert_eq!` (or a failed
      slice copy) and records the two lengths it compared: the length the type needs
      and the length it was given. `OutOfBounds` is a read past the end of a slice,
      which is undefined behaviour rather than a panic. */
  datatype Outcome<+T> =
    | Done(value: T)
    | Panic(expected: nat, actual: nat)
    | OutOfBounds(needed: nat, available: nat)
}

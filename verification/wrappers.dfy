// The vocabulary shared by all modules.
module Wrappers {
  datatype Option<+T> = None | Some(value: T)

  /** How a call ends: it returns a value, or it runs into an `expect`, `assert!`,
      `unwrap`, an explicit `panic!` or a checked-arithmetic panic. */
  datatype Outcome<+T> = Returned(value: T) | Panicked

  type Byte = b: nat | b < 256

  function Min(a: nat, b: nat): nat { if a < b then a else b }

  function Max(a: nat, b: nat): nat { if a > b then a else b }

  ghost predicate NoRepeats<T>(s: seq<T>) {
    forall i, j | 0 <= i < j < |s| :: s[i] != s[j]
  }
}

/** Shared value types and units. */
module Prelude {
  const NANOS_PER_SEC := 1_000_000_000

  datatype Option<+T> = None | Some(value: T)
}

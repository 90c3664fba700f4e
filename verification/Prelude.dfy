/** Result types and sequence facts shared by the modelled components. */
module Prelude {

  datatype Option<+T> = None | Some(value: T)

  /** The Rust `anyhow::Result`: every `bail!` becomes an `Err` with its reason. */
  datatype Result<+T> = Ok(value: T) | Err(error: Error)

  datatype Error =
    | ShapeMismatch(expected: nat, got: nat)
    | InvalidFree(addr: int)
    | Unallocated(addr: int)
    | NoWorkers
    | CodegenFailed

  lemma Regroup<T>(x: seq<T>, y: seq<T>, z: seq<T>)
    ensures x + (y + z) == x + y + z
  {}
}

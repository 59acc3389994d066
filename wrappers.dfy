/** Small shared types: optional values and bytes. */
module Wrappers {

  /** An optional value, standing for JavaScript's `undefined`/`null` results. */
  datatype Option<+T> = None | Some(value: T)

  /** One element of a `Uint8Array` / `Uint8ClampedArray`. */
  newtype byte = b: int | 0 <= b < 256
}

/** Failure-carrying values for the encoder. Every `Fault` stands for a point
    at which the Rust program panics (an arithmetic underflow in debug builds
    or an out-of-bounds `Vec` index); the model returns it instead. */
module Results {

  datatype Option<+T> = None | Some(value: T)

  datatype Fault =
    /** `1 + (ch as usize) - ('a' as usize)` underflowed in the cell loop. */
    | CellRunUnderflow
    /** `(ch as usize) - ('a' as usize)` underflowed for this hint character. */
    | SkipUnderflow(ch: char)
    /** `vars[index]` was read with only `len` atoms decoded. */
    | IndexOutOfBounds(index: nat, len: nat)

  datatype Result<+T> = Ok(value: T) | Err(fault: Fault)
}

/** Machine-level types shared by the scheduler and the syscall layer.

    The kernel targets a 64-bit RISC-V machine, so `usize` is 64 bits wide.
    Dafny integers are unbounded; the subset types below carry the width
    explicitly so that every value the model produces fits the Rust type it
    stands for.
 */
module KernelTypes {

  /** Largest value of a 64-bit `usize` (`core::usize::MAX`). */
  const USIZE_MAX: nat := 0xFFFF_FFFF_FFFF_FFFF

  /** Largest value of a `u32`. */
  const U32_MAX: nat := 0xFFFF_FFFF

  type Usize = x: nat | x <= USIZE_MAX

  type U32 = x: nat | x <= U32_MAX

  /** Rust's `Option`; for a raw output pointer, `None` stands for null. */
  datatype Option<+T> = None | Some(value: T)
}

/** The fixed-width unsigned integers of the Rust source, as subset types of
    `int` so that arithmetic on them is unbounded until it is checked. */
module BoundedInts {

  const TWO_TO_THE_8: int := 0x100
  const TWO_TO_THE_16: int := 0x1_0000

  /** A Rust `u8`: one byte of a log line. */
  type uint8 = x: int | 0 <= x < TWO_TO_THE_8

  /** A Rust `u16`: an HTTP status code as the metrics label stores it. */
  type uint16 = x: int | 0 <= x < TWO_TO_THE_16

  const UINT16_MAX: uint16 := TWO_TO_THE_16 - 1
}

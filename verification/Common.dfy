/** What several parts of the model share: optional values and the sizes of machine words. */
module Common {

  datatype Option<+T> = None | Some(value: T)

  /** The number of values of a `uint16_t` and of a `uint32_t`. */
  const TWO16: int := 0x1_0000
  const TWO32: int := 0x1_0000_0000
}

/** What both halves of the model share: an optional value, and the width of an integer. */
module Basics {
  datatype Option<+T> = None | Some(value: T)

  const TWO63 := 0x8000_0000_0000_0000
  const TWO64 := 0x1_0000_0000_0000_0000
}

/** What several parts share. */
module Basics {

  datatype Option<T> = None | Some(value: T)

  const TWO64: nat := 0x1_0000_0000_0000_0000
}

/** The values every part of the model shares. */
module Prelude {

  type Byte = x: int | 0 <= x < 0x100
  type Word = x: int | 0 <= x < 0x10000

  const UINT32 := 0x1_0000_0000

  type Uint32 = x: int | 0 <= x < UINT32

  datatype Option<+T> = None | Some(value: T)
}

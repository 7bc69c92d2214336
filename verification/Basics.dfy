// Types that several parts of the model share.

module Numbers {
  // Machine integers as storage. Arithmetic is done on int, as C++ promotes; only what is
  // stored has to fit, so every store carries a proof that nothing is truncated.
  type u8 = x: int | 0 <= x < 0x100
  type u16 = x: int | 0 <= x < 0x1_0000
  type u32 = x: int | 0 <= x < 0x1_0000_0000
  type u64 = x: int | 0 <= x < 0x1_0000_0000_0000_0000
  type s32 = x: int | -0x8000_0000 <= x < 0x8000_0000
}

module Options {
  datatype Option<T> = None | Some(value: T)
}

module Positions {
  // v3s16, without its bounds.
  datatype Pos = Pos(x: int, y: int, z: int)
}

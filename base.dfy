/** Machine integer widths and the small result types shared by every module. */
module Base {

  /** Rust `u8`, `u16`, `u32` and `i32`: every value a model stores stays in range. */
  type u8 = x: int | 0 <= x < 0x100
  type u16 = x: int | 0 <= x < 0x1_0000
  type u32 = x: int | 0 <= x < 0x1_0000_0000
  type i32 = x: int | -0x8000_0000 <= x < 0x8000_0000

  datatype Option<+T> = None | Some(value: T)

  /** Rust `Result<(), ()>`: the only result type the router layer returns. */
  datatype Outcome = Ok | Err
}

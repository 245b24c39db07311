/** The terminal screen the game draws on: a frame buffer of SCREEN_WIDTH columns
    by SCREEN_HEIGHT rows, stored row after row. */
module View {
  import opened Ints

  const SCREEN_WIDTH: Usize := 69
  const SCREEN_HEIGHT: Usize := 22
  /** Length of the frame buffer: the last line has no line break. */
  const SCREEN_LENGTH: Usize := SCREEN_WIDTH * SCREEN_HEIGHT - 2

  /** `SCREEN_WIDTH as i32`. */
  const SCREEN_WIDTH_I32: int := 69
}

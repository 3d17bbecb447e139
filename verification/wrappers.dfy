/** The optional value returned by `Framebuffer::get_color` (Rust's `Option`). */
module Wrappers {

  datatype Option<+T> = None | Some(value: T)
}

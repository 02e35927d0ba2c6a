/**
 * Floating-point values appear in this program only to be stored in
 * settings and printed into shader text. Their arithmetic and their
 * decimal formatting are not modelled: a value is kept as its bit
 * pattern, and every piece of float text comes from a `FloatText`
 * supplied by the caller.
 */
module Floats {

  /** An `f32`, kept as its IEEE 754 bit pattern. */
  datatype F32 = F32(bits: bv32)

  /** An RGBA colour with `f32` channels (the crate's `Col`). */
  datatype Col = Col(red: F32, green: F32, blue: F32, alpha: F32)

  /**
   * How floats are printed:
   * `show` is `{}` of an `f32`;
   * `recip64(n)` is `{}` of `1. / n as f64`, and `twiceRecip64(n)` of `2. * (1. / n as f64)`;
   * `recip32(n)` is `{}` of `1. / n as f32`;
   * `col` is texturegen's `shader::col`, a colour as a GLSL `vec4` literal.
   */
  datatype FloatText = FloatText(
    show: F32 -> string,
    recip64: nat -> string,
    twiceRecip64: nat -> string,
    recip32: nat -> string,
    col: Col -> string)
}

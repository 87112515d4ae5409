/** Types and a function that several components use. */
module Common {

  datatype Option<+T> = None | Some(value: T)

  type Byte = x: int | 0 <= x < 0x100

  function Min(a: nat, b: nat): nat { if a < b then a else b }
}

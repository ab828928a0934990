/** What the C and C++ sources take from their platform. */
module Machine {

  /** A value that may be missing. */
  datatype Option<+T> = None | Some(value: T)

  /** The limits of a 64-bit `ssize_t` and `unsigned long`. */
  const SSIZE_MAX: int := 0x7FFF_FFFF_FFFF_FFFF
  const ULONG_MAX: int := 0xFFFF_FFFF_FFFF_FFFF

  /** The number of values of a `size_t`. */
  const TWO_64: int := ULONG_MAX + 1

  function Min(a: nat, b: nat): nat {
    if a < b then a else b
  }
}

// Machine integers of the source's platform (LP64): conversions wrap around.
module Machine {

  const TWO_31: int := 0x8000_0000
  const TWO_32: int := 0x1_0000_0000
  const TWO_61: int := 0x2000_0000_0000_0000
  const TWO_63: int := 0x8000_0000_0000_0000
  const TWO_64: int := 0x1_0000_0000_0000_0000

  const INT_MAX: int := TWO_31 - 1

  const EINVAL: int := 22
  const ENODEV: int := 19

  /** Conversion to `size_t`. */
  function U64(x: int): (r: nat)
    ensures r < TWO_64
  {
    x % TWO_64
  }

  /** Conversion to `loff_t`. */
  function I64(x: int): (r: int)
    ensures -TWO_63 <= r < TWO_63
  {
    (x + TWO_63) % TWO_64 - TWO_63
  }

  /** Conversion to `int`. */
  function I32(x: int): (r: int)
    ensures -TWO_31 <= r < TWO_31
  {
    (x + TWO_31) % TWO_32 - TWO_31
  }

  ghost predicate IsI64(x: int) {
    -TWO_63 <= x < TWO_63
  }

  /** Conversions keep what fits. */
  lemma InRange(x: int)
    ensures 0 <= x < TWO_64 ==> U64(x) == x
    ensures -TWO_63 <= x < TWO_63 ==> I64(x) == x
    ensures -TWO_31 <= x < TWO_31 ==> I32(x) == x
  {
  }
}

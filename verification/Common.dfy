/** Datatypes shared by the other modules. */
module Common {
  datatype Option<+T> = None | Some(value: T)

  datatype Result<+T, +E> = Ok(value: T) | Err(error: E)

  type Byte = x: int | 0 <= x < 256

  /** Unsigned 64-bit wrap-around. */
  const TWO64: int := 0x1_0000_0000_0000_0000

  type Uint64 = x: int | 0 <= x < TWO64

  function Wrap(x: int): Uint64 {
    x % TWO64
  }

  /** Signed 64-bit wrap-around. */
  function WrapInt64(x: int): int {
    (x + TWO64 / 2) % TWO64 - TWO64 / 2
  }

  /** Wrapping one summand first does not change the wrapped sum. */
  lemma WrapAdd(a: int, b: int)
    ensures Wrap(Wrap(a) + b) == Wrap(a + b)
    ensures Wrap(a + Wrap(b)) == Wrap(a + b)
  {
    ModShift(a + b, a / TWO64);
    ModShift(a + b, b / TWO64);
  }

  lemma ModShift(x: int, k: int)
    ensures (x - k * TWO64) % TWO64 == x % TWO64
  {
    var q := x / TWO64;
    assert x == q * TWO64 + x % TWO64;
    assert x - k * TWO64 == (q - k) * TWO64 + x % TWO64;
  }

  lemma SubsetSize<T>(small: set<T>, big: set<T>)
    requires small <= big
    ensures |small| <= |big|
  {
    assert big == small + (big - small);
  }
}

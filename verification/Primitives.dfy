/** Types shared by the models: machine integers, byte strings and digests. */
module Primitives {

  const TWO_64: nat := 0x1_0000_0000_0000_0000
  const TWO_256: nat := 0x1_0000000000000000_0000000000000000_0000000000000000_0000000000000000

  type Byte = b: nat | b < 256
  type U8 = n: nat | n < 256
  type U64 = n: nat | n < TWO_64
  type U256 = n: nat | n < TWO_256

  type Bytes = seq<Byte>

  /** A hash value; the code only ever compares digests or looks them up. */
  datatype H256 = H256(bytes: Bytes)

  datatype Option<+T> = None | Some(value: T)

  datatype Result<+T, +E> = Ok(value: T) | Err(error: E)

  /** `h` has no collision among the inputs in `inputs`.  The digests are finite,
      so the assumption is never made of all inputs at once. */
  ghost predicate CollisionFreeOn<T(!new), D(!new)>(h: T -> D, inputs: iset<T>) {
    forall a, b :: a in inputs && b in inputs && h(a) == h(b) ==> a == b
  }

  function Max(a: int, b: int): (r: int)
    ensures r >= a && r >= b && (r == a || r == b)
  {
    if a < b then b else a
  }

  function Min(a: int, b: int): (r: int)
    ensures r <= a && r <= b && (r == a || r == b)
  {
    if a < b then a else b
  }

  function SaturatingSub(a: nat, b: nat): (r: nat)
    ensures if a < b then r == 0 else r + b == a
  {
    if a < b then 0 else a - b
  }
}

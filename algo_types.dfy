/** Values the Algorand virtual machine hands to a contract. */
module AlgoTypes {

  /** The largest value of the machine's unsigned 64-bit integer; arithmetic past it aborts the call. */
  const MaxUInt64: int := 0xFFFF_FFFF_FFFF_FFFF

  type UInt64 = x: int | 0 <= x <= MaxUInt64

  /** An account address (arc4.Address); the contracts only compare addresses for equality. */
  type Address = string
}

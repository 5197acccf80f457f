/** The transaction handle the cache stores, and the external cost estimators.

    The cache sees a transaction only through its sender address, its nonce
    and three cost estimates (size, gas, fee) computed by pure functions that
    live outside the cache. Here each transaction carries the values those
    estimators would return for it, so every property proved below holds for
    any choice of estimators. */
module Transaction {

  type byte = bv8

  /** A transaction hash: an opaque byte string. */
  type Hash = seq<byte>

  /** A sender address; the registry keys lists by `string(address)`, a
      lossless conversion, so the byte string itself is the key here. */
  type Address = seq<byte>

  const UINT32_MODULUS: int := 0x1_0000_0000

  type uint32 = x: int | 0 <= x < 0x1_0000_0000

  /** A count kept in a Go `uint32`: the low 32 bits of the true count. */
  function Wrap32(x: nat): (r: uint32)
    ensures x < UINT32_MODULUS ==> r == x
  {
    x % UINT32_MODULUS
  }
  type uint64 = x: int | 0 <= x < 0x1_0000_0000_0000_0000

  /** A transaction handle. `id` tells two handles apart the way Go's
      pointer comparison does: two handles are the same transaction exactly
      when they are equal as values. */
  datatype Tx = Tx(id: nat, sndAddr: Address, nonce: uint64, size: nat, gas: nat, fee: nat)

  /** A transaction together with its hash, as handed to the registry. */
  datatype WrappedTx = WrappedTx(txHash: Hash, tx: Tx)

  function EstimateTxSize(tx: Tx): nat { tx.size }
  function EstimateTxGas(tx: Tx): nat { tx.gas }
  function EstimateTxFee(tx: Tx): nat { tx.fee }

  /** The three running totals a sender's list keeps. */
  datatype Cost = Bytes | Gas | Fee

  function CostOf(tx: Tx, c: Cost): nat
  {
    match c
    case Bytes => EstimateTxSize(tx)
    case Gas => EstimateTxGas(tx)
    case Fee => EstimateTxFee(tx)
  }
}

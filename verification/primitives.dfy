/**
 * The scalar types of the Starknet block header: fixed-width unsigned
 * integers and field elements (felts). A felt is an integer below the prime
 * of the STARK field, 2^251 + 17 * 2^192 + 1; its arithmetic is not needed
 * by the ledger and is not modelled.
 */
module Primitives {

  const U64Modulus: nat := 0x1_0000_0000_0000_0000

  type U64 = x: int | 0 <= x < 0x1_0000_0000_0000_0000
  type U128 = x: int | 0 <= x < 0x1_0000_0000_0000_0000_0000_0000_0000_0000

  /** An element of the STARK field. */
  type Felt = x: int | 0 <= x < 0x800000000000011000000000000000000000000000000000000000000000001

  type BlockHash = Felt
  type BlockNumber = U64
  type BlockTimestamp = U64
  type GasPrice = U128
  /** Commitment to the global state, supplied by the executor. */
  type GlobalRoot = Felt
  /** The key of a contract address. */
  type ContractAddress = Felt

  /** `stark_felt!(k)` on a `u64`: every u64 is already below the field prime. */
  function FeltOfU64(k: U64): Felt
  {
    k
  }

  /** Rust's `n as u64` on an unsigned integer: keeps the low 64 bits. */
  function AsU64(n: nat): U64
  {
    n % U64Modulus
  }

  /** Every set of integers drawn from `[0, n)` has at most `n` elements. */
  lemma {:induction false} BoundedSetSize(s: set<int>, n: nat)
    requires forall x :: x in s ==> 0 <= x < n
    ensures |s| <= n
  {
    if n == 0 {
      assert forall x :: x !in s;
      assert s == {};
    } else {
      var rest := s - {n - 1};
      BoundedSetSize(rest, n - 1);
      assert s <= rest + {n - 1};
      assert |s| <= |rest + {n - 1}| <= |rest| + 1;
    }
  }

  /** A map keyed by block numbers has at most 2^64 entries. */
  lemma KeyCountBound<V>(m: map<BlockNumber, V>)
    ensures |m| <= U64Modulus
  {
    var keys: set<int> := m.Keys;
    BoundedSetSize(keys, U64Modulus);
    assert |m| == |m.Keys|;
  }
}

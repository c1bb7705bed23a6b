# Katana block ledger, modelled in Dafny

This project models the block ledger of the Katana Starknet devnet node
(`katana-core/src/starknet/block.rs`). It has two parts.

- **`StarknetBlock`** is a header plus a body, with an optional status. The header holds the
  stored hash, parent hash, number, gas price, state root, sequencer and timestamp. The body
  holds ordered transactions and ordered transaction outputs. The operations are the
  constructor, the accessors, appending a transaction, bounds-checked transaction lookup,
  and the block-hash commitment.
- **`StarknetBlocks`** is the append-only ledger. It holds a hash→number index, a
  number→block index, a number→state-update map and a pending-block slot. A block is accepted
  only when its number equals the current block count. On success both indices are written;
  on failure neither is. Lookups compose the two indices.

Files:

- `wrappers.dfy`: `Option`, `Outcome`, and a map lookup that returns an option.
- `primitives.dfy`: `u64`, `u128`, field elements (felts) and the header's scalar types.
  It also proves that a map keyed by `u64` block numbers has at most 2^64 entries.
- `blocks.dfy`: `StarknetBlock`, its operations, and the hash-input list.
- `ledger.dfy`: `StarknetBlocks`, its operations, and the ledger invariant `Valid`.
- `ledger_facts.dfy`: lemmas that relate several ledger operations.
- `chain.dfy`: whole histories of appends that start from the empty ledger.

Modelling choices:

- Rust's `&mut self` methods are pure functions here. `AppendBlock` returns the new ledger
  together with a pass/fail outcome. This makes "unchanged on failure" a statement about the
  returned ledger.
- Transactions, outputs and state updates are opaque library types. They are type parameters.
- A felt is an integer below the STARK prime, 2^251 + 17·2^192 + 1. `stark_felt!` on a `u64`
  is the identity, because every `u64` is below that prime.
- The Pedersen array hash is foreign cryptography. `ComputeBlockHash` therefore takes it as a
  parameter `pedersen: seq<Felt> -> Felt`, and every hash lemma holds for any such function.
- Accessors (`header`, `body`, `transactions`, `block_hash`, `block_number`, `parent_hash`)
  are member functions of `StarknetBlock` (`Header()`, `Body()`, `Transactions()`, `Hash()`,
  `Number()`, `Parent()`). They only read fields, so they carry no contract of their own.
- `total_blocks` is `Ledger.TotalBlocks`, the size of the number index.
- In `append_block`, the expected number is `num_to_block.len() as u64`. A `usize` always fits
  in a `u64`, so that cast is lossless and the model compares against the count as a natural
  number. In `compute_block_hash`, `transactions.len() as u64` is kept as an explicit low-64-bit
  cast (`AsU64`).
- The hash inputs at `block.rs:90-100` are eleven felts: `[block_number, 0, state_root,
  sequencer, timestamp, tx_count, 0, 0, 0, 0, parent_hash]`. The comments at `block.rs:91-99`
  are shifted. The code puts a 0 at slot 1, so the state root, sequencer, timestamp and
  transaction count each sit one slot after the comment that names them; for example, the state
  root is at slot 2, beside `sequencer_address`. The block number (slot 0) and the parent hash
  (slot 10) sit beside their own comments. The model follows the code.
- The code has no method that writes the state-update map or the pending slot; both are public
  fields. `InsertStateUpdate` models a direct write to the public state-update map. A repeated
  write to the same number wins over the earlier one, as `HashMap::insert` does.

## Model

| member | source | states |
|---|---|---|
| `Blocks.New` | katana-core/src/starknet/block.rs:24-54 | every accessor of the new block returns exactly the argument given for that field, and the body keeps the given transaction and output lists |
| `Blocks.InsertTransaction` | katana-core/src/starknet/block.rs:64-66 | the new transaction list is the old list followed by the new transaction; header (including the stored hash), outputs and status are unchanged |
| `Blocks.TransactionByIndex` | katana-core/src/starknet/block.rs:72-74 | present exactly when the index is below the transaction count, and then it is the transaction at that position |
| `Blocks.HashInputs` | katana-core/src/starknet/block.rs:88-102 | the hash commits to exactly eleven felts in this order: number, 0, state root, sequencer, timestamp, transaction count (as u64), four zeros, parent hash |
| `Blocks.ComputeBlockHash` | katana-core/src/starknet/block.rs:88-102 | the block hash is the hash primitive `pedersen` applied to the eleven felts `[number, 0, state root, sequencer, timestamp, transaction count as u64, 0, 0, 0, 0, parent hash]`, read from the block's accessors |
| `Blocks.HashInputsExactlyCommittedFields` | katana-core/src/starknet/block.rs:88-102 | two blocks have equal hash inputs if and only if they agree on number, state root, sequencer, timestamp, transaction count and parent hash; stored hash, gas price, outputs, status and transaction contents do not enter |
| `Blocks.HashDependsOnlyOnCommittedFields` | katana-core/src/starknet/block.rs:88-102 | for any hash primitive, blocks agreeing on the committed fields get the same block hash, so the hash is a pure function of those fields |
| `Blocks.HashInputsSeparateHeightsAndParents` | katana-core/src/starknet/block.rs:88-102 | blocks that differ in number or in parent hash never have the same hash-input list |
| `Blocks.InsertTransactionStalesHashInputs` | katana-core/src/starknet/block.rs:64-95 | inserting a transaction leaves every hash-input slot except the transaction count unchanged, raises that count by one, and so changes the input list, which makes a hash computed earlier stale |
| `Ledger.Empty` | katana-core/src/starknet/block.rs:106-112 | the default ledger holds no block, no state update and no pending block, and satisfies the ledger invariant |
| `Ledger.AppendBlock` | katana-core/src/starknet/block.rs:115-128 | passes exactly when the block's number equals the block count. On failure it returns the ledger unchanged and an error carrying the expected and actual numbers. On success the block is found under its number, its hash maps to its number, every other number and hash entry is as before, and the state updates and the pending slot are untouched |
| `Ledger.TotalBlocks` | katana-core/src/starknet/block.rs:160-162 | the block count is the size of the number index, and it is zero exactly when that index is empty |
| `Ledger.ByNumber` | katana-core/src/starknet/block.rs:146-148 | present exactly when the number is indexed, and then it is the stored block |
| `Ledger.ByHash` | katana-core/src/starknet/block.rs:140-144 | absent when the hash is not indexed; otherwise the by-number lookup of the indexed number |
| `Ledger.CurrentBlockNumber` | katana-core/src/starknet/block.rs:130-132 | absent exactly on an empty ledger; otherwise one less than the block count (the corrected form of the source's computation) |
| `Ledger.CurrentBlockNumberAsWritten` | katana-core/src/starknet/block.rs:130-132 | the source's wrapping `total - 1` agrees with the corrected number on every non-empty ledger |
| `Ledger.Latest` | katana-core/src/starknet/block.rs:134-138 | absent on an empty ledger; otherwise the block stored under the current block number |
| `Ledger.TransactionByBlockNumAndIndex` | katana-core/src/starknet/block.rs:150-158 | present exactly when block `n` is stored and the index is below its transaction count, and then it is that transaction |
| `Ledger.GetStateUpdate` | katana-core/src/starknet/block.rs:164-166 | present exactly when a state update is recorded for the number, and then it is that update |
| `Ledger.InsertStateUpdate` | katana-core/src/starknet/block.rs:111 | after writing an update for `n`, `n` reads back that update. Other numbers read as before, and both block indices and the pending slot are unchanged |
| `LedgerFacts.AppendPreservesValid` | katana-core/src/starknet/block.rs:115-128 | from a valid ledger an append, passing or failing, yields a valid ledger: numbers `0..total-1` contiguous, each block under its own number, hash entries pointing at blocks with that hash, every stored hash indexed. A passing append adds exactly one block |
| `LedgerFacts.ValidByNumber` | katana-core/src/starknet/block.rs:146-148 | in a valid ledger a number is found exactly when it is below the block count, and the block found carries that number |
| `LedgerFacts.ValidByHash` | katana-core/src/starknet/block.rs:140-144 | in a valid ledger a hash is found exactly when some stored block carries it, and the block found carries it |
| `LedgerFacts.ValidLatest` | katana-core/src/starknet/block.rs:134-138 | a non-empty valid ledger has a latest block, and its number is the current block number |
| `LedgerFacts.AppendedBlockIsLatest` | katana-core/src/starknet/block.rs:124-138 | after a passing append the block is the latest, its number is the current block number, its hash finds it, and every transaction index of it is served through the ledger |
| `LedgerFacts.DuplicateHashResolvesToLater` | katana-core/src/starknet/block.rs:124 | when a later block repeats a hash, the hash index finds the later block and no longer the earlier one; the earlier block stays reachable by number |
| `LedgerFacts.EmptyLedgerCurrentNumberWraps` | katana-core/src/starknet/block.rs:130-132 | on the empty ledger the source's computation yields 2^64 - 1, which numbers no block, while the corrected form is absent |
| `LedgerFacts.StateUpdateIndependentOfAppend` | katana-core/src/starknet/block.rs:111-128 | writing a state update before or after an append gives the same ledger and the same outcome, and the update reads back either way |
| `Chain.ChainFromEmpty` | katana-core/src/starknet/block.rs:115-138 | appending blocks numbered `0..N-1` from the empty ledger gives a ledger that is valid, holds `N` blocks, finds block `k` under `k`, and (for `N > 0`) has the last block as latest and `N-1` as current number; state updates and the pending slot stay empty |
| `Chain.AppendExtendsChain` | katana-core/src/starknet/block.rs:115-138 | one step of a chain: when a valid ledger serves each block of a prefix under its position and the next block carries the next number, appending it gives a valid ledger one block larger that serves the extended prefix under its positions, has that block as latest with its number as current number, and leaves state updates and the pending slot alone |
| `Chain.ChainEveryAppendPasses` | katana-core/src/starknet/block.rs:115-122 | appending blocks numbered `0..N-1` from the empty ledger passes at every step: block `i` is offered to the ledger built from the first `i` blocks and is accepted |
| `Chain.ChainByHash` | katana-core/src/starknet/block.rs:140-148 | if the appended blocks have distinct hashes, each block is found by its hash |

## Left out

- The Pedersen hash and felt arithmetic are foreign cryptography. The hash is a function parameter, and felts are integers below the field prime.
- The contents of `Transaction`, `TransactionOutput` and `StateUpdate` are opaque library types, modelled as type parameters.
- Writes to the pending-block slot: no method performs one. The model only shows that appending never touches it.
- The text of the `anyhow` error message. The error keeps the two numbers it reports.
- Concurrency and locking around the ledger. The ledger is a plain value here.
- `HashMap` hashing and `Clone`: maps are Dafny maps, and a returned block is a value copy.
- The derived `Default` of `StarknetBlock` and the `Debug`/`PartialEq` derives have no logic of their own to model.
- A debug build panics on the `u64` underflow in `current_block_number` instead of wrapping. `Ledger.CurrentBlockNumberAsWritten` models the release-build wrap.
- `transaction_by_index` takes a `usize`; the model takes any natural number, and indices past the list give `None` either way.
- `crates/dojo-lang/src/commands/create.rs` is a compiler plugin that rewrites syntax trees through a foreign syntax database. It is not part of this model.
- `crates/katana/primitives/src/lib.rs` holds only module declarations and a re-export.

## Findings

| source | as written | input that shows it | evidently intended | confidence | as-written member | corrected member |
|---|---|---|---|---|---|---|
| katana-core/src/starknet/block.rs:130-132 | `current_block_number` computes `total_blocks() as u64 - 1` | the empty ledger (no block appended): the result wraps to 2^64 - 1 in a release build, which names no block (lemma `LedgerFacts.EmptyLedgerCurrentNumberWraps`), and a debug build panics | an explicit absent result when no block exists | not executed; high (arithmetic on a fixed input) | `Ledger.CurrentBlockNumberAsWritten` | `Ledger.CurrentBlockNumber` |

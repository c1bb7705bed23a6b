/**
 * A Starknet block as the node keeps it: a header, a body holding the
 * ordered transactions and their ordered outputs, and an optional status.
 * Transactions and outputs are opaque here, so they are type parameters.
 */
module Blocks {
  import opened Wrappers
  import opened Primitives

  datatype BlockStatus = Pending | AcceptedOnL2 | AcceptedOnL1 | Rejected

  datatype BlockHeader = BlockHeader(
    blockHash: BlockHash,
    parentHash: BlockHash,
    blockNumber: BlockNumber,
    gasPrice: GasPrice,
    stateRoot: GlobalRoot,
    sequencer: ContractAddress,
    timestamp: BlockTimestamp)

  datatype BlockBody<Tx, Out> = BlockBody(transactions: seq<Tx>, transactionOutputs: seq<Out>)

  datatype Block<Tx, Out> = Block(header: BlockHeader, body: BlockBody<Tx, Out>)

  datatype StarknetBlock<Tx, Out> = StarknetBlock(inner: Block<Tx, Out>, status: Option<BlockStatus>)
  {
    function Header(): BlockHeader { inner.header }
    function Body(): BlockBody<Tx, Out> { inner.body }
    function Transactions(): seq<Tx> { inner.body.transactions }
    function Hash(): BlockHash { inner.header.blockHash }
    function Number(): BlockNumber { inner.header.blockNumber }
    function Parent(): BlockHash { inner.header.parentHash }
  }

  /** Number of felts the block hash commits to. */
  const HashInputCount: nat := 11

  /** Builds a block from its header fields, its body and its status. */
  function New<Tx, Out>(
    blockHash: BlockHash,
    parentHash: BlockHash,
    blockNumber: BlockNumber,
    gasPrice: GasPrice,
    stateRoot: GlobalRoot,
    sequencer: ContractAddress,
    timestamp: BlockTimestamp,
    transactions: seq<Tx>,
    transactionOutputs: seq<Out>,
    status: Option<BlockStatus>): (b: StarknetBlock<Tx, Out>)
    ensures b.Hash() == blockHash && b.Parent() == parentHash && b.Number() == blockNumber
    ensures b.Header().gasPrice == gasPrice && b.Header().stateRoot == stateRoot
    ensures b.Header().sequencer == sequencer && b.Header().timestamp == timestamp
    ensures b.Transactions() == transactions && b.Body().transactionOutputs == transactionOutputs
    ensures b.status == status
  {
    StarknetBlock(
      Block(
        BlockHeader(blockHash, parentHash, blockNumber, gasPrice, stateRoot, sequencer, timestamp),
        BlockBody(transactions, transactionOutputs)),
      status)
  }

  /**
   * Appends one transaction to the body. No output is added and the stored
   * hash is not recomputed.
   */
  function InsertTransaction<Tx, Out>(b: StarknetBlock<Tx, Out>, t: Tx): (r: StarknetBlock<Tx, Out>)
    ensures r.Transactions() == b.Transactions() + [t]
    ensures r.Header() == b.Header()
    ensures r.Body().transactionOutputs == b.Body().transactionOutputs
    ensures r.status == b.status
  {
    b.(inner := b.inner.(body := b.inner.body.(transactions := b.inner.body.transactions + [t])))
  }

  /** The transaction at position `i`, or `None` past the end of the list. */
  function TransactionByIndex<Tx, Out>(b: StarknetBlock<Tx, Out>, i: nat): (r: Option<Tx>)
    ensures r.Some? <==> i < |b.Transactions()|
    ensures r.Some? ==> r.value == b.Transactions()[i]
  {
    if i < |b.inner.body.transactions| then Some(b.inner.body.transactions[i]) else None
  }

  /**
   * The ordered felts the block hash commits to. Slots 1 and 6 to 9 are
   * fixed zero placeholders; slot 5 is the transaction count.
   */
  function HashInputs<Tx, Out>(b: StarknetBlock<Tx, Out>): (r: seq<Felt>)
    ensures |r| == HashInputCount
    ensures r[0] == b.Number() && r[2] == b.Header().stateRoot && r[3] == b.Header().sequencer
    ensures r[4] == b.Header().timestamp && r[5] == AsU64(|b.Transactions()|)
    ensures r[10] == b.Parent()
    ensures r[1] == 0 && r[6] == 0 && r[7] == 0 && r[8] == 0 && r[9] == 0
  {
    var h := b.inner.header;
    [ FeltOfU64(h.blockNumber),
      0,
      h.stateRoot,
      h.sequencer,
      FeltOfU64(h.timestamp),
      FeltOfU64(AsU64(|b.inner.body.transactions|)),
      0,
      0,
      0,
      0,
      h.parentHash ]
  }

  /** The block hash: the Pedersen array hash, passed in as `pedersen`, of the hash inputs. */
  function ComputeBlockHash<Tx, Out>(b: StarknetBlock<Tx, Out>, pedersen: seq<Felt> -> Felt): (r: BlockHash)
    ensures r == pedersen([b.Number(), 0, b.Header().stateRoot, b.Header().sequencer, b.Header().timestamp,
                           AsU64(|b.Transactions()|), 0, 0, 0, 0, b.Parent()])
  {
    pedersen(HashInputs(b))
  }

  /** The header and body fields the block hash commits to agree in `a` and `b`. */
  predicate SameCommittedFields<Tx, Out>(a: StarknetBlock<Tx, Out>, b: StarknetBlock<Tx, Out>)
  {
    && a.Number() == b.Number()
    && a.Header().stateRoot == b.Header().stateRoot
    && a.Header().sequencer == b.Header().sequencer
    && a.Header().timestamp == b.Header().timestamp
    && AsU64(|a.Transactions()|) == AsU64(|b.Transactions()|)
    && a.Parent() == b.Parent()
  }

  /**
   * Two blocks have the same hash inputs exactly when they agree on the
   * committed fields; the stored hash, gas price, outputs, status and the
   * transactions' contents take no part.
   */
  lemma HashInputsExactlyCommittedFields<Tx, Out>(a: StarknetBlock<Tx, Out>, b: StarknetBlock<Tx, Out>)
    ensures HashInputs(a) == HashInputs(b) <==> SameCommittedFields(a, b)
  {
    if HashInputs(a) == HashInputs(b) {
      assert HashInputs(a)[0] == HashInputs(b)[0];
      assert HashInputs(a)[10] == HashInputs(b)[10];
    }
  }

  /**
   * Whatever the hash primitive, blocks agreeing on the committed fields get
   * the same hash; in particular recomputing the hash of a block does not
   * depend on the hash already stored in it.
   */
  lemma HashDependsOnlyOnCommittedFields<Tx, Out>(
    a: StarknetBlock<Tx, Out>, b: StarknetBlock<Tx, Out>, pedersen: seq<Felt> -> Felt)
    requires SameCommittedFields(a, b)
    ensures ComputeBlockHash(a, pedersen) == ComputeBlockHash(b, pedersen)
  {
    HashInputsExactlyCommittedFields(a, b);
  }

  /** Blocks at different heights, or with different parents, never share hash inputs. */
  lemma HashInputsSeparateHeightsAndParents<Tx, Out>(a: StarknetBlock<Tx, Out>, b: StarknetBlock<Tx, Out>)
    requires a.Number() != b.Number() || a.Parent() != b.Parent()
    ensures HashInputs(a) != HashInputs(b)
  {
    HashInputsExactlyCommittedFields(a, b);
  }

  /**
   * Inserting a transaction moves only the transaction-count slot of the hash
   * inputs, so a hash computed before the insertion is stale afterwards.
   */
  lemma InsertTransactionStalesHashInputs<Tx, Out>(b: StarknetBlock<Tx, Out>, t: Tx)
    requires |b.Transactions()| + 1 < U64Modulus
    ensures var before, after := HashInputs(b), HashInputs(InsertTransaction(b, t));
      && after[..5] == before[..5]
      && after[6..] == before[6..]
      && after[5] == before[5] + 1
      && after != before
  {
    var before, after := HashInputs(b), HashInputs(InsertTransaction(b, t));
    assert after[5] != before[5];
  }
}

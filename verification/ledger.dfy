/**
 * The block ledger: an append-only chain of blocks indexed twice, by number
 * and by hash, beside a store of per-block state updates and a pending-block
 * slot. State updates are opaque, so they are the type parameter `Su`.
 */
module Ledger {
  import opened Wrappers
  import opened Primitives
  import opened Blocks

  datatype StarknetBlocks<Tx, Out, Su> = StarknetBlocks(
    hashToNum: map<BlockHash, BlockNumber>,
    numToBlock: map<BlockNumber, StarknetBlock<Tx, Out>>,
    pendingBlock: Option<StarknetBlock<Tx, Out>>,
    numToStateUpdate: map<BlockNumber, Su>)

  /** Refusal of a block whose number is not the next one. */
  datatype SequenceError = SequenceError(expected: nat, actual: BlockNumber)

  /** The ledger after an append attempt, and whether the attempt passed. */
  datatype Appended<Tx, Out, Su> = Appended(ledger: StarknetBlocks<Tx, Out, Su>, outcome: Outcome<SequenceError>)

  /**
   * The ledger invariant: block numbers are exactly `0 .. total - 1`, every
   * stored block sits under its own number, every hash entry points at a
   * stored block carrying that hash, and every stored block's hash is indexed.
   */
  ghost predicate Valid<Tx, Out, Su>(l: StarknetBlocks<Tx, Out, Su>)
  {
    && (forall k: BlockNumber :: k in l.numToBlock <==> k < |l.numToBlock|)
    && (forall k :: k in l.numToBlock ==> l.numToBlock[k].Number() == k)
    && (forall h :: h in l.hashToNum ==>
          l.hashToNum[h] in l.numToBlock && l.numToBlock[l.hashToNum[h]].Hash() == h)
    && (forall k :: k in l.numToBlock ==> l.numToBlock[k].Hash() in l.hashToNum)
  }

  /** The ledger before any block is appended. */
  function Empty<Tx, Out, Su>(): (l: StarknetBlocks<Tx, Out, Su>)
    ensures Valid(l)
    ensures TotalBlocks(l) == 0 && l.pendingBlock == None && l.numToStateUpdate == map[]
  {
    StarknetBlocks(map[], map[], None, map[])
  }

  /** The number of appended blocks. */
  function TotalBlocks<Tx, Out, Su>(l: StarknetBlocks<Tx, Out, Su>): (r: nat)
    ensures r == |l.numToBlock.Keys|
    ensures r == 0 <==> l.numToBlock == map[]
  {
    |l.numToBlock|
  }

  /** The block stored under number `n`. */
  function ByNumber<Tx, Out, Su>(l: StarknetBlocks<Tx, Out, Su>, n: BlockNumber): (r: Option<StarknetBlock<Tx, Out>>)
    ensures r.Some? <==> n in l.numToBlock
    ensures r.Some? ==> r.value == l.numToBlock[n]
  {
    Get(l.numToBlock, n)
  }

  /** The block whose number the hash index records for `h`. */
  function ByHash<Tx, Out, Su>(l: StarknetBlocks<Tx, Out, Su>, h: BlockHash): (r: Option<StarknetBlock<Tx, Out>>)
    ensures h !in l.hashToNum ==> r.None?
    ensures h in l.hashToNum ==> r == ByNumber(l, l.hashToNum[h])
  {
    match Get(l.hashToNum, h)
    case None => None
    case Some(n) => ByNumber(l, n)
  }

  /**
   * Appends `b` when its number is the current block count; otherwise fails
   * with both numbers and leaves the ledger as it was.
   */
  function AppendBlock<Tx, Out, Su>(l: StarknetBlocks<Tx, Out, Su>, b: StarknetBlock<Tx, Out>): (r: Appended<Tx, Out, Su>)
    ensures r.outcome.Pass? <==> b.Number() == TotalBlocks(l)
    ensures r.outcome.Fail? ==> r.ledger == l && r.outcome.error == SequenceError(TotalBlocks(l), b.Number())
    ensures r.outcome.Pass? ==>
      && ByNumber(r.ledger, b.Number()) == Some(b)
      && Get(r.ledger.hashToNum, b.Hash()) == Some(b.Number())
      && (forall k :: k != b.Number() ==> ByNumber(r.ledger, k) == ByNumber(l, k))
      && (forall h :: h != b.Hash() ==> Get(r.ledger.hashToNum, h) == Get(l.hashToNum, h))
      && r.ledger.pendingBlock == l.pendingBlock
      && r.ledger.numToStateUpdate == l.numToStateUpdate
  {
    var expected := |l.numToBlock|;
    if expected != b.Number() then
      Appended(l, Fail(SequenceError(expected, b.Number())))
    else
      var l' := l.(hashToNum := l.hashToNum[b.Hash() := b.Number()],
                   numToBlock := l.numToBlock[b.Number() := b]);
      Appended(l', Pass)
  }

  /**
   * The number of the latest block, or `None` on an empty ledger: the source
   * computes `total - 1` and underflows at zero (see `CurrentBlockNumberAsWritten`).
   */
  function CurrentBlockNumber<Tx, Out, Su>(l: StarknetBlocks<Tx, Out, Su>): (r: Option<BlockNumber>)
    ensures r.None? <==> TotalBlocks(l) == 0
    ensures r.Some? ==> r.value + 1 == TotalBlocks(l)
  {
    if |l.numToBlock| == 0 then None
    else
      KeyCountBound(l.numToBlock);
      Some(|l.numToBlock| - 1)
  }

  /** `current_block_number` as the source writes it, with `u64` subtraction wrapping. */
  function CurrentBlockNumberAsWritten<Tx, Out, Su>(l: StarknetBlocks<Tx, Out, Su>): (r: BlockNumber)
    ensures TotalBlocks(l) > 0 ==> CurrentBlockNumber(l) == Some(r)
  {
    (AsU64(|l.numToBlock|) - 1) % U64Modulus
  }

  /** The block stored under number `total - 1`, or `None` on an empty ledger. */
  function Latest<Tx, Out, Su>(l: StarknetBlocks<Tx, Out, Su>): (r: Option<StarknetBlock<Tx, Out>>)
    ensures TotalBlocks(l) == 0 ==> r.None?
    ensures TotalBlocks(l) > 0 ==> r == ByNumber(l, CurrentBlockNumber(l).value)
  {
    match CurrentBlockNumber(l)
    case None => None
    case Some(n) => ByNumber(l, n)
  }

  /** Transaction `i` of block `n`, absent when the block or the index is. */
  function TransactionByBlockNumAndIndex<Tx, Out, Su>(l: StarknetBlocks<Tx, Out, Su>, n: BlockNumber, i: nat): (r: Option<Tx>)
    ensures r.Some? <==> n in l.numToBlock && i < |l.numToBlock[n].Transactions()|
    ensures r.Some? ==> r.value == l.numToBlock[n].Transactions()[i]
  {
    match ByNumber(l, n)
    case None => None
    case Some(b) => TransactionByIndex(b, i)
  }

  /** The state update recorded for block number `n`. */
  function GetStateUpdate<Tx, Out, Su>(l: StarknetBlocks<Tx, Out, Su>, n: BlockNumber): (r: Option<Su>)
    ensures r.Some? <==> n in l.numToStateUpdate
    ensures r.Some? ==> r.value == l.numToStateUpdate[n]
  {
    Get(l.numToStateUpdate, n)
  }

  /**
   * A write to the public state-update map, the only way the source records
   * one: last write wins, and nothing else in the ledger changes.
   */
  function InsertStateUpdate<Tx, Out, Su>(l: StarknetBlocks<Tx, Out, Su>, n: BlockNumber, s: Su): (r: StarknetBlocks<Tx, Out, Su>)
    ensures GetStateUpdate(r, n) == Some(s)
    ensures forall k :: k != n ==> GetStateUpdate(r, k) == GetStateUpdate(l, k)
    ensures r.hashToNum == l.hashToNum && r.numToBlock == l.numToBlock && r.pendingBlock == l.pendingBlock
  {
    l.(numToStateUpdate := l.numToStateUpdate[n := s])
  }
}

/** Properties of the ledger that relate several operations. */
module LedgerFacts {
  import opened Wrappers
  import opened Primitives
  import opened Blocks
  import opened Ledger

  /** Appending, whether it passes or fails, keeps the ledger invariant; a pass adds exactly one block. */
  lemma AppendPreservesValid<Tx, Out, Su>(l: StarknetBlocks<Tx, Out, Su>, b: StarknetBlock<Tx, Out>)
    requires Valid(l)
    ensures Valid(AppendBlock(l, b).ledger)
    ensures AppendBlock(l, b).outcome.Pass? ==> TotalBlocks(AppendBlock(l, b).ledger) == TotalBlocks(l) + 1
  {
    var r := AppendBlock(l, b);
    if r.outcome.Pass? {
      var n := b.Number();
      assert n !in l.numToBlock;
      var l' := r.ledger;
      assert l'.numToBlock.Keys == l.numToBlock.Keys + {n};
      assert |l'.numToBlock| == |l.numToBlock| + 1;
      forall k: BlockNumber
        ensures k in l'.numToBlock <==> k < |l'.numToBlock|
      {
        if k != n {
          assert k in l'.numToBlock <==> k in l.numToBlock;
        }
      }
      forall h | h in l'.hashToNum
        ensures l'.hashToNum[h] in l'.numToBlock && l'.numToBlock[l'.hashToNum[h]].Hash() == h
      {
        if h != b.Hash() {
          assert l'.hashToNum[h] == l.hashToNum[h];
          assert l.hashToNum[h] != n;
        }
      }
    }
  }

  /** In a valid ledger a block number is found exactly when it is below the count, and names its own block. */
  lemma ValidByNumber<Tx, Out, Su>(l: StarknetBlocks<Tx, Out, Su>, k: BlockNumber)
    requires Valid(l)
    ensures ByNumber(l, k).Some? <==> k < TotalBlocks(l)
    ensures ByNumber(l, k).Some? ==> ByNumber(l, k).value.Number() == k
  {
  }

  /**
   * In a valid ledger a hash is found exactly when some stored block carries
   * it, and the block found carries it.
   */
  lemma ValidByHash<Tx, Out, Su>(l: StarknetBlocks<Tx, Out, Su>, h: BlockHash)
    requires Valid(l)
    ensures ByHash(l, h).Some? <==> exists k :: k in l.numToBlock && l.numToBlock[k].Hash() == h
    ensures ByHash(l, h).Some? ==> ByHash(l, h).value.Hash() == h
  {
    if exists k :: k in l.numToBlock && l.numToBlock[k].Hash() == h {
      var k :| k in l.numToBlock && l.numToBlock[k].Hash() == h;
      assert h in l.hashToNum;
    }
  }

  /** A non-empty valid ledger has a latest block, numbered by `CurrentBlockNumber`. */
  lemma ValidLatest<Tx, Out, Su>(l: StarknetBlocks<Tx, Out, Su>)
    requires Valid(l) && TotalBlocks(l) > 0
    ensures CurrentBlockNumber(l).Some? && Latest(l).Some?
    ensures Latest(l).value.Number() == CurrentBlockNumber(l).value
  {
    var n := CurrentBlockNumber(l).value;
    assert n < |l.numToBlock|;
  }

  /**
   * After a block is appended to a valid ledger it is the latest block, its
   * number is the current number, its hash finds it, and its transactions are
   * served through the ledger.
   */
  lemma AppendedBlockIsLatest<Tx, Out, Su>(l: StarknetBlocks<Tx, Out, Su>, b: StarknetBlock<Tx, Out>)
    requires Valid(l) && b.Number() == TotalBlocks(l)
    ensures var l' := AppendBlock(l, b).ledger;
      && CurrentBlockNumber(l') == Some(b.Number())
      && Latest(l') == Some(b)
      && ByHash(l', b.Hash()) == Some(b)
      && forall i: nat :: TransactionByBlockNumAndIndex(l', b.Number(), i) == TransactionByIndex(b, i)
  {
    AppendPreservesValid(l, b);
  }

  /**
   * A later block with a duplicate hash takes over the hash index entry: the
   * earlier block stays reachable by number only.
   */
  lemma DuplicateHashResolvesToLater<Tx, Out, Su>(
    l: StarknetBlocks<Tx, Out, Su>, a: StarknetBlock<Tx, Out>, b: StarknetBlock<Tx, Out>)
    requires Valid(l) && a.Number() == TotalBlocks(l) && b.Number() == TotalBlocks(l) + 1
    requires a.Hash() == b.Hash()
    ensures var l2 := AppendBlock(AppendBlock(l, a).ledger, b).ledger;
      && ByHash(l2, a.Hash()) == Some(b)
      && ByHash(l2, a.Hash()) != Some(a)
      && ByNumber(l2, a.Number()) == Some(a)
  {
    AppendPreservesValid(l, a);
  }

  /** On an empty ledger the source's `total - 1` wraps to the largest `u64`, which numbers no block. */
  lemma EmptyLedgerCurrentNumberWraps<Tx, Out, Su>()
    ensures CurrentBlockNumberAsWritten(Empty<Tx, Out, Su>()) == U64Modulus - 1
    ensures ByNumber(Empty<Tx, Out, Su>(), CurrentBlockNumberAsWritten(Empty<Tx, Out, Su>())) == None
    ensures CurrentBlockNumber(Empty<Tx, Out, Su>()) == None
  {
  }

  /**
   * Recording a state update commutes with appending a block: the two orders
   * give the same ledger and outcome, and the update is served either way.
   */
  lemma StateUpdateIndependentOfAppend<Tx, Out, Su>(
    l: StarknetBlocks<Tx, Out, Su>, b: StarknetBlock<Tx, Out>, n: BlockNumber, s: Su)
    ensures var first, second := AppendBlock(InsertStateUpdate(l, n, s), b), AppendBlock(l, b);
      && first.outcome == second.outcome
      && first.ledger == InsertStateUpdate(second.ledger, n, s)
      && GetStateUpdate(first.ledger, n) == Some(s)
  {
  }
}

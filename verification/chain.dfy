/** Whole histories: a sequence of blocks appended one after another. */
module Chain {
  import opened Wrappers
  import opened Primitives
  import opened Blocks
  import opened Ledger
  import opened LedgerFacts

  /** The ledger reached by appending each block of `bs` in order, failures leaving it as it was. */
  function AppendAll<Tx, Out, Su>(l: StarknetBlocks<Tx, Out, Su>, bs: seq<StarknetBlock<Tx, Out>>): StarknetBlocks<Tx, Out, Su>
    decreases |bs|
  {
    if |bs| == 0 then l
    else AppendBlock(AppendAll(l, bs[..|bs| - 1]), bs[|bs| - 1]).ledger
  }

  /** Each block carries its position in `bs` as its number. */
  predicate Numbered<Tx, Out>(bs: seq<StarknetBlock<Tx, Out>>)
  {
    forall i :: 0 <= i < |bs| ==> bs[i].Number() == i
  }

  /** No two blocks of `bs` share a hash. */
  predicate DistinctHashes<Tx, Out>(bs: seq<StarknetBlock<Tx, Out>>)
  {
    forall i, j :: 0 <= i < j < |bs| ==> bs[i].Hash() != bs[j].Hash()
  }

  /**
   * Appending blocks numbered `0 .. N - 1` to the empty ledger gives a ledger
   * that is valid, holds `N` blocks, serves block `k` under number
   * `k`, has the last block as its latest, and neither state updates nor
   * the pending slot are touched.
   */
  lemma {:induction false} ChainFromEmpty<Tx, Out, Su>(bs: seq<StarknetBlock<Tx, Out>>)
    requires Numbered(bs)
    ensures var l := AppendAll(Empty<Tx, Out, Su>(), bs);
      && Valid(l)
      && TotalBlocks(l) == |bs|
      && (forall k: BlockNumber :: k < |bs| ==> ByNumber(l, k) == Some(bs[k]))
      && (|bs| > 0 ==> Latest(l) == Some(bs[|bs| - 1]) && CurrentBlockNumber(l) == Some(bs[|bs| - 1].Number()))
      && l.numToStateUpdate == map[]
      && l.pendingBlock == None
  {
    if |bs| > 0 {
      var front := bs[..|bs| - 1];
      var last := bs[|bs| - 1];
      assert Numbered(front);
      ChainFromEmpty<Tx, Out, Su>(front);
      var l0 := AppendAll(Empty<Tx, Out, Su>(), front);
      assert AppendAll(Empty<Tx, Out, Su>(), bs) == AppendBlock(l0, last).ledger;
      AppendExtendsChain(l0, front, last);
      assert bs == front + [last];
    }
  }

  /**
   * One step of a chain: if a valid ledger serves the blocks of `front` under
   * their positions, then appending the next-numbered block gives a valid
   * ledger that serves `front + [last]` the same way, with `last` as its
   * latest block, and leaves state updates and the pending slot alone.
   */
  lemma AppendExtendsChain<Tx, Out, Su>(
    l: StarknetBlocks<Tx, Out, Su>, front: seq<StarknetBlock<Tx, Out>>, last: StarknetBlock<Tx, Out>)
    requires Valid(l)
    requires last.Number() == TotalBlocks(l) == |front|
    requires forall k: BlockNumber :: k < |front| ==> ByNumber(l, k) == Some(front[k])
    ensures var l' := AppendBlock(l, last).ledger;
      && Valid(l')
      && TotalBlocks(l') == |front| + 1
      && (forall k: BlockNumber :: k <= |front| ==> ByNumber(l', k) == Some((front + [last])[k]))
      && Latest(l') == Some(last)
      && CurrentBlockNumber(l') == Some(last.Number())
      && l'.numToStateUpdate == l.numToStateUpdate
      && l'.pendingBlock == l.pendingBlock
  {
    AppendPreservesValid(l, last);
    var l' := AppendBlock(l, last).ledger;
    forall k: BlockNumber | k <= |front|
      ensures ByNumber(l', k) == Some((front + [last])[k])
    {
      if k < |front| {
        assert (front + [last])[k] == front[k];
      }
    }
  }

  /** Appending blocks numbered `0 .. N - 1` to the empty ledger passes at every step. */
  lemma ChainEveryAppendPasses<Tx, Out, Su>(bs: seq<StarknetBlock<Tx, Out>>)
    requires Numbered(bs)
    ensures forall i :: 0 <= i < |bs| ==> AppendBlock(AppendAll(Empty<Tx, Out, Su>(), bs[..i]), bs[i]).outcome.Pass?
  {
    forall i | 0 <= i < |bs|
      ensures AppendBlock(AppendAll(Empty<Tx, Out, Su>(), bs[..i]), bs[i]).outcome.Pass?
    {
      assert Numbered(bs[..i]);
      ChainFromEmpty<Tx, Out, Su>(bs[..i]);
    }
  }

  /** When the appended blocks have pairwise distinct hashes, every block is found by its hash. */
  lemma ChainByHash<Tx, Out, Su>(bs: seq<StarknetBlock<Tx, Out>>)
    requires Numbered(bs) && DistinctHashes(bs)
    ensures var l := AppendAll(Empty<Tx, Out, Su>(), bs);
      forall k :: 0 <= k < |bs| ==> ByHash(l, bs[k].Hash()) == Some(bs[k])
  {
    var l := AppendAll(Empty<Tx, Out, Su>(), bs);
    ChainFromEmpty<Tx, Out, Su>(bs);
    forall k | 0 <= k < |bs|
      ensures ByHash(l, bs[k].Hash()) == Some(bs[k])
    {
      var n := bs[k].Number();
      assert ByNumber(l, n) == Some(bs[k]);
      ValidByHash(l, bs[k].Hash());
      var j := l.hashToNum[bs[k].Hash()];
      assert ByNumber(l, j) == Some(bs[j]);
    }
  }
}

/** The block aggregate: its lifecycle (mutable, then sealed), the state-root
    computation that rewards the coinbase and executes and prunes the
    transactions, verification, and linking into a chain of ancestors. */
module Blocks {
  import opened Primitives
  import opened Headers
  import opened Hashing
  import opened Pruning
  import opened StateRoot
  import opened Verification
  import opened Heights

  /** The shared pool of pending transactions, seen through what is put into it. */
  class TxPool {
    var pending: seq<Transaction>

    constructor ()
      ensures pending == []
    {
      pending := [];
    }

    method Put(tx: Transaction)
      modifies this
      ensures pending == old(pending) + [tx]
    {
      pending := pending + [tx];
    }
  }

  class Block {
    var header: Header
    var transactions: seq<Transaction>
    var sealed: bool
    var stateTrie: Accounts
    var txsTrie: Records
    const txPool: TxPool
    const env: Collaborators

    /** A fresh unsealed block; `now` is the wall-clock time in seconds. */
    constructor NewBlock(chainID: u32, coinbase: Address, parentHash: Hash, nonce: u64,
                         stateTrie: Accounts, txsTrie: Records, txPool: TxPool,
                         env: Collaborators, now: i64)
      ensures header == Header([], parentHash, [], nonce, coinbase, now, chainID)
      ensures transactions == [] && !sealed
      ensures this.stateTrie == stateTrie && this.txsTrie == txsTrie
      ensures this.txPool == txPool && this.env == env
    {
      header := Header([], parentHash, [], nonce, coinbase, now, chainID);
      transactions := [];
      this.stateTrie := stateTrie;
      this.txsTrie := txsTrie;
      this.txPool := txPool;
      this.env := env;
      sealed := false;
    }

    method SetNonce(nonce: u64)
      requires !sealed
      modifies this`header
      ensures header == old(header).(nonce := nonce)
    {
      header := header.(nonce := nonce);
    }

    method SetTimestamp(timestamp: i64)
      requires !sealed
      modifies this`header
      ensures header == old(header).(timestamp := timestamp)
    {
      header := header.(timestamp := timestamp);
    }

    method AddTransactions(txs: seq<Transaction>)
      requires !sealed
      modifies this`transactions
      ensures transactions == old(transactions) + txs
    {
      transactions := transactions + txs;
    }

    /** The tries, the transaction list and the pool are what the state-root
        computation leaves when started from s0, r0, txs0 and pending0. */
    ghost predicate TransitionApplied(s0: Accounts, r0: Records, txs0: seq<Transaction>, pending0: seq<Transaction>)
      reads this, txPool
    {
      var run := Transition(env, header.coinbase, s0, r0, txs0);
      && stateTrie == run.state
      && txsTrie == run.records
      && transactions == Survivors(txs0, run.fails)
      && txPool.pending == pending0 + Returned(txs0, run.fails)
    }

    /** Credits the block reward to the coinbase account of the state trie. */
    method RewardCoinbase()
      modifies this`stateTrie
      ensures stateTrie == Rewarded(old(stateTrie), header.coinbase)
    {
      var coinbaseAccount := Account(0);
      if header.coinbase in stateTrie {
        coinbaseAccount := stateTrie[header.coinbase];
      }
      coinbaseAccount := coinbaseAccount.(balance := coinbaseAccount.balance + BlockReward);
      stateTrie := stateTrie[header.coinbase := coinbaseAccount];
    }

    /** Executes every transaction in list order, then walks the failing
        indices from the highest down, putting each failing transaction back
        into the pool and splicing it out of the list. */
    method ExecuteTransactions()
      modifies this`stateTrie, this`txsTrie, this`transactions, txPool
      ensures var run := Replay(env.execute, old(stateTrie), old(txsTrie), old(transactions));
        && stateTrie == run.state
        && txsTrie == run.records
        && transactions == Survivors(old(transactions), run.fails)
        && txPool.pending == old(txPool.pending) + Returned(old(transactions), run.fails)
    {
      ghost var fails := Replay(env.execute, stateTrie, txsTrie, transactions).fails;
      var state, records, invalidTxs := ExecuteEach(stateTrie, txsTrie, transactions);
      stateTrie, txsTrie := state, records;
      RemoveInvalidTransactions(invalidTxs, fails);
    }

    /** The execution pass of ExecuteTransactions: runs each transaction
        against the tries the previous one left, and lists, in ascending
        order, the indices of those that failed. */
    method ExecuteEach(state0: Accounts, records0: Records, txs: seq<Transaction>)
      returns (state: Accounts, records: Records, invalidTxs: seq<nat>)
      ensures var run := Replay(env.execute, state0, records0, txs);
        state == run.state && records == run.records && ListsFailures(invalidTxs, run.fails, |txs|)
    {
      state, records, invalidTxs := state0, records0, [];
      ghost var fails: seq<bool> := [];
      var idx := 0;
      while idx < |txs|
        invariant 0 <= idx <= |txs|
        invariant Replay(env.execute, state0, records0, txs[..idx]) == Run(state, records, fails)
        invariant |fails| == idx && ListsFailures(invalidTxs, fails, idx)
      {
        ReplayExtend(env.execute, state0, records0, txs, idx);
        var e := env.execute(state, records, txs[idx]);
        state, records := e.state, e.records;
        ListsFailuresStep(invalidTxs, fails, !e.ok);
        if !e.ok {
          invalidTxs := invalidTxs + [idx];
        }
        fails := fails + [!e.ok];
        assert ListsFailures(invalidTxs, fails, idx + 1);
        idx := idx + 1;
      }
      assert txs[..idx] == txs;
    }

    /** The removal pass of ExecuteTransactions: `invalidTxs` lists, in
        ascending order, exactly the indices whose execution failed. */
    method RemoveInvalidTransactions(invalidTxs: seq<nat>, ghost fails: seq<bool>)
      requires |fails| == |transactions| && ListsFailures(invalidTxs, fails, |fails|)
      modifies this`transactions, txPool
      ensures transactions == Survivors(old(transactions), fails)
      ensures txPool.pending == old(txPool.pending) + Returned(old(transactions), fails)
    {
      var txs := transactions;
      var lenOfTxs := |transactions|;
      ghost var orig, pending := transactions, txPool.pending;
      var k := |invalidTxs|;
      ghost var bound: nat := lenOfTxs;
      FailuresAheadStart(invalidTxs, fails);
      while k > 0
        modifies txPool
        invariant 0 <= k <= |invalidTxs| && bound <= lenOfTxs
        invariant FailuresAhead(invalidTxs, fails, k, bound)
        invariant txs == orig[..bound] + SurvivorsFrom(orig, fails, bound)
        invariant txPool.pending + ReturnedBelow(orig, fails, bound) == pending + Returned(orig, fails)
      {
        k := k - 1;
        var idx := invalidTxs[k];
        NextFailureGap(fails, invalidTxs, k + 1, bound);
        RemovalStep(orig, fails, idx, bound, txs);
        ghost var before := txPool.pending;

        // Put transaction back to pool.
        txPool.Put(txs[idx]);

        // Remove it from the block.
        if idx == lenOfTxs - 1 {
          txs := txs[..idx];
        } else if idx == 0 {
          txs := txs[0..];
        } else {
          txs := txs[..idx] + txs[idx + 1..];
        }
        assert txPool.pending + ReturnedBelow(orig, fails, idx) == before + ReturnedBelow(orig, fails, bound);
        bound := idx;
      }
      SurvivorsSkip(orig, fails, 0, bound);
      ReturnedSkip(orig, fails, 0, bound);

      transactions := txs;
    }

    /** Rewards the coinbase, executes the transactions, and returns the
        resulting state root. Not a query: every call changes the block. */
    method HashBlockStateRoot() returns (root: Hash)
      modifies this`stateTrie, this`txsTrie, this`transactions, txPool
      ensures TransitionApplied(old(stateTrie), old(txsTrie), old(transactions), old(txPool.pending))
      ensures root == env.rootHash(stateTrie)
    {
      RewardCoinbase();
      ExecuteTransactions();
      root := env.rootHash(stateTrie);
    }

    /** Seals the block: the hash first, over the transaction list as it is
        before execution, then the state root, then the flag. A sealed block
        is left as it is. */
    method Seal()
      modifies this`header, this`sealed, this`stateTrie, this`txsTrie, this`transactions, txPool
      ensures sealed
      ensures old(sealed) ==> unchanged(this) && unchanged(txPool)
      ensures !old(sealed) ==>
        && TransitionApplied(old(stateTrie), old(txsTrie), old(transactions), old(txPool.pending))
        && header == old(header).(hash := HashBlock(env, old(header), old(transactions)),
                                  stateRoot := env.rootHash(stateTrie))
    {
      if sealed {
        return;
      }
      header := header.(hash := HashBlock(env, header, transactions));
      var root := HashBlockStateRoot();
      header := header.(stateRoot := root);
      sealed := true;
    }

    /** The consensus verdict (given), then the recomputed hash, then each
        transaction's own check, in list order; the first failure is returned. */
    method VerifyHash(consensusErr: Option<Error>) returns (err: Option<Error>)
      ensures err == HashVerdict(env, consensusErr, header, transactions)
    {
      if consensusErr.Some? {
        return consensusErr;
      }
      var wantedHash := HashBlock(env, header, transactions);
      if wantedHash != header.hash {
        return Some(InvalidBlockHash);
      }
      var i := 0;
      while i < |transactions|
        invariant 0 <= i <= |transactions|
        invariant FirstInvalidTx(env.verifyTx, transactions) == FirstInvalidTx(env.verifyTx, transactions[i..])
      {
        var e := env.verifyTx(transactions[i]);
        if e.Some? {
          return e;
        }
        assert transactions[i..][1..] == transactions[i + 1..];
        i := i + 1;
      }
      return None;
    }

    /** Recomputes the state root (changing the block as HashBlockStateRoot
        does) and compares it with the stored one. */
    method VerifyStateRoot() returns (err: Option<Error>)
      modifies this`stateTrie, this`txsTrie, this`transactions, txPool
      ensures TransitionApplied(old(stateTrie), old(txsTrie), old(transactions), old(txPool.pending))
      ensures err == if env.rootHash(stateTrie) == header.stateRoot then None else Some(InvalidBlockStateRoot)
    {
      var wantedStateRoot := HashBlockStateRoot();
      if wantedStateRoot != header.stateRoot {
        return Some(InvalidBlockStateRoot);
      }
      return None;
    }

    /** Hash verification, and only when it passes, state-root verification. */
    method Verify(consensusErr: Option<Error>) returns (err: Option<Error>)
      modifies this`stateTrie, this`txsTrie, this`transactions, txPool
      ensures var first := HashVerdict(env, consensusErr, header, old(transactions));
        first.Some? ==> err == first && unchanged(this) && unchanged(txPool)
      ensures var first := HashVerdict(env, consensusErr, header, old(transactions));
        first.None? ==>
          && TransitionApplied(old(stateTrie), old(txsTrie), old(transactions), old(txPool.pending))
          && err == if env.rootHash(stateTrie) == header.stateRoot then None else Some(InvalidBlockStateRoot)
    {
      err := VerifyHash(consensusErr);
      if err.Some? {
        return;
      }
      err := VerifyStateRoot();
    }
  }

  /** The blocks of a chain with their parent links and heights, kept as an
      arena: block i's parent is parent[i], a smaller index, or none when negative. */
  class Chain {
    const blocks: seq<Block>
    const parent: array<int>
    const height: array<nat>

    ghost predicate Valid()
      reads this, parent, height
    {
      && parent.Length == |blocks|
      && height.Length == |blocks|
      && ParentOrder(parent[..])
    }

    constructor (blocks: seq<Block>, parents: seq<int>, heights: seq<nat>)
      requires |parents| == |blocks| && |heights| == |blocks| && ParentOrder(parents)
      ensures Valid() && fresh(parent) && fresh(height)
      ensures this.blocks == blocks && parent[..] == parents && height[..] == heights
    {
      this.blocks := blocks;
      parent := new int[|blocks|](i requires 0 <= i < |parents| => parents[i]);
      height := new nat[|blocks|](i requires 0 <= i < |heights| => heights[i]);
    }

    /** Links block `child` to block `par` when child's parent hash is par's
        hash: child takes a copy of par's state trie, records par as its
        parent, and heights are resolved by walking up from child. */
    method LinkParentBlock(child: nat, par: nat) returns (ok: bool)
      requires Valid() && par < child < |blocks|
      modifies parent, height, (blocks[child] as Block)`stateTrie
      ensures Valid()
      ensures ok == (blocks[child].header.parentHash == blocks[par].header.hash)
      ensures !ok ==> parent[..] == old(parent[..]) && height[..] == old(height[..])
                      && blocks[child].stateTrie == old(blocks[child].stateTrie)
      ensures ok ==> && parent[..] == old(parent[..])[child := par]
                     && blocks[child].stateTrie == old(blocks[par].stateTrie)
                     && height[..] == ResolveHeights(parent[..], old(height[..]), child)
    {
      if blocks[child].header.parentHash != blocks[par].header.hash {
        return false;
      }
      blocks[child].stateTrie := blocks[par].stateTrie;
      parent[child] := par;

      ghost var P := parent[..];
      ghost var H := height[..];
      assert ParentOrder(P);

      var depth := 0;
      var ancestorHeight := 0;
      var ancestor: int := child;
      while ancestor >= 0
        modifies {}
        invariant ancestor < |P| && parent[..] == P && height[..] == H
        invariant ancestor >= 0 ==> Dist(P, H, child) == depth + Dist(P, H, ancestor)
                                    && Terminal(P, H, child) == Terminal(P, H, ancestor)
        invariant ancestor < 0 ==> depth == Dist(P, H, child) + 1
                                   && ancestorHeight == H[Terminal(P, H, child)]
        decreases ancestor + 1
      {
        depth := depth + 1;
        ancestorHeight := height[ancestor];
        if height[ancestor] > 0 {
          break;
        }
        ancestor := parent[ancestor];
      }
      assert depth == Dist(P, H, child) + 1 && ancestorHeight == H[Terminal(P, H, child)];

      ancestor := child;
      while ancestor >= 0 && depth > 1
        modifies height
        invariant ancestor < |P| && parent[..] == P && height.Length == |P| && depth >= 1
        invariant Relabel(P, height[..], ancestor, depth - 1, ancestorHeight) == ResolveHeights(P, H, child)
        decreases depth
      {
        depth := depth - 1;
        height[ancestor] := ancestorHeight + depth;
        ancestor := parent[ancestor];
      }
      return true;
    }
  }
}

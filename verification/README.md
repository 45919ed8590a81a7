# Block aggregate of the go-nebulas ledger, modelled in Dafny

This project models the `Block` aggregate of the go-nebulas blockchain
(`core/block.go`) and proves what it does. A block bundles an ordered list of
transactions with a header (parent hash, nonce, coinbase address, timestamp,
chain id, and, once sealed, its own hash and state root). It moves from
mutable to sealed. Sealing computes the block hash, then the state root: the
coinbase account is credited the block reward, every transaction is executed
against the block's state trie, and the transactions that fail are handed
back to the transaction pool and spliced out of the list. Receivers verify a
block by recomputing both values. Linking a block to its parent copies the
parent's state trie and resolves heights by walking up the ancestors.

Modules, one file each:

- `primitives.dfy` (`Primitives`): fixed-width integers, addresses,
  transactions, accounts, errors, the constants `BlockHashLength` (32),
  `TxHashLength` (32) and `BlockReward` (16), and `Collaborators`. This
  bundle holds the functions that live outside the block: the SHA3-256
  digest, the 8-byte integer encoders, the trie root hash, the transaction
  engine and the per-transaction check.
- `headers.dfy` (`Headers`): the header and its wire form.
- `hashing.dfy` (`Hashing`): the block hash as a digest of an explicit byte
  string. The lemmas say which fields it commits to.
- `pruning.dfy` (`Pruning`): what the removal pass of the transaction
  execution leaves in the block and hands back to the pool. It includes the
  behaviour at index 0.
- `stateroot.dfy` (`StateRoot`): the coinbase reward, transaction replay, the
  full transition, and its non-idempotence.
- `verification.dfy` (`Verification`): the verdict of hash verification.
- `heights.dfy` (`Heights`): the height walk over a chain kept as an arena of
  parent indices.
- `blocks.dfy` (`Blocks`): the pool, the block and the chain as classes. Their
  methods update fields in place and are proved against the functions above.

Behaviours of the code that the model reproduces:

- `VerifyStateRoot` (core/block.go:326-342) calls `HashBlockStateRoot`,
  which runs the whole state transition again on the block it is given. The
  reward is credited again and the kept transactions are executed again
  (`Blocks.Block.VerifyStateRoot`, `StateRoot.RepeatedTransitionCreditsAgain`).
- Not every failing transaction leaves the list, although the log message at
  core/block.go:375 says "remove it from block.". A failing transaction at
  index 0 of a list longer than one is returned to the pool. The branch at
  core/block.go:393-395 keeps it in the block (`Pruning.FailingHeadStays`).
- `HashBlockStateRoot` discards the error that `rewardCoinbase` returns
  (core/block.go:423) and goes on executing the transactions.
- `Seal` takes the hash (core/block.go:270) before `HashBlockStateRoot`
  prunes the failing transactions (core/block.go:271). A block sealed on this
  node that lost a transaction therefore does not match its own hash
  (`Verification.PrunedSealFailsHashCheck`).

## Model

| member | source | states |
|---|---|---|
| Headers.FromProto | core/block.go:75-87 | a message that is not a header message is refused with NotABlockHeader, and only such a message is; an accepted header converts back to exactly the message it came from |
| Headers.ProtoRoundTrip | core/block.go:62-87 | every header field, the coinbase included, survives conversion to the wire form and back |
| Hashing.TxHashes | core/block.go:412-414 | the transaction hashes written into the hasher, concatenated in list order; TxHashesLength gives its length and TxHashesInjective shows it determines the hashes |
| Hashing.HashInput | core/block.go:407-414 | the bytes written into the hasher: parentHash, encoded nonce, coinbase address, encoded timestamp, then the transaction hashes; HashInputInjective characterises it |
| Hashing.HashBlock | core/block.go:404-417 | the digest of HashInput; HashBlockCommitsOnlyInputs, HashBlockBinding and SwapChangesHash characterise it |
| Hashing.HashBlockCommitsOnlyInputs | core/block.go:404-417 | the block hash reads only parentHash, nonce, coinbase, timestamp and the ordered transaction hashes: the stored hash, stateRoot, chainID and anything in a transaction other than its hash do not affect it |
| Hashing.TxHashesInjective | core/block.go:412-414 | with 32-byte transaction hashes, the concatenated hashes determine the list of hashes, position by position |
| Hashing.HashInputInjective | core/block.go:407-414 | with 8-byte encoders and same-length parent hash and coinbase, the bytes written into the hasher determine every committed field and the ordered transaction hashes |
| Hashing.HashBlockBinding | core/block.go:404-417 | under a collision-free digest, two blocks with equal hashes agree on every committed field and on the transaction hashes in order |
| Hashing.SwapChangesHash | core/block.go:412-414 | transaction order is committed: swapping two transactions with different hashes changes the block hash |
| Pruning.Removed | core/block.go:388-397 | whether the pass takes index i out of a list of n: the index failed, and it is not index 0 of a longer list; FailingHeadStays and FailingSoleRemoved characterise the index-0 case |
| Pruning.SurvivorsFrom | core/block.go:381-400 | the transactions from index k on that stay in the block, in order; SurvivorsShrink bounds it and RemovalStep relates it to each loop iteration |
| Pruning.Survivors | core/block.go:381-400 | the transaction list after the removal pass; SurvivorsKeepOrder characterises it |
| Pruning.Returned | core/block.go:381-387 | the transactions put back into the pool, in the order of the calls; ReturnedEachFailureOnceDescending characterises it |
| Pruning.ListsFailuresStep | core/block.go:367-378 | appending the index of each failing transaction keeps invalidTxs the strictly ascending list of exactly the failing indices seen so far |
| Pruning.NextFailureGap | core/block.go:381-383 | walking invalidTxs from the end visits a failing index with no failure between it and the previously visited one, so no failure is skipped |
| Pruning.RemovalStep | core/block.go:383-397 | one iteration of the reverse loop: the transaction put back is the one at the visited index, and each of the three branches leaves the untouched prefix followed by the survivors from that index on |
| Pruning.ReturnedEachFailureOnceDescending | core/block.go:381-387 | the pool receives every failing transaction exactly once, from the highest index to the lowest, and nothing else |
| Pruning.SurvivorsKeepOrder | core/block.go:381-400 | the list left in the block holds exactly the transactions whose index the pass does not remove, in their original relative order |
| Pruning.CleanRun | core/block.go:367-400 | when every transaction executes, the list is unchanged and the pool receives nothing |
| Pruning.SingleFailure | core/block.go:388-397 | one failing transaction, not the head of a longer list, is removed from the list, the rest stay in order, and the pool receives exactly it |
| Pruning.FailingHeadStays | core/block.go:390-395 | a failing transaction at index 0 of a list longer than one is put back into the pool last and also stays first in the block |
| Pruning.FailingSoleRemoved | core/block.go:390-392 | a failing transaction that is the only one is removed and returned, leaving the block empty |
| Pruning.SurvivorsShrink | core/block.go:381-400 | the pass never adds a transaction, and the list gets strictly shorter when it removes one |
| StateRoot.Rewarded | core/block.go:344-360 | only the coinbase key is written: its balance, an absent account counting as zero, grows by exactly BlockReward, and every other account is unchanged |
| StateRoot.Replay | core/block.go:368-378 | the tries after executing the transactions in list order, each on the tries the previous one left, and which executions failed, one outcome per transaction; ReplayExtend and ReplayPreservesBalance characterise it |
| StateRoot.Transition | core/block.go:420-426 | the reward followed by the replay of the transactions; RepeatedTransitionCreditsAgain characterises it |
| StateRoot.ReplayExtend | core/block.go:368-369 | executing one more transaction continues from the tries the previous executions left |
| StateRoot.ReplayPreservesBalance | core/block.go:367-378 | an account whose balance no single execution changes keeps its balance across the whole execution pass |
| StateRoot.RepeatedTransitionCreditsAgain | core/block.go:420-429 | for a transaction engine that leaves the coinbase balance alone, the state-root computation is not idempotent: run again on the tries and list it left, it credits the coinbase a second reward |
| StateRoot.RecomputedStateRootDiffers | core/block.go:326-342 | so, for a transaction engine that leaves the coinbase balance alone and with a collision-free root hash, recomputing the state root on the instance that was just sealed gives a root different from the stored one |
| Verification.FirstInvalidTx | core/block.go:316-320 | the error of the first transaction whose own check fails; FirstInvalidTxIsFirst characterises it |
| Verification.HashVerdict | core/block.go:297-323 | the consensus error, else InvalidBlockHash on a hash mismatch, else FirstInvalidTx; Blocks.Block.VerifyHash is proved equal to it and PrunedSealFailsHashCheck applies it |
| Verification.FirstInvalidTxIsFirst | core/block.go:315-320 | the transaction verdict is None exactly when every transaction passes its check, and otherwise is the error of the lowest-indexed failing transaction |
| Verification.PrunedSealFailsHashCheck | core/block.go:265-274 | under a collision-free digest, a block sealed on this node whose execution removed a transaction fails its own hash check with InvalidBlockHash |
| Heights.Dist | core/block.go:230-238 | the hops from the block to the terminal node of its walk; the first loop's depth is proved to be Dist plus one |
| Heights.Relabel | core/block.go:240-243 | the heights after the second loop writes base + d, base + d - 1, ... down the path; RelabelFrame, RelabelHead and RelabelStep characterise it |
| Heights.ResolveHeights | core/block.go:230-243 | the heights after both loops; ResolveFrame, ResolveConsecutive, ResolveBlockHeight and LinkToResolvedParent characterise it |
| Heights.Terminal | core/block.go:232-238 | the node where the first walk stops: it lies on the block's parent chain, Dist hops up from the block, and has a positive height or no parent; OnWalkShape and TerminalNotOnWalk show it is the first such node |
| Heights.OnWalkShape | core/block.go:232-238 | every node the walk passes before the terminal node has height 0 and a parent, so the loop goes on past it; the last of them has the terminal node as its parent |
| Heights.TerminalNotOnWalk | core/block.go:232-238 | the terminal node is not among the nodes the walk passes, so the second loop does not rewrite its height |
| Heights.ResolveFrame | core/block.go:240-243 | only the nodes strictly before the terminal node change height; the terminal node and every other node keep theirs |
| Heights.ResolveConsecutive | core/block.go:240-243 | every node given a height ends exactly one above its parent, so heights are consecutive from the terminal node up to the block |
| Heights.ResolveBlockHeight | core/block.go:230-243 | the block ends at the terminal node's height plus its hop distance to it; a block whose height is already positive changes no height |
| Heights.LinkToResolvedParent | core/block.go:230-243 | an unresolved block linked to a parent with a positive height, or to a root such as the genesis block at height 0, gets the parent's height plus one and no other height changes |
| Heights.ResolveTwoUnresolvedBlocks | core/block.go:230-243 | genesis at height 0, A on genesis and B on A, none resolved: one walk from B gives A height 1 and B height 2 |
| Blocks.TxPool.Put | core/block.go:387 | the pool receives the transaction after everything put before it |
| Blocks.Block.NewBlock | core/block.go:143-159 | a new block is unsealed, has no transactions, and carries the given chain id, coinbase, parent hash, nonce, tries and pool; its timestamp is the given clock reading and its hash and state root are empty |
| Blocks.Block.SetNonce | core/block.go:166-172 | callable only on an unsealed block; changes the nonce and nothing else |
| Blocks.Block.SetTimestamp | core/block.go:175-180 | callable only on an unsealed block; changes the timestamp and nothing else |
| Blocks.Block.AddTransactions | core/block.go:249-257 | callable only on an unsealed block; the list becomes the old list followed by the new transactions, in order |
| Blocks.Block.RewardCoinbase | core/block.go:344-360 | the state trie becomes the rewarded state, crediting BlockReward to the coinbase |
| Blocks.Block.ExecuteEach | core/block.go:367-378 | the tries end as every transaction executed in list order leaves them, and invalidTxs lists exactly the failing indices, ascending |
| Blocks.Block.RemoveInvalidTransactions | core/block.go:380-400 | the list becomes the survivors of the removal pass and the pool receives the failing transactions, highest index first |
| Blocks.Block.ExecuteTransactions | core/block.go:362-401 | tries, list and pool end as the execution pass followed by the removal pass leaves them |
| Blocks.Block.HashBlockStateRoot | core/block.go:420-429 | rewards the coinbase, then executes and prunes, then returns the root hash of the resulting state trie |
| Blocks.Block.Seal | core/block.go:265-274 | on a sealed block nothing changes; otherwise the hash is taken over the header and the unpruned list, then the full transition is applied, the new root is stored, and the block is sealed |
| Blocks.Block.VerifyHash | core/block.go:297-323 | returns the consensus error, else InvalidBlockHash when the recomputed hash differs from the stored one, else the first failing transaction's error; the block is not changed |
| Blocks.Block.VerifyStateRoot | core/block.go:326-342 | applies the full transition again and returns InvalidBlockStateRoot exactly when the new root differs from the stored one |
| Blocks.Block.Verify | core/block.go:288-294 | a failing hash verification is returned with the block untouched; only otherwise is the state root verified, with its side effects |
| Blocks.Chain.LinkParentBlock | core/block.go:208-246 | the link succeeds exactly when the parent hash matches. On a mismatch nothing changes. On a match the block takes a copy of the parent's state trie, records the parent, and heights become the resolved heights of the walk from the block |

## Left out

- SHA3-256 and the byte encoders of `nonce` and `timestamp` are fields of `Collaborators`. The lemmas that need it assume a collision-free digest or fixed-width, injective encoders.
- The trie is a `map<Address, Account>` for state and a map of byte strings for transaction records. Its root hash is an abstract function of the map.
- The trie `Clone` failure panic in `LinkParentBlock` is not modelled: copying a map cannot fail.
- Protobuf decoding and encoding of the coinbase account in `rewardCoinbase` are not modelled. With accounts held as values they cannot fail. In the code, an `Unmarshal` or `Marshal` failure makes `rewardCoinbase` return before `stateTrie.Put` (core/block.go:349-350, 354-357), so no reward is credited, and `HashBlockStateRoot` (core/block.go:423) carries on sealing. That skipped-reward path is not modelled.
- Blocks.Block.NewBlock: the tries are held by value. In the code the block holds `*trie.Trie` pointers (core/block.go:97-98, 153-154) that `rewardCoinbase` and `executeTransactions` change in place (core/block.go:358, 369). A trie shared between the caller and the block, which sealing or `VerifyStateRoot` would change for both, is not modelled.
- Blocks.Chain.LinkParentBlock: heights and the depth counter are unbounded naturals, so the 64-bit wrap-around of `uint64` is not modelled.
- StateRoot.Rewarded: balances are unbounded naturals, so overflow of the account balance is not modelled.
- Blocks.Chain.LinkParentBlock: the chain is an arena, and a parent must have a smaller index than its child. This rules out the parent cycles that Go pointers would allow, and with them a walk that never ends.
- Blocks.Block.SetNonce, Blocks.Block.SetTimestamp, Blocks.Block.AddTransactions: the panic on a sealed block is the precondition `!sealed`.
- The consensus backend's verdict is the `consensusErr` parameter of `VerifyHash` and `Verify`. Each transaction's own check is the `verifyTx` collaborator.
- `time.Now()` in `NewBlock` is the `now` parameter.
- The transaction pool is seen only through what is put into it, as an append-only sequence. Its concurrency discipline is not modelled.
- Go slice aliasing in `append(txs[:idx], txs[idx+1:]...)` is not modelled. The model keeps immutable sequences, and only the final transaction list is observable.
- Logging, `String()`, the getters (plain field reads here), and block-level `ToProto`/`FromProto` with their per-transaction conversions are not modelled.
- `Headers.ToProto` carries no contract of its own. Its partner `Headers.FromProto` and the round-trip lemma state the conversion.

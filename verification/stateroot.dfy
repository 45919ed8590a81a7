/** The state transition a block applies to its state trie: the coinbase
    reward, then the execution of every transaction in list order. The state
    root is the trie's root hash after both. */
module StateRoot {
  import opened Primitives
  import opened Pruning

  /** The balance of an account; an absent account counts as a zero balance. */
  function Balance(s: Accounts, a: Address): nat
  {
    if a in s then s[a].balance else 0
  }

  /** The state after crediting the block reward to `coinbase`: only that
      account is written, and it gains exactly BlockReward. */
  function Rewarded(s: Accounts, coinbase: Address): (r: Accounts)
    ensures r.Keys == s.Keys + {coinbase}
    ensures Balance(r, coinbase) == Balance(s, coinbase) + BlockReward
    ensures forall a :: a in s && a != coinbase ==> r[a] == s[a]
  {
    s[coinbase := Account(Balance(s, coinbase) + BlockReward)]
  }

  /** The tries after running transactions in order, and which of them failed. */
  datatype Run = Run(state: Accounts, records: Records, fails: seq<bool>)

  /** Executes the transactions one after the other against the tries, each
      against the tries the previous one left, recording each failure. */
  function Replay(exec: (Accounts, Records, Transaction) -> Execution, s: Accounts, r: Records, txs: seq<Transaction>): (run: Run)
    ensures |run.fails| == |txs|
    decreases |txs|
  {
    if txs == [] then Run(s, r, [])
    else
      var before := Replay(exec, s, r, txs[..|txs| - 1]);
      var e := exec(before.state, before.records, txs[|txs| - 1]);
      Run(e.state, e.records, before.fails + [!e.ok])
  }

  /** Replaying one more transaction of a list continues from where the
      shorter replay stopped. */
  lemma ReplayExtend(exec: (Accounts, Records, Transaction) -> Execution, s: Accounts, r: Records, txs: seq<Transaction>, i: nat)
    requires i < |txs|
    ensures var before := Replay(exec, s, r, txs[..i]);
      var e := exec(before.state, before.records, txs[i]);
      Replay(exec, s, r, txs[..i + 1]) == Run(e.state, e.records, before.fails + [!e.ok])
  {
    assert txs[..i + 1][..i] == txs[..i];
  }

  /** What the state-root computation does to a block's tries: reward the
      coinbase, then execute the transactions. */
  function Transition(c: Collaborators, coinbase: Address, s: Accounts, r: Records, txs: seq<Transaction>): Run
  {
    Replay(c.execute, Rewarded(s, coinbase), r, txs)
  }

  /** The transaction engine never changes the balance of account `a`. */
  ghost predicate PreservesBalance(exec: (Accounts, Records, Transaction) -> Execution, a: Address)
  {
    forall s, r, tx :: Balance(exec(s, r, tx).state, a) == Balance(s, a)
  }

  /** A collision-free state root. */
  ghost predicate RootInjective(c: Collaborators)
  {
    forall s1, s2 :: c.rootHash(s1) == c.rootHash(s2) ==> s1 == s2
  }

  lemma {:induction false} ReplayPreservesBalance(exec: (Accounts, Records, Transaction) -> Execution, a: Address, s: Accounts, r: Records, txs: seq<Transaction>)
    requires PreservesBalance(exec, a)
    ensures Balance(Replay(exec, s, r, txs).state, a) == Balance(s, a)
    decreases |txs|
  {
    if txs != [] {
      ReplayPreservesBalance(exec, a, s, r, txs[..|txs| - 1]);
    }
  }

  /** The computation is not idempotent: run a second time on the block it
      has already been run on (the tries it left and the transactions it
      kept), it credits the reward a second time. Shown for blocks whose
      transactions leave the coinbase balance alone. */
  lemma RepeatedTransitionCreditsAgain(c: Collaborators, coinbase: Address, s: Accounts, r: Records, txs: seq<Transaction>)
    requires PreservesBalance(c.execute, coinbase)
    ensures var first := Transition(c, coinbase, s, r, txs);
      var second := Transition(c, coinbase, first.state, first.records, Survivors(txs, first.fails));
      && Balance(first.state, coinbase) == Balance(s, coinbase) + BlockReward
      && Balance(second.state, coinbase) == Balance(s, coinbase) + 2 * BlockReward
  {
    var first := Transition(c, coinbase, s, r, txs);
    ReplayPreservesBalance(c.execute, coinbase, Rewarded(s, coinbase), r, txs);
    ReplayPreservesBalance(c.execute, coinbase, Rewarded(first.state, coinbase), first.records, Survivors(txs, first.fails));
  }

  /** Consequently, with a collision-free root, recomputing the state root of
      a block on the instance that was just sealed yields a different root
      from the one stored at sealing. */
  lemma RecomputedStateRootDiffers(c: Collaborators, coinbase: Address, s: Accounts, r: Records, txs: seq<Transaction>)
    requires PreservesBalance(c.execute, coinbase) && RootInjective(c)
    ensures var first := Transition(c, coinbase, s, r, txs);
      var second := Transition(c, coinbase, first.state, first.records, Survivors(txs, first.fails));
      c.rootHash(second.state) != c.rootHash(first.state)
  {
    RepeatedTransitionCreditsAgain(c, coinbase, s, r, txs);
  }
}

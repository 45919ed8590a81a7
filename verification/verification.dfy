/** The hash-verification verdict of a block: the consensus backend's verdict,
    then the recomputed block hash, then every transaction's own check, the
    first failure deciding. */
module Verification {
  import opened Primitives
  import opened Headers
  import opened Hashing
  import opened Pruning

  /** The error of the first transaction whose own check fails, if any. */
  function FirstInvalidTx(verify: Transaction -> Option<Error>, txs: seq<Transaction>): Option<Error>
  {
    if txs == [] then None
    else if verify(txs[0]).Some? then verify(txs[0])
    else FirstInvalidTx(verify, txs[1..])
  }

  /** FirstInvalidTx is None exactly when every transaction passes its check,
      and otherwise is the error of the lowest-indexed failing transaction. */
  lemma {:induction false} FirstInvalidTxIsFirst(verify: Transaction -> Option<Error>, txs: seq<Transaction>)
    ensures FirstInvalidTx(verify, txs).None? <==> forall i :: 0 <= i < |txs| ==> verify(txs[i]).None?
    ensures FirstInvalidTx(verify, txs).Some? ==>
              exists i :: 0 <= i < |txs| && FirstInvalidTx(verify, txs) == verify(txs[i])
                          && forall j :: 0 <= j < i ==> verify(txs[j]).None?
  {
    if txs != [] && verify(txs[0]).None? {
      FirstInvalidTxIsFirst(verify, txs[1..]);
      assert forall i :: 1 <= i < |txs| ==> txs[i] == txs[1..][i - 1];
      if FirstInvalidTx(verify, txs).Some? {
        var k :| 0 <= k < |txs[1..]| && FirstInvalidTx(verify, txs[1..]) == verify(txs[1..][k])
                 && forall j :: 0 <= j < k ==> verify(txs[1..][j]).None?;
        assert FirstInvalidTx(verify, txs) == verify(txs[k + 1]);
      }
    }
  }

  /** The verdict of the hash verification, checks in order, first failure wins. */
  function HashVerdict(c: Collaborators, consensusErr: Option<Error>, h: Header, txs: seq<Transaction>): Option<Error>
  {
    if consensusErr.Some? then consensusErr
    else if HashBlock(c, h, txs) != h.hash then Some(InvalidBlockHash)
    else FirstInvalidTx(c.verifyTx, txs)
  }

  /** Sealing hashes the transaction list before the failing transactions are
      taken out of it. So, with a collision-free digest, a block sealed on
      this node whose execution removed a transaction no longer matches its
      own hash: once the consensus backend accepts it, its hash verification
      reports InvalidBlockHash. */
  lemma PrunedSealFailsHashCheck(c: Collaborators, h: Header, txs: seq<Transaction>, fails: seq<bool>)
    requires DigestInjective(c) && WellFormedTxHashes(txs)
    requires |fails| == |txs|
    requires exists i :: 0 <= i < |txs| && Removed(|txs|, fails, i)
    ensures HashVerdict(c, None, h.(hash := HashBlock(c, h, txs)), Survivors(txs, fails)) == Some(InvalidBlockHash)
  {
    var kept := Survivors(txs, fails);
    var sealed := h.(hash := HashBlock(c, h, txs));
    SurvivorsShrink(txs, fails, 0);
    SurvivorsKeepOrder(txs, fails);
    assert WellFormedTxHashes(kept);
    TxHashesLength(txs);
    TxHashesLength(kept);
    assert |HashInput(c, sealed, kept)| < |HashInput(c, h, txs)|;
  }
}

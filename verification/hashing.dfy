/** The block hash: a digest over the header's input fields and the ordered
    transaction hashes. The digest and the integer encoders are collaborators;
    the lemmas say which fields the hash commits to, and that under a
    collision-free digest and fixed-width fields it binds every one of them. */
module Hashing {
  import opened Primitives
  import opened Headers

  /** The transaction hashes, concatenated in list order. */
  function TxHashes(txs: seq<Transaction>): seq<byte>
  {
    if txs == [] then [] else txs[0].hash + TxHashes(txs[1..])
  }

  /** The bytes written into the hasher, in the order they are written. */
  function HashInput(c: Collaborators, h: Header, txs: seq<Transaction>): seq<byte>
  {
    h.parentHash + c.fromUint64(h.nonce) + h.coinbase.address + c.fromInt64(h.timestamp) + TxHashes(txs)
  }

  /** The block hash. */
  function HashBlock(c: Collaborators, h: Header, txs: seq<Transaction>): Hash
  {
    c.digest(HashInput(c, h, txs))
  }

  /** The two integer encoders always produce 8 bytes and never map two values to the same bytes. */
  ghost predicate FixedWidthEncoders(c: Collaborators)
  {
    && (forall n :: |c.fromUint64(n)| == 8)
    && (forall t :: |c.fromInt64(t)| == 8)
    && (forall n, m :: c.fromUint64(n) == c.fromUint64(m) ==> n == m)
    && (forall t, u :: c.fromInt64(t) == c.fromInt64(u) ==> t == u)
  }

  /** An idealised collision-free digest. */
  ghost predicate DigestInjective(c: Collaborators)
  {
    forall a, b :: c.digest(a) == c.digest(b) ==> a == b
  }

  /** Every transaction hash in the list is TxHashLength bytes long. */
  predicate WellFormedTxHashes(txs: seq<Transaction>)
  {
    forall i :: 0 <= i < |txs| ==> |txs[i].hash| == TxHashLength
  }

  /** The header fields that are written into the hasher agree. */
  predicate SameCommittedFields(h1: Header, h2: Header)
  {
    && h1.parentHash == h2.parentHash
    && h1.nonce == h2.nonce
    && h1.coinbase == h2.coinbase
    && h1.timestamp == h2.timestamp
  }

  /** The two lists have the same transaction hashes, position by position. */
  predicate SameTxHashes(t1: seq<Transaction>, t2: seq<Transaction>)
  {
    |t1| == |t2| && forall i :: 0 <= i < |t1| ==> t1[i].hash == t2[i].hash
  }

  lemma {:induction false} TxHashesCongruent(t1: seq<Transaction>, t2: seq<Transaction>)
    requires SameTxHashes(t1, t2)
    ensures TxHashes(t1) == TxHashes(t2)
  {
    if t1 != [] {
      assert t1[0].hash == t2[0].hash;
      TxHashesCongruent(t1[1..], t2[1..]);
    }
  }

  lemma {:induction false} TxHashesLength(txs: seq<Transaction>)
    requires WellFormedTxHashes(txs)
    ensures |TxHashes(txs)| == TxHashLength * |txs|
  {
    if txs != [] {
      TxHashesLength(txs[1..]);
    }
  }

  /** Equal concatenations with equally long left parts have equal parts. */
  lemma SplitAt(a: seq<byte>, b: seq<byte>, a': seq<byte>, b': seq<byte>)
    requires |a| == |a'| && a + b == a' + b'
    ensures a == a' && b == b'
  {
    assert a == (a + b)[..|a|] && a' == (a' + b')[..|a|];
    assert b == (a + b)[|a|..] && b' == (a' + b')[|a|..];
  }

  /** Fixed-width transaction hashes are recovered from their concatenation. */
  lemma {:induction false} TxHashesInjective(t1: seq<Transaction>, t2: seq<Transaction>)
    requires WellFormedTxHashes(t1) && WellFormedTxHashes(t2)
    requires TxHashes(t1) == TxHashes(t2)
    ensures SameTxHashes(t1, t2)
  {
    TxHashesLength(t1);
    TxHashesLength(t2);
    if t1 != [] {
      SplitAt(t1[0].hash, TxHashes(t1[1..]), t2[0].hash, TxHashes(t2[1..]));
      TxHashesInjective(t1[1..], t2[1..]);
      forall i | 0 <= i < |t1|
        ensures t1[i].hash == t2[i].hash
      {
        if i > 0 {
          assert t1[i] == t1[1..][i - 1] && t2[i] == t2[1..][i - 1];
        }
      }
    }
  }

  /** The hash reads only parentHash, nonce, coinbase, timestamp and the
      transaction hashes: headers differing in hash, stateRoot or chainID, and
      transaction lists differing in anything but their hashes, hash alike. */
  lemma HashBlockCommitsOnlyInputs(c: Collaborators, h1: Header, h2: Header, t1: seq<Transaction>, t2: seq<Transaction>)
    requires SameCommittedFields(h1, h2) && SameTxHashes(t1, t2)
    ensures HashBlock(c, h1, t1) == HashBlock(c, h2, t2)
  {
    TxHashesCongruent(t1, t2);
  }

  /** With fixed-width fields, the bytes written into the hasher determine
      every committed field and the whole list of transaction hashes. */
  lemma HashInputInjective(c: Collaborators, h1: Header, h2: Header, t1: seq<Transaction>, t2: seq<Transaction>)
    requires FixedWidthEncoders(c)
    requires |h1.parentHash| == |h2.parentHash| && |h1.coinbase.address| == |h2.coinbase.address|
    requires WellFormedTxHashes(t1) && WellFormedTxHashes(t2)
    requires HashInput(c, h1, t1) == HashInput(c, h2, t2)
    ensures SameCommittedFields(h1, h2) && SameTxHashes(t1, t2)
  {
    var n1, n2 := c.fromUint64(h1.nonce), c.fromUint64(h2.nonce);
    var s1, s2 := c.fromInt64(h1.timestamp), c.fromInt64(h2.timestamp);
    var p1 := h1.parentHash + n1 + h1.coinbase.address + s1;
    var p2 := h2.parentHash + n2 + h2.coinbase.address + s2;
    SplitAt(p1, TxHashes(t1), p2, TxHashes(t2));
    SplitAt(h1.parentHash + n1 + h1.coinbase.address, s1, h2.parentHash + n2 + h2.coinbase.address, s2);
    SplitAt(h1.parentHash + n1, h1.coinbase.address, h2.parentHash + n2, h2.coinbase.address);
    SplitAt(h1.parentHash, n1, h2.parentHash, n2);
    TxHashesInjective(t1, t2);
  }

  /** Under a collision-free digest, equal block hashes mean equal committed
      fields and equal transaction hashes in the same order: changing any one
      of them changes the hash. */
  lemma HashBlockBinding(c: Collaborators, h1: Header, h2: Header, t1: seq<Transaction>, t2: seq<Transaction>)
    requires DigestInjective(c) && FixedWidthEncoders(c)
    requires |h1.parentHash| == |h2.parentHash| && |h1.coinbase.address| == |h2.coinbase.address|
    requires WellFormedTxHashes(t1) && WellFormedTxHashes(t2)
    requires HashBlock(c, h1, t1) == HashBlock(c, h2, t2)
    ensures SameCommittedFields(h1, h2) && SameTxHashes(t1, t2)
  {
    HashInputInjective(c, h1, h2, t1, t2);
  }

  /** Transaction order is committed: swapping two transactions whose hashes
      differ changes the block hash. */
  lemma SwapChangesHash(c: Collaborators, h: Header, txs: seq<Transaction>, i: nat, j: nat)
    requires DigestInjective(c) && FixedWidthEncoders(c)
    requires WellFormedTxHashes(txs)
    requires i < j < |txs| && txs[i].hash != txs[j].hash
    ensures HashBlock(c, h, txs) != HashBlock(c, h, txs[i := txs[j]][j := txs[i]])
  {
    var swapped := txs[i := txs[j]][j := txs[i]];
    if HashBlock(c, h, txs) == HashBlock(c, h, swapped) {
      HashBlockBinding(c, h, h, txs, swapped);
      assert false;
    }
  }
}

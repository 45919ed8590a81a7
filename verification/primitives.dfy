/** Value types shared by the block model: fixed-width integers, byte strings,
    addresses, transactions, accounts, errors, and the bundle of external
    collaborators (hash function, integer encoders, state-trie root,
    transaction engine) that the block calls but does not implement. */
module Primitives {

  newtype byte = x: int | 0 <= x < 0x100
  newtype u32 = x: int | 0 <= x < 0x1_0000_0000
  newtype u64 = x: int | 0 <= x < 0x1_0000_0000_0000_0000
  newtype i64 = x: int | -0x8000_0000_0000_0000 <= x < 0x8000_0000_0000_0000

  /** Digests are byte strings; a well-formed block digest is 32 bytes long. */
  type Hash = seq<byte>

  /** Length in bytes of a block hash. */
  const BlockHashLength: nat := 32

  /** Length in bytes of a transaction hash: transactions are identified by
      the same 32-byte SHA3-256 digests as blocks. */
  const TxHashLength: nat := 32

  /** Fixed reward credited to the coinbase account of every block. */
  const BlockReward: nat := 16

  datatype Address = Address(address: seq<byte>)

  /** A transaction as the block sees it: its own hash, and the rest of its
      content, which is opaque here. */
  datatype Transaction = Transaction(hash: Hash, content: seq<byte>)

  /** An account record of the state trie; only the balance is used by the block. */
  datatype Account = Account(balance: nat)

  /** The state trie, as the key/value mapping it authenticates. */
  type Accounts = map<Address, Account>

  /** The transaction-record trie, as an opaque key/value mapping. */
  type Records = map<seq<byte>, seq<byte>>

  datatype Error =
    | InvalidBlockHash
    | InvalidBlockStateRoot
    | NotABlockHeader
    | External(reason: string)

  datatype Option<T> = None | Some(value: T)

  datatype Result<T> = Ok(value: T) | Err(error: Error)

  /** What executing one transaction against the two tries yields. */
  datatype Execution = Execution(state: Accounts, records: Records, ok: bool)

  /** The collaborators the block calls into:
      - digest: the SHA3-256 hasher, applied to the bytes written into it;
      - fromUint64, fromInt64: the 8-byte integer encoders of the byte utilities;
      - rootHash: the state trie's root hash;
      - execute: a transaction's Execute against the state and record tries;
      - verifyTx: a transaction's own Verify (None means no error). */
  datatype Collaborators = Collaborators(
    digest: seq<byte> -> Hash,
    fromUint64: u64 -> seq<byte>,
    fromInt64: i64 -> seq<byte>,
    rootHash: Accounts -> Hash,
    execute: (Accounts, Records, Transaction) -> Execution,
    verifyTx: Transaction -> Option<Error>)
}

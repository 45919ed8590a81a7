/** The block header and its conversion to and from the wire message form. */
module Headers {
  import opened Primitives

  /** Header of a block. `hash` and `stateRoot` are empty until the block is sealed. */
  datatype Header = Header(
    hash: Hash,
    parentHash: Hash,
    stateRoot: Hash,
    nonce: u64,
    coinbase: Address,
    timestamp: i64,
    chainID: u32)

  /** The structured wire form of a header: the same fields, with the coinbase
      as its raw address bytes. */
  datatype HeaderProto = HeaderProto(
    hash: seq<byte>,
    parentHash: seq<byte>,
    stateRoot: seq<byte>,
    nonce: u64,
    coinbase: seq<byte>,
    timestamp: i64,
    chainID: u32)

  /** A decoded wire message: either a header message or a message of another kind. */
  datatype Message = HeaderMessage(header: HeaderProto) | OtherMessage(kind: string)

  function ToProto(h: Header): Message
  {
    HeaderMessage(HeaderProto(h.hash, h.parentHash, h.stateRoot, h.nonce,
                              h.coinbase.address, h.timestamp, h.chainID))
  }

  /** Rebuilds a header from a message; a message that is not a header message is refused. */
  function FromProto(m: Message): (r: Result<Header>)
    ensures r.Err? <==> !m.HeaderMessage?
    ensures r.Err? ==> r.error == NotABlockHeader
    ensures r.Ok? ==> ToProto(r.value) == m
  {
    match m
    case HeaderMessage(p) =>
      Ok(Header(p.hash, p.parentHash, p.stateRoot, p.nonce, Address(p.coinbase), p.timestamp, p.chainID))
    case OtherMessage(_) => Err(NotABlockHeader)
  }

  /** Every header field survives the trip through the wire form. */
  lemma ProtoRoundTrip(h: Header)
    ensures ToProto(h).HeaderMessage?
    ensures FromProto(ToProto(h)) == Ok(h)
  {
  }
}

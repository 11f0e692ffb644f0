/** The Ethereum block header (parachain/primitives/ethereum/src/header.rs). */
module EthereumHeader {
  import opened Primitives

  /** Hash of the empty ommers list. */
  const EMPTY_OMMERS_HASH := H256([
    0x1d, 0xcc, 0x4d, 0xe8, 0xde, 0xc7, 0x5d, 0x7a, 0xab, 0x85, 0xb5, 0x67, 0xb6, 0xcc, 0xd4, 0x1a,
    0xd3, 0x12, 0x45, 0x1b, 0x94, 0x8a, 0x74, 0x13, 0xf0, 0xa1, 0x42, 0xfd, 0x40, 0xd4, 0x93, 0x47])

  /** `seal` holds items that are RLP-encoded already. */
  datatype Header = Header(
    parentHash: H256,
    timestamp: U64,
    number: U64,
    author: Bytes,
    transactionsRoot: H256,
    ommersHash: H256,
    extraData: Bytes,
    stateRoot: H256,
    receiptsRoot: H256,
    logsBloom: Bytes,
    gasUsed: U256,
    gasLimit: U256,
    difficulty: U256,
    seal: seq<Bytes>,
    baseFee: Option<U256>)

  datatype HeaderId = HeaderId(number: U64, hash: H256)

  predicate HasOmmers(header: Header) {
    header.ommersHash != EMPTY_OMMERS_HASH
  }
}

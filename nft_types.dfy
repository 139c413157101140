/** The record shapes of the asset ledger (src/types/nft.ts). */
module NftTypes {
  import opened Wrappers

  /** An asset. Addresses, ids and timestamps are plain strings, as in the
      source; `createdAt` is an ISO-8601 timestamp supplied by the caller. */
  datatype Nft = Nft(
    id: string,
    name: string,
    description: string,
    image: string,
    owner: string,
    creator: string,
    tokenURI: string,
    createdAt: string)

  /** `'mint' | 'transfer'` */
  datatype TxType = Mint | Transfer

  /** One entry of the transaction log. */
  datatype Transaction = Transaction(
    hash: string,
    from: string,
    to: string,
    tokenId: string,
    timestamp: string,
    txType: TxType)

  /** What the creation form collects; `image` is `None` for a null file.
      The file itself is treated as the opaque string it is later encoded to. */
  datatype NftFormData = NftFormData(name: string, description: string, image: Option<string>)
}

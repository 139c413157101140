/** The creation page of src/pages/Create.tsx: the form schema and the
    submit handler that mints an asset for the connected account. The form
    library only calls the handler with data the schema accepts. */
module Create {
  import opened Wrappers
  import opened NftTypes
  import opened Text
  import opened SmartContractService

  /** `z.string().min(lo).max(hi)` */
  predicate LengthWithin(s: string, lo: nat, hi: nat) {
    lo <= |s| <= hi
  }

  /** `formSchema`: a name of 1 to 100 characters, a description of 1 to
      1000, and an image that is not null. */
  predicate FormSchemaAccepts(data: NftFormData): (r: bool)
    ensures r ==> data.name != "" && data.description != "" && data.image != None
    ensures r ==> |data.name| <= 100 && |data.description| <= 1000
  {
    && LengthWithin(data.name, 1, 100)
    && LengthWithin(data.description, 1, 1000)
    && data.image.Some?
  }

  /** Which toast, if any, a submission ends with. */
  datatype SubmitOutcome =
    | FormRejected   // the schema's field messages; the handler is not called
    | NotConnected   // "Not connected"
    | AssetCreated(nft: Nft)  // "Asset created"

  class CreatePage {
    var isSubmitting: bool

    constructor ()
      ensures !isSubmitting
    {
      isSubmitting := false;
    }

    /** Validation by `formSchema` followed by `onSubmit`: with no connected
        account nothing is minted; otherwise the asset is minted with the
        connected account as owner. */
    method Submit(data: NftFormData, account: Option<string>, isConnected: bool, ledger: LocalLedger,
                  tokenId: string, timestamp: string, draws: seq<int>)
      returns (outcome: SubmitOutcome)
      requires IsDraws(draws) && !HasId(ledger.nfts, tokenId)
      modifies this, ledger
      ensures outcome == FormRejected <==> !FormSchemaAccepts(data)
      ensures outcome == NotConnected <==> FormSchemaAccepts(data) && !(isConnected && Present(account))
      ensures !outcome.AssetCreated? ==> ledger.State() == old(ledger.State()) && isSubmitting == old(isSubmitting)
      ensures outcome.AssetCreated? ==>
                && (outcome.nft, ledger.State()) ==
                   Minted(old(ledger.State()), data.name, data.description, data.image.value, account.value,
                          tokenId, timestamp, draws)
                && outcome.nft.owner == account.value && outcome.nft.creator == account.value
                && 1 <= |outcome.nft.name| <= 100 && 1 <= |outcome.nft.description| <= 1000
                && !isSubmitting
      ensures old(Valid(ledger.State())) ==> Valid(ledger.State())
    {
      if !FormSchemaAccepts(data) {
        return FormRejected;
      }
      if !(isConnected && Present(account)) {
        return NotConnected;
      }
      isSubmitting := true;
      var nft := ledger.MintNft(data.name, data.description, data.image.value, account.value,
                                tokenId, timestamp, draws);
      outcome := AssetCreated(nft);
      isSubmitting := false;
    }
  }

  /** The bounds hold only on this path: the ledger mints whatever name and
      description it is given, including empty ones the form refuses. */
  lemma LedgerMintsUncheckedData(s: LedgerState, owner: string, tokenId: string,
                                 timestamp: string, draws: seq<int>)
    requires IsDraws(draws)
    ensures var data := NftFormData("", "", None);
            var nft := Minted(s, data.name, data.description, "", owner, tokenId, timestamp, draws).0;
            !FormSchemaAccepts(data) && nft.name == "" && nft.description == ""
  {
  }
}

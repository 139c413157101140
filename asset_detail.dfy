/** The asset page of src/pages/AssetDetail.tsx: the checks it makes before
    asking the ledger for a transfer, the owner test that decides whether the
    transfer form is shown, and the shortened address display.

    These checks live in the page, not in the ledger; the lemmas at the end
    say what they guarantee about the ledger call and where they fall short. */
module AssetDetail {
  import opened Wrappers
  import opened Text
  import opened NftTypes
  import opened SmartContractService

  function Clamp(i: int, len: nat): (r: nat)
    ensures r <= len
  {
    if i < 0 then 0 else if i > len then len else i
  }

  /** `s.substring(start, end)`: both bounds are clamped to the string and
      swapped when the first is larger. */
  function Substring(s: string, start: int, end: int): (r: string)
    ensures 0 <= start <= end <= |s| ==> r == s[start..end]
    ensures 0 <= end <= start <= |s| ==> r == s[end..start]
    ensures 0 <= start <= |s| <= end ==> r == s[start..]
    ensures start <= 0 && end <= 0 ==> r == ""
    ensures start >= |s| && end >= |s| ==> r == ""
    ensures |r| <= |s|
  {
    var a, b := Clamp(start, |s|), Clamp(end, |s|);
    if a <= b then s[a..b] else s[b..a]
  }

  /** `formatAddress`: the first six characters, an ellipsis, and everything
      from index 38 on. */
  function FormatAddress(address: string): (r: string)
    ensures |address| >= 38 ==> r == address[..6] + "..." + address[38..]
    ensures |address| == 42 ==> |r| == 13
    ensures 6 <= |address| <= 38 ==> r == address[..6] + "..."
    ensures |address| <= 6 ==> r == address + "..."
  {
    Substring(address, 0, 6) + "..." + Substring(address, 38, |address|)
  }

  /** For full-length addresses the display shows exactly the first six and
      the last four characters: two addresses look the same precisely when
      these agree, whatever lies between. */
  lemma FormatAddressShows(a: string, b: string)
    requires |a| == 42 && |b| == 42
    ensures FormatAddress(a) == FormatAddress(b) <==> a[..6] == b[..6] && a[38..] == b[38..]
  {
    var fa, fb := FormatAddress(a), FormatAddress(b);
    if fa == fb {
      assert fa[..6] == a[..6] && fb[..6] == b[..6];
      assert fa[9..] == a[38..] && fb[9..] == b[38..];
    }
  }

  /** `isOwner`: an asset and an account are both there, and the account is
      the owner, ignoring case. */
  predicate IsOwner(nft: Option<Nft>, account: Option<string>): (r: bool)
    ensures r ==> nft.Some? && account.Some? && 0 < |account.value| == |nft.value.owner|
    ensures nft.Some? && Present(account) && nft.value.owner == account.value ==> r
  {
    nft.Some? && Present(account) && SameAddress(nft.value.owner, account.value)
  }

  /** The recipient passes the address check: not empty, starts with `0x`,
      exactly 42 characters. Nothing checks that the rest is hexadecimal. */
  predicate WellFormedRecipient(recipient: string): (r: bool)
    ensures r <==> |recipient| == 42 && recipient[0] == '0' && recipient[1] == 'x'
  {
    recipient != "" && "0x" <= recipient && |recipient| == 42
  }

  /** Every check `handleTransfer` makes before calling the ledger. */
  predicate TransferGuardsPass(nft: Option<Nft>, account: Option<string>, isConnected: bool, recipient: string): (r: bool)
    ensures r ==> isConnected && Present(account) && nft.Some? && |recipient| == 42
    ensures r ==> recipient != nft.value.owner && !IsOwner(nft, Some(recipient))
  {
    nft.Some? && Present(account) && isConnected &&
    WellFormedRecipient(recipient) && !SameAddress(recipient, nft.value.owner)
  }

  /** Which toast `handleTransfer` ends with, if any. */
  datatype TransferOutcome =
    | NothingToDo           // no asset, no account or not connected: silent return
    | InvalidAddress        // "Invalid address"
    | CannotTransferToSelf  // "Invalid recipient"
    | AssetTransferred      // "Asset transferred"
    | TransferError         // "Error": the ledger threw

  /** The page's state that `handleTransfer` reads and writes. */
  class AssetDetailPage {
    var nft: Option<Nft>
    var account: Option<string>
    var isConnected: bool
    var recipientAddress: string
    var isTransferring: bool

    constructor (nft: Option<Nft>, account: Option<string>, isConnected: bool)
      ensures this.nft == nft && this.account == account && this.isConnected == isConnected
      ensures recipientAddress == "" && !isTransferring
    {
      this.nft := nft;
      this.account := account;
      this.isConnected := isConnected;
      recipientAddress := "";
      isTransferring := false;
    }

    /** `handleTransfer`: the guards in order, each returning early, then the
        ledger call with the connected account as sender. */
    method HandleTransfer(ledger: LocalLedger, timestamp: string, draws: seq<int>)
      returns (outcome: TransferOutcome)
      requires IsDraws(draws)
      modifies this`recipientAddress, this`isTransferring, ledger
      ensures isTransferring == if TransferGuardsPass(nft, account, isConnected, old(recipientAddress))
                               then false else old(isTransferring)
      ensures outcome == NothingToDo <==> !(nft.Some? && Present(account) && isConnected)
      ensures outcome == InvalidAddress <==>
                nft.Some? && Present(account) && isConnected && !WellFormedRecipient(old(recipientAddress))
      ensures outcome == CannotTransferToSelf <==>
                nft.Some? && Present(account) && isConnected && WellFormedRecipient(old(recipientAddress)) &&
                SameAddress(old(recipientAddress), nft.value.owner)
      ensures !TransferGuardsPass(nft, account, isConnected, old(recipientAddress)) ==>
                ledger.State() == old(ledger.State()) && recipientAddress == old(recipientAddress)
      ensures TransferGuardsPass(nft, account, isConnected, old(recipientAddress)) ==>
                var (r, s) := Transferred(old(ledger.State()), account.value, old(recipientAddress), nft.value.id, timestamp, draws);
                && ledger.State() == s
                && (outcome == AssetTransferred <==> r.Ok?)
                && (outcome == TransferError <==> r.Err?)
                && recipientAddress == if r.Ok? then "" else old(recipientAddress)
    {
      if !(nft.Some? && Present(account) && isConnected) {
        return NothingToDo;
      }
      if !WellFormedRecipient(recipientAddress) {
        return InvalidAddress;
      }
      if SameAddress(recipientAddress, nft.value.owner) {
        return CannotTransferToSelf;
      }
      isTransferring := true;
      var success := ledger.TransferNft(account.value, recipientAddress, nft.value.id, timestamp, draws);
      match success {
        case Ok(_) =>
          recipientAddress := "";
          outcome := AssetTransferred;
        case Err(_) =>
          outcome := TransferError;
      }
      isTransferring := false;
    }
  }

  // ---------------------------------------------------------------- end to end

  /** When the page's copy of the asset agrees with the ledger, the guards
      and the ledger together give what neither gives alone: the transfer
      succeeds exactly when the page would show the form (`isOwner`), it can
      only fail as "Not the owner", and on success the new owner is a
      well-formed address different from the old one. */
  lemma GuardedTransfer(s: LedgerState, nft: Nft, account: string, recipient: string,
                        timestamp: string, draws: seq<int>)
    requires IsDraws(draws)
    requires TransferGuardsPass(Some(nft), Some(account), true, recipient)
    requires HasId(s.nfts, nft.id) && s.nfts[FindIndex(s.nfts, nft.id)].owner == nft.owner
    ensures var (r, s') := Transferred(s, account, recipient, nft.id, timestamp, draws);
            var i := FindIndex(s.nfts, nft.id);
            && (r.Ok? <==> IsOwner(Some(nft), Some(account)))
            && (r.Err? ==> r.error == NotOwner)
            && (r.Ok? ==> WellFormedRecipient(s'.nfts[i].owner) && !SameAddress(s'.nfts[i].owner, s.nfts[i].owner))
  {
  }

  /** The only caller of `handleTransfer` is the transfer button, which the
      page renders only when `isOwner` holds (AssetDetail.tsx:222). With that
      gate, even when the page's copy of the asset is stale, a successful
      ledger transfer always moves the asset to a different, well-formed
      address: the ledger's owner matches the account, the account matches
      the copy's owner, and the guards keep the recipient apart from the
      copy's owner. */
  lemma GatedTransferNeverSelf(s: LedgerState, copy: Nft, account: string, recipient: string,
                               timestamp: string, draws: seq<int>)
    requires IsDraws(draws)
    requires IsOwner(Some(copy), Some(account))
    requires TransferGuardsPass(Some(copy), Some(account), true, recipient)
    requires HasId(s.nfts, copy.id)
    ensures var (r, s') := Transferred(s, account, recipient, copy.id, timestamp, draws);
            var i := FindIndex(s.nfts, copy.id);
            r.Ok? ==> WellFormedRecipient(s'.nfts[i].owner) && !SameAddress(s'.nfts[i].owner, s.nfts[i].owner)
  {
  }
}

/** The simulated asset ledger of src/services/smartContractService.ts: two
    persisted lists, `nfts` and `transactions`, changed only by `mintNFT` and
    `transferNFT`.

    The step functions `Minted` and `Transferred` say what one call does to the
    pair of lists; the class `LocalLedger` holds the lists as fields and its
    methods are proved to perform exactly those steps. `Valid` is the invariant
    the two steps keep. */
module SmartContractService {
  import opened Wrappers
  import opened Text
  import opened NftTypes

  /** `ethers.ZeroAddress`, the sender recorded for every mint. */
  const ZeroAddress: string := "0x0000000000000000000000000000000000000000"

  /** The simulated content address is this prefix followed by the token id. */
  const TokenUriPrefix: string := "ipfs://QmFake/"

  /** The two errors `transferNFT` throws. */
  datatype LedgerError = NftNotFound | NotOwner

  /** The text each error is thrown with; the two texts differ. */
  function Message(e: LedgerError): (m: string)
    ensures m == "NFT not found" <==> e == NftNotFound
    ensures m == "Not the owner of this NFT" <==> e == NotOwner
  {
    match e
    case NftNotFound => "NFT not found"
    case NotOwner => "Not the owner of this NFT"
  }

  /** The contents of the two persisted lists. */
  datatype LedgerState = LedgerState(nfts: seq<Nft>, transactions: seq<Transaction>)

  // ---------------------------------------------------------------- tx hashes

  /** The 64 values `Math.floor(Math.random() * 16)` draws for one hash. */
  predicate IsDraws(draws: seq<int>) {
    |draws| == 64 && forall k :: 0 <= k < 64 ==> 0 <= draws[k] < 16
  }

  /** `"0x"` followed by exactly 64 lowercase hexadecimal digits. */
  predicate IsTxHash(h: string) {
    |h| == 66 && "0x" <= h && forall k :: 2 <= k < 66 ==> IsLowerHex(h[k])
  }

  /** The digits of `draws`, each printed with `toString(16)`, joined. */
  function HexString(draws: seq<int>): (r: string)
    requires forall k :: 0 <= k < |draws| ==> 0 <= draws[k] < 16
    ensures |r| == |draws|
    ensures forall k :: 0 <= k < |draws| ==> IsLowerHex(r[k]) && HexValue(r[k]) == draws[k]
  {
    if draws == [] then "" else [HexDigit(draws[0])] + HexString(draws[1..])
  }

  /** The hash string built at lines 93 and 143 from the random draws. */
  function TxHash(draws: seq<int>): (h: string)
    requires IsDraws(draws)
    ensures IsTxHash(h)
    ensures forall k :: 0 <= k < 64 ==> HexValue(h[k + 2]) == draws[k]
  {
    "0x" + HexString(draws)
  }

  /** Reading the digits back out of a well-formed hash. */
  function HashDraws(h: string): (draws: seq<int>)
    requires IsTxHash(h)
    ensures IsDraws(draws)
    ensures forall k :: 0 <= k < 64 ==> HexDigits[draws[k]] == h[k + 2]
  {
    seq(64, k requires 0 <= k < 64 => HexValue(h[k + 2]))
  }

  /** Every possible draw gives a distinct hash, read back by HashDraws. */
  lemma TxHashRoundTrip(draws: seq<int>)
    requires IsDraws(draws)
    ensures HashDraws(TxHash(draws)) == draws
  {
  }

  /** Every well-formed hash is the hash of some draw: the format describes
      exactly what the generator can produce. */
  lemma TxHashOnto(h: string)
    requires IsTxHash(h)
    ensures TxHash(HashDraws(h)) == h
  {
  }

  // ---------------------------------------------------------------- lookups

  predicate HasId(nfts: seq<Nft>, id: string) {
    exists k :: 0 <= k < |nfts| && nfts[k].id == id
  }

  /** `nfts.findIndex(nft => nft.id === id)`: the first index holding `id`,
      or -1 when there is none. */
  function FindIndex(nfts: seq<Nft>, id: string): (r: int)
    ensures -1 <= r < |nfts|
    ensures r == -1 <==> !HasId(nfts, id)
    ensures r >= 0 ==> nfts[r].id == id && forall k :: 0 <= k < r ==> nfts[k].id != id
  {
    if nfts == [] then -1
    else if nfts[0].id == id then 0
    else
      var r := FindIndex(nfts[1..], id);
      assert forall k :: 1 <= k < |nfts| ==> nfts[k] == nfts[1..][k - 1];
      if r == -1 then -1 else r + 1
  }

  /** An id not yet present is found at the end once appended. */
  lemma FindIndexOfAppended(nfts: seq<Nft>, n: Nft)
    requires !HasId(nfts, n.id)
    ensures FindIndex(nfts + [n], n.id) == |nfts|
  {
    var u := nfts + [n];
    assert u[|nfts|] == n;
    assert forall k :: 0 <= k < |nfts| ==> u[k] == nfts[k];
  }

  /** Changing an asset's owner does not move it for FindIndex. */
  lemma FindIndexAfterUpdate(nfts: seq<Nft>, i: nat, owner: string)
    requires i < |nfts| && FindIndex(nfts, nfts[i].id) == i
    ensures FindIndex(nfts[i := nfts[i].(owner := owner)], nfts[i].id) == i
  {
  }

  /** The first log entry about asset `id`. */
  function FirstTx(txs: seq<Transaction>, id: string): Option<Transaction> {
    if txs == [] then None
    else if txs[0].tokenId == id then Some(txs[0])
    else FirstTx(txs[1..], id)
  }

  /** The latest log entry about asset `id`. */
  function LastTx(txs: seq<Transaction>, id: string): Option<Transaction> {
    if txs == [] then None
    else if txs[|txs| - 1].tokenId == id then Some(txs[|txs| - 1])
    else LastTx(txs[..|txs| - 1], id)
  }

  /** The log entries about asset `id`, oldest first. */
  function History(txs: seq<Transaction>, id: string): (r: seq<Transaction>)
    ensures forall k :: 0 <= k < |r| ==> r[k] in txs && r[k].tokenId == id
  {
    if txs == [] then []
    else if txs[|txs| - 1].tokenId == id then History(txs[..|txs| - 1], id) + [txs[|txs| - 1]]
    else History(txs[..|txs| - 1], id)
  }

  lemma {:induction false} FirstTxAppend(txs: seq<Transaction>, t: Transaction, id: string)
    ensures FirstTx(txs + [t], id) ==
            if FirstTx(txs, id).Some? then FirstTx(txs, id)
            else if t.tokenId == id then Some(t) else None
  {
    if txs != [] {
      assert (txs + [t])[1..] == txs[1..] + [t];
      FirstTxAppend(txs[1..], t, id);
    }
  }

  lemma LastTxAppend(txs: seq<Transaction>, t: Transaction, id: string)
    ensures LastTx(txs + [t], id) == if t.tokenId == id then Some(t) else LastTx(txs, id)
  {
  }

  lemma HistoryAppend(txs: seq<Transaction>, t: Transaction, id: string)
    ensures History(txs + [t], id) == if t.tokenId == id then History(txs, id) + [t] else History(txs, id)
  {
  }

  /** An asset nobody has logged anything about has an empty history. */
  lemma {:induction false} HistoryOfUnlogged(txs: seq<Transaction>, id: string)
    requires forall t | t in txs :: t.tokenId != id
    ensures History(txs, id) == []
  {
    if txs != [] {
      assert txs[|txs| - 1] in txs;
      HistoryOfUnlogged(txs[..|txs| - 1], id);
    }
  }

  // ---------------------------------------------------------------- invariant

  /** No two assets share an id. */
  ghost predicate UniqueIds(nfts: seq<Nft>) {
    forall i, j :: 0 <= i < j < |nfts| ==> nfts[i].id != nfts[j].id
  }

  /** The first log entry about `n` is its mint: from the zero address to its
      creator, at its creation time. */
  ghost predicate MintedInLog(txs: seq<Transaction>, n: Nft) {
    var t := FirstTx(txs, n.id);
    t.Some? && t.value.txType == Mint && t.value.from == ZeroAddress &&
    t.value.to == n.creator && t.value.timestamp == n.createdAt
  }

  /** The latest log entry about `n` names its current owner as recipient. */
  ghost predicate OwnedPerLog(txs: seq<Transaction>, n: Nft) {
    var t := LastTx(txs, n.id);
    t.Some? && t.value.to == n.owner
  }

  /** What every state reached from the empty lists by mints and transfers
      satisfies. */
  ghost predicate Valid(s: LedgerState) {
    && UniqueIds(s.nfts)
    && (forall t | t in s.transactions :: IsTxHash(t.hash) && HasId(s.nfts, t.tokenId))
    && (forall n | n in s.nfts ::
          n.tokenURI == TokenUriPrefix + n.id && MintedInLog(s.transactions, n) && OwnedPerLog(s.transactions, n))
  }

  /** In a valid ledger `findIndex` locates every asset at its own position. */
  lemma ValidLocatesEveryAsset(s: LedgerState)
    requires Valid(s)
    ensures forall i | 0 <= i < |s.nfts| :: FindIndex(s.nfts, s.nfts[i].id) == i
  {
  }

  lemma EmptyIsValid()
    ensures Valid(LedgerState([], []))
  {
  }

  // ---------------------------------------------------------------- mint

  /** `mintNFT(data, ownerAddress)` with the generated `tokenId`, the
      `timestamp` and the random `draws` of the hash given as inputs: the
      asset it returns and the lists it leaves behind. */
  function Minted(s: LedgerState, name: string, description: string, image: string,
                  ownerAddress: string, tokenId: string, timestamp: string, draws: seq<int>)
    : (r: (Nft, LedgerState))
    requires IsDraws(draws)
    ensures r.0.id == tokenId && r.0.owner == ownerAddress && r.0.creator == ownerAddress
    ensures r.0.name == name && r.0.description == description && r.0.image == image
    ensures r.0.tokenURI == TokenUriPrefix + tokenId && r.0.createdAt == timestamp
    ensures r.1.nfts == s.nfts + [r.0]
    ensures |r.1.transactions| == |s.transactions| + 1
    ensures r.1.transactions[..|s.transactions|] == s.transactions
    ensures var t := r.1.transactions[|s.transactions|];
            IsTxHash(t.hash) && t.from == ZeroAddress && t.to == ownerAddress &&
            t.tokenId == tokenId && t.txType == Mint && t.timestamp == r.0.createdAt
  {
    var nft := Nft(tokenId, name, description, image, ownerAddress, ownerAddress,
                   TokenUriPrefix + tokenId, timestamp);
    var tx := Transaction(TxHash(draws), ZeroAddress, ownerAddress, tokenId, timestamp, Mint);
    assert (s.transactions + [tx])[..|s.transactions|] == s.transactions;
    (nft, LedgerState(s.nfts + [nft], s.transactions + [tx]))
  }

  /** Minting a fresh id keeps the invariant. */
  lemma MintPreservesValid(s: LedgerState, name: string, description: string, image: string,
                           ownerAddress: string, tokenId: string, timestamp: string, draws: seq<int>)
    requires Valid(s) && IsDraws(draws) && !HasId(s.nfts, tokenId)
    ensures Valid(Minted(s, name, description, image, ownerAddress, tokenId, timestamp, draws).1)
  {
    var (nft, s') := Minted(s, name, description, image, ownerAddress, tokenId, timestamp, draws);
    var tx := s'.transactions[|s.transactions|];
    assert s'.transactions == s.transactions + [tx];
    forall i, j | 0 <= i < j < |s'.nfts|
      ensures s'.nfts[i].id != s'.nfts[j].id
    {
      if j == |s.nfts| {
        assert s'.nfts[i] == s.nfts[i];
      }
    }
    forall t | t in s'.transactions
      ensures IsTxHash(t.hash) && HasId(s'.nfts, t.tokenId)
    {
      if t != tx {
        assert t in s.transactions;
        var k :| 0 <= k < |s.nfts| && s.nfts[k].id == t.tokenId;
        assert s'.nfts[k].id == t.tokenId;
      } else {
        assert s'.nfts[|s.nfts|].id == t.tokenId;
      }
    }
    forall n | n in s'.nfts
      ensures MintedInLog(s'.transactions, n) && OwnedPerLog(s'.transactions, n)
    {
      FirstTxAppend(s.transactions, tx, n.id);
      LastTxAppend(s.transactions, tx, n.id);
      if n != nft {
        assert n in s.nfts;
        assert n.id != tokenId;
      } else {
        assert forall t | t in s.transactions :: t.tokenId != tokenId;
        NoFirstTx(s.transactions, tokenId);
      }
    }
  }

  lemma {:induction false} NoFirstTx(txs: seq<Transaction>, id: string)
    requires forall t | t in txs :: t.tokenId != id
    ensures FirstTx(txs, id) == None
  {
    if txs != [] {
      assert txs[0] in txs;
      NoFirstTx(txs[1..], id);
    }
  }

  // ---------------------------------------------------------------- transfer

  /** `transferNFT(from, to, tokenId)` with the `timestamp` and hash `draws`
      given as inputs: the value it returns or the error it throws, and the
      lists it leaves behind. The first asset with the id is checked and
      updated; nothing about `to` is checked. */
  function Transferred(s: LedgerState, from: string, to: string, tokenId: string,
                       timestamp: string, draws: seq<int>)
    : (r: (Result<bool, LedgerError>, LedgerState))
    requires IsDraws(draws)
    ensures !HasId(s.nfts, tokenId) ==> r == (Err(NftNotFound), s)
    ensures HasId(s.nfts, tokenId) && !SameAddress(s.nfts[FindIndex(s.nfts, tokenId)].owner, from)
            ==> r == (Err(NotOwner), s)
    ensures r.0.Ok? <==> HasId(s.nfts, tokenId) && SameAddress(s.nfts[FindIndex(s.nfts, tokenId)].owner, from)
    ensures r.0.Ok? ==> r.0.value
    ensures r.0.Ok? ==>
              var i := FindIndex(s.nfts, tokenId);
              && |r.1.nfts| == |s.nfts|
              && r.1.nfts[i] == s.nfts[i].(owner := to)
              && (forall k :: 0 <= k < |s.nfts| && k != i ==> r.1.nfts[k] == s.nfts[k])
              && r.1.transactions == s.transactions + [Transaction(TxHash(draws), from, to, tokenId, timestamp, Transfer)]
  {
    var i := FindIndex(s.nfts, tokenId);
    if i == -1 then (Err(NftNotFound), s)
    else
      var nft := s.nfts[i];
      if Lower(nft.owner) != Lower(from) then (Err(NotOwner), s)
      else
        var tx := Transaction(TxHash(draws), from, to, tokenId, timestamp, Transfer);
        (Ok(true), LedgerState(s.nfts[i := nft.(owner := to)], s.transactions + [tx]))
  }

  /** A transfer, successful or not, keeps the invariant; in particular the
      new owner is the recipient of the latest log entry about the asset. */
  lemma TransferPreservesValid(s: LedgerState, from: string, to: string, tokenId: string,
                               timestamp: string, draws: seq<int>)
    requires Valid(s) && IsDraws(draws)
    ensures Valid(Transferred(s, from, to, tokenId, timestamp, draws).1)
  {
    var (r, s') := Transferred(s, from, to, tokenId, timestamp, draws);
    if r.Ok? {
      var i := FindIndex(s.nfts, tokenId);
      var tx := Transaction(TxHash(draws), from, to, tokenId, timestamp, Transfer);
      assert forall k :: 0 <= k < |s.nfts| ==> s'.nfts[k].id == s.nfts[k].id;
      forall t | t in s'.transactions
        ensures IsTxHash(t.hash) && HasId(s'.nfts, t.tokenId)
      {
        if t != tx {
          assert t in s.transactions;
          var k :| 0 <= k < |s.nfts| && s.nfts[k].id == t.tokenId;
          assert s'.nfts[k].id == t.tokenId;
        } else {
          assert s'.nfts[i].id == t.tokenId;
        }
      }
      forall n | n in s'.nfts
        ensures n.tokenURI == TokenUriPrefix + n.id && MintedInLog(s'.transactions, n) && OwnedPerLog(s'.transactions, n)
      {
        var k :| 0 <= k < |s'.nfts| && s'.nfts[k] == n;
        assert s.nfts[k] in s.nfts;
        FirstTxAppend(s.transactions, tx, n.id);
        LastTxAppend(s.transactions, tx, n.id);
        if k != i {
          assert n == s.nfts[k];
          assert n.id != tokenId;
        }
      }
    }
  }

  /** In a valid state the asset `transferNFT` finds is the only one with
      that id, so the update cannot miss a duplicate. */
  lemma FoundIsOnly(s: LedgerState, tokenId: string)
    requires Valid(s) && HasId(s.nfts, tokenId)
    ensures forall k :: 0 <= k < |s.nfts| && s.nfts[k].id == tokenId ==> k == FindIndex(s.nfts, tokenId)
  {
  }

  /** The ledger itself accepts a transfer to the current owner and any
      recipient string at all: only the pages refuse these. */
  lemma LedgerAllowsAnyRecipient(s: LedgerState, from: string, to: string, tokenId: string,
                                 timestamp: string, draws: seq<int>)
    requires IsDraws(draws) && HasId(s.nfts, tokenId)
    requires SameAddress(s.nfts[FindIndex(s.nfts, tokenId)].owner, from)
    ensures Transferred(s, from, to, tokenId, timestamp, draws).0 == Ok(true)
  {
  }

  /** The history of a freshly minted asset is its mint record alone. */
  lemma HistoryAfterMint(s: LedgerState, name: string, description: string, image: string,
                         ownerAddress: string, tokenId: string, timestamp: string, draws: seq<int>)
    requires Valid(s) && IsDraws(draws) && !HasId(s.nfts, tokenId)
    ensures var s1 := Minted(s, name, description, image, ownerAddress, tokenId, timestamp, draws).1;
            History(s1.transactions, tokenId) == [s1.transactions[|s.transactions|]]
  {
    var s1 := Minted(s, name, description, image, ownerAddress, tokenId, timestamp, draws).1;
    var m := s1.transactions[|s.transactions|];
    assert s1.transactions == s.transactions + [m];
    assert forall t | t in s.transactions :: t.tokenId != tokenId;
    HistoryOfUnlogged(s.transactions, tokenId);
    HistoryAppend(s.transactions, m, tokenId);
  }

  /** A successful transfer adds its record to the end of the asset's history. */
  lemma HistoryAfterTransfer(s: LedgerState, from: string, to: string, tokenId: string,
                             timestamp: string, draws: seq<int>)
    requires IsDraws(draws)
    ensures var (r, s1) := Transferred(s, from, to, tokenId, timestamp, draws);
            History(s1.transactions, tokenId) ==
            if r.Ok? then History(s.transactions, tokenId) + [Transaction(TxHash(draws), from, to, tokenId, timestamp, Transfer)]
            else History(s.transactions, tokenId)
  {
  }

  /** A mint followed by a transfer from the new owner, then a transfer
      attempted by someone else: the asset's history is exactly
      [mint, transfer], the asset belongs to the recipient, its creator is
      still the minter, and the refused attempt changes nothing. */
  lemma MintTransferScenario(s: LedgerState, owner: string, recipient: string, other: string,
                             tokenId: string, t0: string, t1: string, t2: string,
                             d0: seq<int>, d1: seq<int>, d2: seq<int>)
    requires Valid(s) && IsDraws(d0) && IsDraws(d1) && IsDraws(d2) && !HasId(s.nfts, tokenId)
    requires !SameAddress(recipient, other)
    ensures var s1 := Minted(s, "Art1", "desc", "img", owner, tokenId, t0, d0).1;
            var (r2, s2) := Transferred(s1, owner, recipient, tokenId, t1, d1);
            var (r3, s3) := Transferred(s2, other, recipient, tokenId, t2, d2);
            && r2 == Ok(true)
            && s2.nfts[|s.nfts|].owner == recipient && s2.nfts[|s.nfts|].creator == owner
            && |History(s2.transactions, tokenId)| == 2
            && History(s2.transactions, tokenId)[0].txType == Mint
            && History(s2.transactions, tokenId)[1].txType == Transfer
            && r3 == Err(NotOwner) && s3 == s2
  {
    var s1 := Minted(s, "Art1", "desc", "img", owner, tokenId, t0, d0).1;
    HistoryAfterMint(s, "Art1", "desc", "img", owner, tokenId, t0, d0);
    FindIndexOfAppended(s.nfts, s1.nfts[|s.nfts|]);
    var (r2, s2) := Transferred(s1, owner, recipient, tokenId, t1, d1);
    HistoryAfterTransfer(s1, owner, recipient, tokenId, t1, d1);
    FindIndexAfterUpdate(s1.nfts, |s.nfts|, recipient);
  }

  // ---------------------------------------------------------------- the store

  /** The two lists as `localStorage` holds them between calls. */
  class LocalLedger {
    var nfts: seq<Nft>
    var transactions: seq<Transaction>

    function State(): LedgerState
      reads this
    {
      LedgerState(nfts, transactions)
    }

    /** Both lists start out empty (`|| '[]'`). */
    constructor ()
      ensures nfts == [] && transactions == []
      ensures Valid(State())
    {
      nfts := [];
      transactions := [];
    }

    /** `mintNFT`: appends the asset to `nfts` and its mint record to
        `transactions`, and returns the asset. */
    method MintNft(name: string, description: string, image: string, ownerAddress: string,
                   tokenId: string, timestamp: string, draws: seq<int>)
      returns (nft: Nft)
      requires IsDraws(draws) && !HasId(nfts, tokenId)
      modifies this
      ensures (nft, State()) == Minted(old(State()), name, description, image, ownerAddress, tokenId, timestamp, draws)
      ensures old(Valid(State())) ==> Valid(State())
    {
      ghost var before := State();
      nft := Nft(tokenId, name, description, image, ownerAddress, ownerAddress,
                 TokenUriPrefix + tokenId, timestamp);
      var tx := Transaction(TxHash(draws), ZeroAddress, ownerAddress, tokenId, timestamp, Mint);
      nfts := nfts + [nft];
      transactions := transactions + [tx];
      if Valid(before) {
        MintPreservesValid(before, name, description, image, ownerAddress, tokenId, timestamp, draws);
      }
    }

    /** `transferNFT`: finds the asset, checks the caller owns it, overwrites
        its owner in place and appends the transfer record. */
    method TransferNft(from: string, to: string, tokenId: string, timestamp: string, draws: seq<int>)
      returns (r: Result<bool, LedgerError>)
      requires IsDraws(draws)
      modifies this
      ensures (r, State()) == Transferred(old(State()), from, to, tokenId, timestamp, draws)
      ensures old(Valid(State())) ==> Valid(State())
    {
      ghost var before := State();
      if Valid(before) {
        TransferPreservesValid(before, from, to, tokenId, timestamp, draws);
      }
      var i := FindIndex(nfts, tokenId);
      if i == -1 {
        return Err(NftNotFound);
      }
      var nft := nfts[i];
      if Lower(nft.owner) != Lower(from) {
        return Err(NotOwner);
      }
      nft := nft.(owner := to);
      nfts := nfts[i := nft];
      var tx := Transaction(TxHash(draws), from, to, tokenId, timestamp, Transfer);
      transactions := transactions + [tx];
      r := Ok(true);
    }
  }
}

# Asset ledger of asset-verse-web3, in Dafny

This project models the simulated asset ledger at the core of a browser-based
NFT management application, and the checks the pages make around it.

- **Ledger** (`smart_contract_service.dfy`). This is the module
  `SmartContractService`. Two persisted lists are in scope: `nfts` and
  `transactions`.
  - `mintNFT` appends an asset owned and created by the caller. It also
    appends a `mint` record whose sender is the zero address.
  - `transferNFT` finds the first asset with the given id. It checks, ignoring
    case, that the caller owns it. Then it overwrites the owner in place and
    appends a `transfer` record.
  - The step functions `Minted` and `Transferred` say what one call does to the
    two lists. The class `LocalLedger` holds the lists as `seq` fields. Its
    methods are proved to perform exactly those steps.
  - `Valid` is the invariant the two steps keep, starting from the empty lists:
    - ids are unique;
    - every hash is `0x` followed by 64 lowercase hex digits;
    - every record names an existing asset;
    - every asset's first record is its mint, to its creator, at its creation
      time;
    - every asset's owner is the recipient of its latest record.
- **Wallet-link table** (`wallet_link_service.dfy`). This is the `user_wallets`
  table, kept as a sequence of `(user_id, wallet_address)` rows. It supports
  four operations:
  - idempotent check-then-insert;
  - filter by user;
  - reverse lookup by wallet;
  - delete.

  Every `(user_id, wallet_address)` pair is held at most once
  (`PairsUnique`); link and unlink keep this.

  Whether each backend call fails is an input. A failure is always passed on
  to the caller.
- **Transfer page** (`asset_detail.dfy`).
  - The guard sequence of `handleTransfer`: an asset, an account and a
    connection must all be present; the recipient must be well formed; the
    recipient must not match the owner, ignoring case.
  - `formatAddress` and `isOwner`.
- **Creation page** (`create.dfy`). The form schema bounds, and the rule that
  nothing is minted without a connected account.
- **Shared pieces.** The record types come from `src/types/nft.ts`
  (`nft_types.dfy`). ASCII case folding and hexadecimal digits are in
  `text.dfy`. `Option` and `Result` are in `wrappers.dfy`.

Inputs the model takes as parameters:

- the generated token id (`uuidv4()`);
- the timestamps (`new Date().toISOString()`);
- the 64 values `Math.floor(Math.random() * 16)` draws for each transaction
  hash;
- whether each backend call fails.

What holds end to end, and what holds only in the pages:

- The ledger never refuses a transfer to the current owner or to a malformed
  address (`LedgerAllowsAnyRecipient`).
- The ledger never refuses an empty name (`LedgerMintsUncheckedData`).
- The page refuses both, but it compares the recipient with its own copy of
  the asset. When that copy agrees with the ledger:
  - a guarded transfer succeeds exactly when `isOwner` holds;
  - it can fail only as "Not the owner";
  - it always moves the asset to a different, well-formed address
    (`GuardedTransfer`).
- When the copy is stale, the page still never transfers an asset to its
  current owner. The transfer button is rendered only when `isOwner` holds,
  so a successful transfer moves the asset to a different, well-formed
  address (`GatedTransferNeverSelf`).
- The service (`walletLinkService.ts` lines 15-28) does not stop a second user from linking the same
  wallet. Reverse lookup then answers null (`ConflictingLinksHideOwner`).

Several checks one might expect of such a ledger are absent from the code,
and the model follows the code:

- the ledger does not validate names, descriptions or recipient addresses;
- the ledger allows self-transfer;
- `transferNFT` returns `true`, not the asset;
- the link service has no conflict rule for a wallet claimed by two users (a database constraint, if any, would show up as a failed insert);
- reverse lookup goes through `.single()`. PostgREST reports both "no row"
  and "several rows" as PGRST116, so the lookup answers null in both cases.

## Model

| member | source | states |
|---|---|---|
| Text.LowerChar | src/services/smartContractService.ts:133 | folding a character yields no upper-case ASCII letter; letters move by 32, all else is kept |
| Text.Lower | src/services/smartContractService.ts:133 | the model's ASCII fold of `toLowerCase` keeps the length and folds every position (JavaScript's full Unicode fold can change the length) |
| Text.SameAddress | src/services/smartContractService.ts:133 | the case-insensitive address comparison: equal strings compare equal, and strings that compare equal have the same length |
| Text.SameAddressPointwise | src/services/smartContractService.ts:133 | two addresses compare equal ignoring case iff they have the same length and agree at every folded position |
| Text.HexDigit | src/services/smartContractService.ts:93 | `d.toString(16)` for 0..15 is a lowercase hex digit whose value is `d` |
| Text.HexValue | src/services/smartContractService.ts:93 | a lowercase hex digit's value is in 0..15 and prints back as that digit |
| SmartContractService.HexString | src/services/smartContractService.ts:93 | joining the printed draws gives one lowercase hex digit per draw, of that draw's value |
| SmartContractService.TxHash | src/services/smartContractService.ts:93 | every generated hash is `0x` and 64 lowercase hex digits, and its digits are the draws |
| SmartContractService.HashDraws | src/services/smartContractService.ts:143 | the digits of a well-formed hash are 64 values in 0..15 that print back as the hash |
| SmartContractService.TxHashRoundTrip | src/services/smartContractService.ts:93 | decoding a generated hash gives back its draws |
| SmartContractService.TxHashOnto | src/services/smartContractService.ts:143 | every well-formed hash is the hash of the draws read from it |
| SmartContractService.FindIndex | src/services/smartContractService.ts:125 | `findIndex` gives -1 exactly when no asset has the id, else the first index holding it |
| SmartContractService.FindIndexOfAppended | src/services/smartContractService.ts:104-105 | an asset appended with a fresh id is found at the end |
| SmartContractService.FindIndexAfterUpdate | src/services/smartContractService.ts:137-139 | overwriting the owner in place does not move the asset for `findIndex` |
| SmartContractService.Message | src/services/smartContractService.ts:126-135 | "NFT not found" is thrown exactly for a missing id and "Not the owner of this NFT" exactly for a wrong sender |
| SmartContractService.Valid | src/services/smartContractService.ts:81-154 | the ledger invariant: unique ids; every hash `0x` and 64 lowercase hex digits; every record about an existing asset; each asset's URI is `ipfs://QmFake/<id>`, its first record is its mint to its creator at its creation time, and its owner is the recipient of its latest record |
| SmartContractService.ValidLocatesEveryAsset | src/services/smartContractService.ts:125 | in a valid ledger `findIndex` finds every asset at its own position |
| SmartContractService.EmptyIsValid | src/services/smartContractService.ts:104 | the empty lists (the `'[]'` default) satisfy the ledger invariant |
| SmartContractService.Minted | src/services/smartContractService.ts:63-108 | the new asset has owner = creator = caller, the given id, `ipfs://QmFake/<id>`, the timestamp; `nfts` gains exactly it at the end; `transactions` gains exactly one mint record from the zero address to the caller, about the id, at the asset's creation time, with a well-formed hash |
| SmartContractService.MintPreservesValid | src/services/smartContractService.ts:81-108 | minting a fresh id keeps the ledger invariant |
| SmartContractService.Transferred | src/services/smartContractService.ts:121-164 | unknown id: "NFT not found" and nothing changes; owner differs ignoring case: "Not the owner" and nothing changes; otherwise returns true, only the first asset with the id changes, only its owner (set to `to` as given), and exactly one transfer record `{from, to, tokenId}` is appended |
| SmartContractService.TransferPreservesValid | src/services/smartContractService.ts:137-154 | every transfer outcome keeps the ledger invariant, so the owner is always the latest recipient and the creator never changes |
| SmartContractService.FoundIsOnly | src/services/smartContractService.ts:125 | in a valid ledger the asset `findIndex` returns is the only one with that id |
| SmartContractService.LedgerAllowsAnyRecipient | src/services/smartContractService.ts:133-140 | the owner's transfer succeeds whatever the recipient, including the owner itself or a malformed string |
| SmartContractService.HistoryAfterMint | src/services/smartContractService.ts:94-108 | a freshly minted asset's history is its mint record alone |
| SmartContractService.HistoryAfterTransfer | src/services/smartContractService.ts:143-154 | a successful transfer adds its record to the end of the asset's history; a failed one adds nothing |
| SmartContractService.MintTransferScenario | src/services/smartContractService.ts:57-164 | mint then transfer by the owner: new owner is the recipient, creator is the minter, history is [mint, transfer]; a later transfer by anyone else fails as "Not the owner" and changes nothing |
| SmartContractService.LocalLedger.constructor | src/services/smartContractService.ts:104 | both lists start empty and valid |
| SmartContractService.LocalLedger.MintNft | src/services/smartContractService.ts:57-118 | the lists become exactly `Minted` of the old lists; the invariant is kept |
| SmartContractService.LocalLedger.TransferNft | src/services/smartContractService.ts:121-164 | the result and the lists are exactly `Transferred` of the old lists; the invariant is kept |
| WalletLinkService.Select | src/services/walletLinkService.ts:41-44 | a filtered select returns exactly the matching rows and no others |
| WalletLinkService.SelectCount | src/services/walletLinkService.ts:7-11 | a filtered select keeps each matching row as often as the table holds it |
| WalletLinkService.Delete | src/services/walletLinkService.ts:80-84 | a filtered delete removes every matching row and keeps every other |
| WalletLinkService.DeleteCount | src/services/walletLinkService.ts:78-89 | a filtered delete keeps each other row as often as the table holds it |
| WalletLinkService.Linked | src/services/walletLinkService.ts:6-32 | after a link the pair is present; the old rows are a prefix, with at most one row added, and that row is the pair |
| WalletLinkService.UserByWallet | src/services/walletLinkService.ts:55-71 | a user is answered only when exactly one row has the wallet, and that row links the user; with no row for the wallet the answer is null |
| WalletLinkService.LinkIdempotent | src/services/walletLinkService.ts:15-28 | linking twice equals linking once; from no matching row, exactly one `(u, w)` row results |
| WalletLinkService.LinkThenUnlink | src/services/walletLinkService.ts:21-84 | after link then unlink no `(u, w)` row remains, and the table is as an unlink alone would leave it |
| WalletLinkService.PairsUnique | src/services/walletLinkService.ts:15-18 | the table invariant: no `(user_id, wallet_address)` pair occurs in two rows |
| WalletLinkService.LinkedPairsUnique | src/services/walletLinkService.ts:15-28 | check-then-insert keeps every pair at most once |
| WalletLinkService.DeletePairsUnique | src/services/walletLinkService.ts:78-84 | a filtered delete keeps every pair at most once |
| WalletLinkService.PairSelectAtMostOne | src/services/walletLinkService.ts:7-11 | under the invariant the pair query returns no row or exactly the pair's row |
| WalletLinkService.ResolveAfterLink | src/services/walletLinkService.ts:55-71 | after `link(u, w)`, when no other user is on `w` and at most one `(u, w)` row was there before, reverse lookup answers `u`; without the second condition two old `(u, w)` rows make the answer null (`DuplicatePairHidesOwner`) |
| WalletLinkService.DuplicatePairHidesOwner | src/services/walletLinkService.ts:15-71 | a table holding the pair `(u, w)` twice answers null for `w` even after linking `(u, w)` again |
| WalletLinkService.ResolveAfterLinkUnique | src/services/walletLinkService.ts:4-71 | on a table that keeps the invariant, after `link(u, w)` with no other user on `w`, reverse lookup answers `u` |
| WalletLinkService.ResolveAfterUnlink | src/services/walletLinkService.ts:78-89 | after `unlink(u, w)`, with no other user on `w`, reverse lookup answers null |
| WalletLinkService.ConflictingLinksHideOwner | src/services/walletLinkService.ts:4-71 | the service lets two users link the same wallet (two rows), and reverse lookup then answers null |
| WalletLinkService.UserWalletsTable.Valid | src/services/walletLinkService.ts:15-18 | the table object holds its rows with every pair at most once |
| WalletLinkService.UserWalletsTable.constructor | src/services/walletLinkService.ts:3-4 | the table starts empty, which keeps the invariant |
| WalletLinkService.UserWalletsTable.LinkWalletToUser | src/services/walletLinkService.ts:4-37 | a failed select or insert is passed on and changes nothing; an existing pair returns its first row unchanged; otherwise exactly one row `(userId, walletAddress)` is appended and returned; every pair stays at most once |
| WalletLinkService.UserWalletsTable.GetUserWallets | src/services/walletLinkService.ts:39-53 | returns exactly the user's rows, each as often as stored, or passes on the failure |
| WalletLinkService.UserWalletsTable.GetUserByWallet | src/services/walletLinkService.ts:55-76 | returns the reverse lookup's answer, or passes on the failure |
| WalletLinkService.UserWalletsTable.UnlinkWallet | src/services/walletLinkService.ts:78-93 | removes every `(userId, walletAddress)` row, keeps the rest, and returns true, or passes on the failure with the table unchanged; every pair stays at most once |
| AssetDetail.Substring | src/pages/AssetDetail.tsx:129 | `substring` is the slice between in-range bounds, swaps bounds given in the wrong order, clamps an end past the string to its end, gives the empty string when both bounds are at or before the start or at or past the end, and is never longer than the string |
| AssetDetail.FormatAddress | src/pages/AssetDetail.tsx:128-130 | for addresses of 38 characters or more: `a[0..6] + "..." + a[38..]`, of length 13 for 42 characters; shorter addresses keep what `substring` clamps to |
| AssetDetail.FormatAddressShows | src/pages/AssetDetail.tsx:128-130 | two 42-character addresses display alike iff their first six and last four characters agree |
| AssetDetail.IsOwner | src/pages/AssetDetail.tsx:142 | `isOwner` holds only with an asset and a non-empty account of the owner's length, and holds whenever the account is exactly the owner |
| AssetDetail.WellFormedRecipient | src/pages/AssetDetail.tsx:66 | the address check accepts exactly the 42-character strings starting with `0x` |
| AssetDetail.TransferGuardsPass | src/pages/AssetDetail.tsx:64-82 | the guards pass only when connected, with an account and an asset, for a 42-character recipient that differs from the owner and would not be judged the owner by `isOwner` |
| AssetDetail.AssetDetailPage.constructor | src/pages/AssetDetail.tsx:20-24 | starts with an empty recipient and no transfer in progress |
| AssetDetail.AssetDetailPage.HandleTransfer | src/pages/AssetDetail.tsx:63-120 | no asset, account or connection: nothing happens; malformed recipient, or recipient equal to the owner ignoring case: rejected, ledger untouched; otherwise the ledger does exactly `transferNFT(account, recipient, nft.id)`, the recipient field is cleared on success and `isTransferring` ends false |
| AssetDetail.GuardedTransfer | src/pages/AssetDetail.tsx:63-86 | with a current copy of the asset, a guarded transfer succeeds iff `isOwner`, fails only as "Not the owner", and moves the asset to a different, well-formed address |
| AssetDetail.GatedTransferNeverSelf | src/pages/AssetDetail.tsx:63-86 | behind the `isOwner` gate on the transfer button (line 222), whatever the ledger holds, a successful transfer gives the asset a well-formed owner that differs, ignoring case, from the owner before |
| Create.FormSchemaAccepts | src/pages/Create.tsx:17-21 | the schema accepts only a non-empty name of at most 100 characters, a non-empty description of at most 1000, and an image that is not null |
| Create.CreatePage.constructor | src/pages/Create.tsx:27 | starts not submitting |
| Create.CreatePage.Submit | src/pages/Create.tsx:17-67 | data outside the schema bounds (name 1..100, description 1..1000, image not null) is rejected and nothing is minted; without connection or account nothing is minted; otherwise the ledger mints exactly `Minted` with the connected account as owner |
| Create.LedgerMintsUncheckedData | src/services/smartContractService.ts:81-90 | the ledger mints an empty name and description that the form rejects |

## Left out

- Persistence: `localStorage` and the `JSON.parse`/`stringify` round trip. The lists are in-memory sequences. `Valid` holds for states built from the empty lists; the model does not cover lists edited by hand in storage.
- Randomness and clocks: `uuidv4()`, `Math.random()` and `new Date()` are inputs. `MintNft` requires an id that is not yet used, because a fresh uuid is assumed.
- Image encoding: the `FileReader` conversion of a File to a data URL is browser I/O. The image is an opaque string.
- Failing mints: the `catch` blocks of `mintNFT` and `transferNFT` re-throw with the same message. File-reading and storage failures are not modelled, so a mint cannot fail. A transfer fails only with the two `LedgerError` values; `Message` gives their texts.
- Wallet provider and contract code: `connectWallet`, `getContract`, `getProvider`, `getSigner` (ethers).
- `getNFTsByOwner`, `getNFTById` and `getNFTTransactions` delegate to `localNFTService`, which is not part of this model.
- The pages call `nftService` (`transferNFT`, `createNFT`, `getNFTById`). `nftService` is not part of this model; it is taken to forward to the ledger's `transferNFT` and `mintNFT`.
- AssetDetail.AssetDetailPage.HandleTransfer: does not model re-reading the asset and its history after a successful transfer (lines 95-100), because that goes through `nftService`, which is not part of this model. Toasts are the returned outcome. The "Transfer failed" branch (lines 103-109) is absent: the ledger only returns `true` or throws, as `Transferred` states.
- Create.CreatePage.Submit: does not model the error toast of the `catch` (lines 59-64), since a mint cannot fail in this model. Navigation and the image preview handlers (lines 70-90) are presentation.
- Case folding: `toLowerCase` is modelled for ASCII letters only; other characters are left unchanged.
- String length: JavaScript `length` counts UTF-16 code units, while Dafny strings hold Unicode scalar values. The length checks agree for text in the Basic Multilingual Plane.
- Optional record fields (`contractAddress`, `tokenId`, `blockNumber`, `gasUsed`, `confirmations`) are never set by the ledger and are left out.
- Backend specifics: the Supabase client and its error codes, beyond one abstract `StoreFailure` per call. Columns the database fills in itself (id, creation time) are left out. Rows are kept in insertion order, and a select returns them in that order.
- Draft store: not in the files modelled.
- Wallet events and the auth session (`src/context/Web3Context.tsx`, `src/context/AuthContext.tsx`), logging, routing, toasts, clipboard and timers.
- Concurrency: the source is single-threaded and async only for I/O.

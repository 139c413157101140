/** The `user_wallets` table behind src/services/walletLinkService.ts, as a
    sequence of rows in insertion order. Each backend call can fail; whether
    it does is an input (`...Fails`), and a failure is always passed on to
    the caller as `Err(StoreFailure)`. Comparisons are exact (`.eq`). */
module WalletLinkService {
  import opened Wrappers

  /** One row of `user_wallets`. */
  datatype WalletLink = WalletLink(userId: string, walletAddress: string)

  /** Any error the backend reports. */
  datatype StoreError = StoreFailure

  /** The `.eq(...)` filters the service builds. */
  datatype Query =
    | UserIs(userId: string)
    | WalletIs(walletAddress: string)
    | PairIs(userId: string, walletAddress: string)

  predicate Matches(q: Query, row: WalletLink) {
    match q
    case UserIs(u) => row.userId == u
    case WalletIs(w) => row.walletAddress == w
    case PairIs(u, w) => row.userId == u && row.walletAddress == w
  }

  /** `select('*')` with the filters of `q`: the matching rows, in table
      order, each as often as it occurs. */
  function Select(rows: seq<WalletLink>, q: Query): (r: seq<WalletLink>)
    ensures forall x :: x in r <==> x in rows && Matches(q, x)
    ensures |r| <= |rows|
  {
    if rows == [] then []
    else
      assert forall x :: x in rows <==> x == rows[0] || x in rows[1..];
      (if Matches(q, rows[0]) then [rows[0]] else []) + Select(rows[1..], q)
  }

  /** `delete()` with the filters of `q`: every matching row goes, every
      other row stays, in table order. */
  function Delete(rows: seq<WalletLink>, q: Query): (r: seq<WalletLink>)
    ensures forall x :: x in r <==> x in rows && !Matches(q, x)
    ensures |r| <= |rows|
  {
    if rows == [] then []
    else
      assert forall x :: x in rows <==> x == rows[0] || x in rows[1..];
      (if Matches(q, rows[0]) then [] else [rows[0]]) + Delete(rows[1..], q)
  }

  /** Nothing is selected when no row matches. */
  lemma {:induction false} SelectNone(rows: seq<WalletLink>, q: Query)
    requires forall x | x in rows :: !Matches(q, x)
    ensures Select(rows, q) == []
  {
    if rows != [] {
      assert rows[0] in rows;
      assert forall x | x in rows[1..] :: x in rows;
      SelectNone(rows[1..], q);
    }
  }

  /** Select keeps each matching row exactly as often as the table holds it. */
  lemma {:induction false} SelectCount(rows: seq<WalletLink>, q: Query)
    ensures forall x :: multiset(Select(rows, q))[x] == if Matches(q, x) then multiset(rows)[x] else 0
  {
    if rows != [] {
      SelectCount(rows[1..], q);
      assert rows == [rows[0]] + rows[1..];
      assert multiset(rows) == multiset([rows[0]]) + multiset(rows[1..]);
    }
  }

  /** Delete keeps each other row exactly as often as the table holds it. */
  lemma {:induction false} DeleteCount(rows: seq<WalletLink>, q: Query)
    ensures forall x :: multiset(Delete(rows, q))[x] == if Matches(q, x) then 0 else multiset(rows)[x]
  {
    if rows != [] {
      DeleteCount(rows[1..], q);
      assert rows == [rows[0]] + rows[1..];
      assert multiset(rows) == multiset([rows[0]]) + multiset(rows[1..]);
    }
  }

  /** The table after a `linkWalletToUser(u, w)` whose calls all succeed. */
  function Linked(rows: seq<WalletLink>, u: string, w: string): (r: seq<WalletLink>)
    ensures Select(r, PairIs(u, w)) != []
    ensures rows <= r && |r| <= |rows| + 1
    ensures forall x :: x in r <==> x in rows || x == WalletLink(u, w)
  {
    if Select(rows, PairIs(u, w)) != [] then
      assert Select(rows, PairIs(u, w))[0] in Select(rows, PairIs(u, w));
      rows
    else
      assert WalletLink(u, w) in rows + [WalletLink(u, w)];
      rows + [WalletLink(u, w)]
  }

  /** `getUserByWallet(w)` on a successful query: `.single()` yields the row
      only when exactly one row has the wallet; with none, or with several,
      the backend reports PGRST116, which the service turns into null. */
  function UserByWallet(rows: seq<WalletLink>, w: string): (r: Option<string>)
    ensures r.Some? ==> |Select(rows, WalletIs(w))| == 1 && WalletLink(r.value, w) in rows
    ensures |Select(rows, WalletIs(w))| == 1 ==> r.Some?
    ensures (forall x | x in rows :: x.walletAddress != w) ==> r == None
  {
    var found := Select(rows, WalletIs(w));
    if |found| == 1 then
      assert found[0] in found;
      Some(found[0].userId)
    else None
  }

  /** The table's invariant: no `(user_id, wallet_address)` row occurs twice,
      the at-most-one-link-per-pair rule that check-then-insert keeps. */
  ghost predicate PairsUnique(rows: seq<WalletLink>) {
    forall i, j | 0 <= i < j < |rows| :: rows[i] != rows[j]
  }

  lemma PairsUniqueCons(x: WalletLink, rows: seq<WalletLink>)
    ensures PairsUnique([x] + rows) <==> x !in rows && PairsUnique(rows)
  {
    var t := [x] + rows;
    assert forall k | 0 <= k < |rows| :: t[k + 1] == rows[k];
    if PairsUnique(t) {
      forall k | 0 <= k < |rows|
        ensures rows[k] != x
      {
        assert t[0] != t[k + 1];
      }
    }
    if x !in rows && PairsUnique(rows) {
      forall i, j | 0 <= i < j < |t|
        ensures t[i] != t[j]
      {
        if i == 0 {
          assert t[j] == rows[j - 1];
        }
      }
    }
  }

  /** Linking keeps every pair at most once. */
  lemma LinkedPairsUnique(rows: seq<WalletLink>, u: string, w: string)
    requires PairsUnique(rows)
    ensures PairsUnique(Linked(rows, u, w))
  {
    var r := Linked(rows, u, w);
    if Select(rows, PairIs(u, w)) == [] {
      assert WalletLink(u, w) !in rows;
      assert forall k | 0 <= k < |rows| :: r[k] == rows[k] && rows[k] in rows;
    }
  }

  /** Unlinking keeps every pair at most once. */
  lemma {:induction false} DeletePairsUnique(rows: seq<WalletLink>, q: Query)
    requires PairsUnique(rows)
    ensures PairsUnique(Delete(rows, q))
  {
    if rows != [] {
      assert rows == [rows[0]] + rows[1..];
      PairsUniqueCons(rows[0], rows[1..]);
      DeletePairsUnique(rows[1..], q);
      PairsUniqueCons(rows[0], Delete(rows[1..], q));
    }
  }

  /** Under the invariant a pair query selects at most one row, the pair's. */
  lemma {:induction false} PairSelectAtMostOne(rows: seq<WalletLink>, u: string, w: string)
    requires PairsUnique(rows)
    ensures Select(rows, PairIs(u, w)) == [] || Select(rows, PairIs(u, w)) == [WalletLink(u, w)]
  {
    if rows != [] {
      assert rows == [rows[0]] + rows[1..];
      PairsUniqueCons(rows[0], rows[1..]);
      if rows[0] == WalletLink(u, w) {
        SelectNone(rows[1..], PairIs(u, w));
      } else {
        PairSelectAtMostOne(rows[1..], u, w);
      }
    }
  }

  // ---------------------------------------------------------------- properties

  /** Linking twice is linking once, and leaves as many `(u, w)` rows as
      linking once: exactly one when there was none before. */
  lemma LinkIdempotent(rows: seq<WalletLink>, u: string, w: string)
    ensures Linked(Linked(rows, u, w), u, w) == Linked(rows, u, w)
    ensures Select(rows, PairIs(u, w)) == [] ==> Select(Linked(rows, u, w), PairIs(u, w)) == [WalletLink(u, w)]
    ensures Select(rows, PairIs(u, w)) != [] ==> Select(Linked(rows, u, w), PairIs(u, w)) == Select(rows, PairIs(u, w))
  {
    if Select(rows, PairIs(u, w)) == [] {
      SelectAppend(rows, WalletLink(u, w), PairIs(u, w));
    }
  }

  lemma {:induction false} SelectAppend(rows: seq<WalletLink>, x: WalletLink, q: Query)
    ensures Select(rows + [x], q) == Select(rows, q) + (if Matches(q, x) then [x] else [])
  {
    if rows == [] {
      assert [x][1..] == [];
    } else {
      assert (rows + [x])[1..] == rows[1..] + [x];
      SelectAppend(rows[1..], x, q);
    }
  }

  /** After linking and then unlinking `(u, w)` no such row remains, and
      every other row is as it was before the link. */
  lemma LinkThenUnlink(rows: seq<WalletLink>, u: string, w: string)
    ensures Select(Delete(Linked(rows, u, w), PairIs(u, w)), PairIs(u, w)) == []
    ensures Delete(Linked(rows, u, w), PairIs(u, w)) == Delete(rows, PairIs(u, w))
  {
    var d := Delete(Linked(rows, u, w), PairIs(u, w));
    SelectNone(d, PairIs(u, w));
    if Select(rows, PairIs(u, w)) == [] {
      DeleteAppendMatching(rows, WalletLink(u, w), PairIs(u, w));
    }
  }

  lemma {:induction false} DeleteAppendMatching(rows: seq<WalletLink>, x: WalletLink, q: Query)
    requires Matches(q, x)
    ensures Delete(rows + [x], q) == Delete(rows, q)
  {
    if rows != [] {
      assert (rows + [x])[1..] == rows[1..] + [x];
      DeleteAppendMatching(rows[1..], x, q);
    }
  }

  /** Reverse lookup finds the user just linked when no other row claims
      the wallet. The second condition is the table invariant's consequence
      for this pair (`PairSelectAtMostOne`). */
  lemma ResolveAfterLink(rows: seq<WalletLink>, u: string, w: string)
    requires forall x | x in rows :: x.walletAddress != w || x == WalletLink(u, w)
    requires |Select(rows, PairIs(u, w))| <= 1
    ensures UserByWallet(Linked(rows, u, w), w) == Some(u)
  {
    var r := Linked(rows, u, w);
    LinkIdempotent(rows, u, w);
    SelectSameWhenOnlyPair(r, u, w);
  }

  /** The second condition of ResolveAfterLink is needed: a table holding the
      pair twice answers null even after linking it again. */
  lemma DuplicatePairHidesOwner(u: string, w: string)
    ensures UserByWallet(Linked([WalletLink(u, w), WalletLink(u, w)], u, w), w) == None
  {
    var rows := [WalletLink(u, w), WalletLink(u, w)];
    assert Select(rows, PairIs(u, w)) == rows;
    assert Select(rows, WalletIs(w)) == rows;
  }

  /** The same for a table that keeps its invariant, as every table built by
      the service does. */
  lemma ResolveAfterLinkUnique(rows: seq<WalletLink>, u: string, w: string)
    requires PairsUnique(rows)
    requires forall x | x in rows :: x.walletAddress != w || x == WalletLink(u, w)
    ensures UserByWallet(Linked(rows, u, w), w) == Some(u)
  {
    PairSelectAtMostOne(rows, u, w);
    ResolveAfterLink(rows, u, w);
  }

  /** When every row with wallet `w` is a `(u, w)` row, selecting by wallet
      and selecting by pair give the same rows. */
  lemma {:induction false} SelectSameWhenOnlyPair(rows: seq<WalletLink>, u: string, w: string)
    requires forall x | x in rows :: x.walletAddress != w || x == WalletLink(u, w)
    ensures Select(rows, WalletIs(w)) == Select(rows, PairIs(u, w))
  {
    if rows != [] {
      assert rows[0] in rows;
      assert forall x | x in rows[1..] :: x in rows;
      SelectSameWhenOnlyPair(rows[1..], u, w);
    }
  }

  /** Reverse lookup answers null once `u` has unlinked `w`, when no other
      user had linked it. */
  lemma ResolveAfterUnlink(rows: seq<WalletLink>, u: string, w: string)
    requires forall x | x in rows :: x.walletAddress != w || x.userId == u
    ensures UserByWallet(Delete(rows, PairIs(u, w)), w) == None
  {
  }

  /** The service accepts a second user for a wallet, and reverse lookup then
      answers null for it: the service has no rule for this conflict (a
      database constraint, if any, would appear as a failed insert). */
  lemma ConflictingLinksHideOwner(u1: string, u2: string, w: string)
    requires u1 != u2
    ensures var rows := Linked(Linked([], u1, w), u2, w);
            |rows| == 2 && UserByWallet(rows, w) == None
  {
    var rows1 := Linked([], u1, w);
    assert Select([], PairIs(u1, w)) == [];
    assert rows1 == [WalletLink(u1, w)];
    assert Select(rows1, PairIs(u2, w)) == [];
    var rows := Linked(rows1, u2, w);
    assert rows == [WalletLink(u1, w), WalletLink(u2, w)];
    assert Select(rows, WalletIs(w)) == rows;
  }

  // ---------------------------------------------------------------- the table

  class UserWalletsTable {
    var rows: seq<WalletLink>

    /** Every pair is held at most once. */
    ghost predicate Valid()
      reads this
    {
      PairsUnique(rows)
    }

    constructor ()
      ensures rows == [] && Valid()
    {
      rows := [];
    }

    /** `linkWalletToUser(userId, walletAddress)`: look for the pair, return
        the first match if any, and insert it otherwise. */
    method LinkWalletToUser(userId: string, walletAddress: string, selectFails: bool, insertFails: bool)
      returns (r: Result<WalletLink, StoreError>)
      requires Valid()
      modifies this
      ensures Valid()
      ensures selectFails ==> r == Err(StoreFailure) && rows == old(rows)
      ensures !selectFails && Select(old(rows), PairIs(userId, walletAddress)) != [] ==>
                r == Ok(Select(old(rows), PairIs(userId, walletAddress))[0]) && rows == old(rows)
      ensures !selectFails && Select(old(rows), PairIs(userId, walletAddress)) == [] ==>
                if insertFails then r == Err(StoreFailure) && rows == old(rows)
                else r == Ok(WalletLink(userId, walletAddress)) && rows == old(rows) + [WalletLink(userId, walletAddress)]
      ensures r.Ok? ==> rows == Linked(old(rows), userId, walletAddress) && r.value == WalletLink(userId, walletAddress)
      ensures r.Err? ==> rows == old(rows)
    {
      if selectFails {
        return Err(StoreFailure);
      }
      var existingLinks := Select(rows, PairIs(userId, walletAddress));
      if |existingLinks| > 0 {
        assert existingLinks[0] in existingLinks;
        return Ok(existingLinks[0]);
      }
      if insertFails {
        return Err(StoreFailure);
      }
      var data := WalletLink(userId, walletAddress);
      LinkedPairsUnique(rows, userId, walletAddress);
      rows := rows + [data];
      r := Ok(data);
    }

    /** `getUserWallets(userId)`: every row of that user. */
    method GetUserWallets(userId: string, selectFails: bool) returns (r: Result<seq<WalletLink>, StoreError>)
      ensures selectFails ==> r == Err(StoreFailure)
      ensures !selectFails ==>
                r.Ok? && forall x :: multiset(r.value)[x] == if x.userId == userId then multiset(rows)[x] else 0
    {
      if selectFails {
        return Err(StoreFailure);
      }
      SelectCount(rows, UserIs(userId));
      r := Ok(Select(rows, UserIs(userId)));
    }

    /** `getUserByWallet(walletAddress)`: the owning user, or null. */
    method GetUserByWallet(walletAddress: string, selectFails: bool) returns (r: Result<Option<string>, StoreError>)
      ensures selectFails ==> r == Err(StoreFailure)
      ensures !selectFails ==> r == Ok(UserByWallet(rows, walletAddress))
    {
      if selectFails {
        return Err(StoreFailure);
      }
      r := Ok(UserByWallet(rows, walletAddress));
    }

    /** `unlinkWallet(userId, walletAddress)`: delete every matching row. */
    method UnlinkWallet(userId: string, walletAddress: string, deleteFails: bool)
      returns (r: Result<bool, StoreError>)
      requires Valid()
      modifies this
      ensures Valid()
      ensures deleteFails ==> r == Err(StoreFailure) && rows == old(rows)
      ensures !deleteFails ==> r == Ok(true) && rows == Delete(old(rows), PairIs(userId, walletAddress))
    {
      if deleteFails {
        return Err(StoreFailure);
      }
      DeletePairsUnique(rows, PairIs(userId, walletAddress));
      rows := Delete(rows, PairIs(userId, walletAddress));
      r := Ok(true);
    }
  }
}

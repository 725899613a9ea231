/** The sale registry (src/internal.rs): the map from sale key to Sale and
    the two secondary indices, owner -> set of sale keys and NFT contract ->
    set of token ids, with the contract's two internal mutators. */
module Registry {
  import opened Types
  import opened Keys
  import Index

  datatype Removal = Removal(market: Market, sale: Sale)

  /** `internal_remove_sale`: delete the sale stored under the key of
      (`contract`, `token`) and take it out of both indices, dropping an index
      entry whose set becomes empty. The owner index is cleaned under the
      STORED sale's owner; the contract index under the `contract` argument. */
  function RemoveSale(m: Market, delimiter: string, contract: AccountId, token: TokenId): (r: Result<Removal>)
    ensures var k := Key(delimiter, contract, token);
      r.Fail? <==> (k !in m.sales || m.sales[k].ownerId !in m.byOwner || contract !in m.byContract)
    ensures var k := Key(delimiter, contract, token);
      k !in m.sales ==> r == Fail(NoSale)
    ensures var k := Key(delimiter, contract, token);
      r.Ok? ==>
        var s := m.sales[k];
        var m' := r.value.market;
        && r.value.sale == s
        && m'.sales == m.sales - {k}
        && (s.ownerId in m'.byOwner <==> m.byOwner[s.ownerId] - {k} != {})
        && (s.ownerId in m'.byOwner ==> m'.byOwner[s.ownerId] == m.byOwner[s.ownerId] - {k})
        && (contract in m'.byContract <==> m.byContract[contract] - {token} != {})
        && (contract in m'.byContract ==> m'.byContract[contract] == m.byContract[contract] - {token})
        && (forall o :: o in m.byOwner && o != s.ownerId ==> o in m'.byOwner && m'.byOwner[o] == m.byOwner[o])
        && (forall c :: c in m.byContract && c != contract ==> c in m'.byContract && m'.byContract[c] == m.byContract[c])
        && m'.byOwner.Keys <= m.byOwner.Keys
        && m'.byContract.Keys <= m.byContract.Keys
        && m'.contractIdsByAccount == m.contractIdsByAccount
    ensures r.Ok? && NoEmptySets(m.byOwner) ==> NoEmptySets(r.value.market.byOwner)
    ensures r.Ok? && NoEmptySets(m.byContract) ==> NoEmptySets(r.value.market.byContract)
  {
    var k := Key(delimiter, contract, token);
    if k !in m.sales then Fail(NoSale)
    else
      var s := m.sales[k];
      if s.ownerId !in m.byOwner then Fail(NoSaleByOwner)
      else if contract !in m.byContract then Fail(NoSaleByContract)
      else
        Ok(Removal(
          m.(sales := m.sales - {k},
             byOwner := Index.Remove(m.byOwner, s.ownerId, k),
             byContract := Index.Remove(m.byContract, contract, token)),
          s))
  }

  /** The auction window a listing may carry, as the time checks accept it:
      a start not in the past, an end not in the past, start before end when
      both are given, and both given for an auction. */
  ghost predicate ValidWindow(now: nat, args: SaleArgs)
  {
    && (args.startTime.Some? ==> now <= args.startTime.value)
    && (args.endTime.Some? ==> now <= args.endTime.value)
    && (args.startTime.Some? && args.endTime.Some? ==> args.startTime.value < args.endTime.value)
    && (args.isAuction ==> args.startTime.Some? && args.endTime.Some?)
  }

  /** The first time check of `internal_add_market_data` that fails, in
      the order the contract performs them. */
  function WindowError(now: nat, args: SaleArgs): (e: Option<Error>)
    ensures e.None? <==> ValidWindow(now, args)
  {
    if args.startTime.Some? && args.startTime.value < now then Some(StartBeforeNow)
    else if args.startTime.Some? && args.endTime.Some? && args.startTime.value >= args.endTime.value then Some(StartNotBeforeEnd)
    else if args.endTime.Some? && args.endTime.value < now then Some(EndBeforeNow)
    else if args.isAuction && args.startTime.None? then Some(NoStartTime)
    else if args.isAuction && args.endTime.None? then Some(NoEndTime)
    else None
  }

  /** A re-approval that keeps an existing sale's price, bids and window:
      the key is already listed and the NEW call declares an auction. */
  predicate KeepsAuctionState(m: Market, k: string, args: SaleArgs)
  {
    k in m.sales && args.isAuction
  }

  /** `internal_add_market_data`: validate the window, then insert or
      overwrite the sale under the key and add it to both indices. */
  function AddMarketData(m: Market, now: nat, delimiter: string, owner: AccountId, approvalId: nat,
                         contract: AccountId, token: TokenId, args: SaleArgs): (r: Result<Market>)
    ensures r.Ok? <==> ValidWindow(now, args)
    ensures r.Ok? ==>
      var k := Key(delimiter, contract, token);
      var m' := r.value;
      && k in m'.sales
      && m'.sales == m.sales[k := m'.sales[k]]
      && var s := m'.sales[k];
      && s.ownerId == owner && s.approvalId == approvalId
      && s.nftContractId == contract && s.tokenId == token
      && s.isAuction == args.isAuction
      && (KeepsAuctionState(m, k, args) ==>
            && s.price == m.sales[k].price && s.bids == m.sales[k].bids
            && s.startTime == m.sales[k].startTime && s.endTime == m.sales[k].endTime)
      && (!KeepsAuctionState(m, k, args) ==>
            && s.price == args.price
            && s.bids == (if args.isAuction then Some([]) else None)
            && s.startTime == args.startTime && s.endTime == args.endTime)
      && m'.byOwner.Keys == m.byOwner.Keys + {owner}
      && m'.byOwner[owner] == (if owner in m.byOwner then m.byOwner[owner] else {}) + {k}
      && (forall o :: o in m.byOwner && o != owner ==> m'.byOwner[o] == m.byOwner[o])
      && m'.byContract.Keys == m.byContract.Keys + {contract}
      && m'.byContract[contract] == (if contract in m.byContract then m.byContract[contract] else {}) + {token}
      && (forall c :: c in m.byContract && c != contract ==> m'.byContract[c] == m.byContract[c])
      && m'.contractIdsByAccount == m.contractIdsByAccount
    ensures r.Ok? && NoEmptySets(m.byOwner) ==> NoEmptySets(r.value.byOwner)
    ensures r.Ok? && NoEmptySets(m.byContract) ==> NoEmptySets(r.value.byContract)
  {
    match WindowError(now, args)
    case Some(e) => Fail(e)
    case None =>
      var k := Key(delimiter, contract, token);
      var keep := KeepsAuctionState(m, k, args);
      var newSale := Sale(owner, approvalId, contract, token, args.price,
                        if args.isAuction then Some([]) else None,
                        args.isAuction, args.startTime, args.endTime);
      var sale := if keep then
                    var prior := m.sales[k];
                    newSale.(price := prior.price, bids := prior.bids,
                           startTime := prior.startTime, endTime := prior.endTime)
                  else newSale;
      Ok(m.(sales := m.sales[k := sale],
            byOwner := Index.Insert(m.byOwner, owner, k),
            byContract := Index.Insert(m.byContract, contract, token)))
  }

  // ---------------------------------------------------------------------
  // Index invariants
  // ---------------------------------------------------------------------

  /** The sale under `k` is filed where it belongs: its key is built from its
      own contract and token, and both indices hold it. */
  ghost predicate Filed(m: Market, delimiter: string, k: string)
    requires k in m.sales
  {
    var s := m.sales[k];
    && k == Key(delimiter, s.nftContractId, s.tokenId)
    && s.ownerId in m.byOwner && k in m.byOwner[s.ownerId]
    && s.nftContractId in m.byContract && s.tokenId in m.byContract[s.nftContractId]
  }

  /** Every live sale is filed in both indices (one direction of consistency). */
  ghost predicate Covered(m: Market, delimiter: string)
  {
    forall k :: k in m.sales ==> Filed(m, delimiter, k)
  }

  /** Full index consistency: an index entry exists iff the sale it names is
      live and has that owner / contract, and no index holds an empty set. */
  ghost predicate Consistent(m: Market, delimiter: string)
  {
    && Covered(m, delimiter)
    && NoEmptySets(m.byOwner)
    && NoEmptySets(m.byContract)
    && OwnerEntriesLive(m)
    && ContractEntriesLive(m, delimiter)
  }

  /** No listed contract id holds the delimiter's first character, so sale
      keys do not collide. */
  ghost predicate SafeContracts(m: Market, delimiter: string)
  {
    forall k :: k in m.sales ==> FreeOf(delimiter, m.sales[k].nftContractId)
  }

  lemma RemovePreservesCovered(m: Market, delimiter: string, contract: AccountId, token: TokenId)
    requires Covered(m, delimiter)
    ensures var r := RemoveSale(m, delimiter, contract, token);
      r.Ok? ==> Covered(r.value.market, delimiter)
    ensures var r := RemoveSale(m, delimiter, contract, token);
      r.Ok? && SafeContracts(m, delimiter) ==> SafeContracts(r.value.market, delimiter)
  {
    var r := RemoveSale(m, delimiter, contract, token);
    if r.Ok? {
      var k := Key(delimiter, contract, token);
      var s := m.sales[k];
      var m' := r.value.market;
      forall k' | k' in m'.sales
        ensures Filed(m', delimiter, k')
      {
        assert Filed(m, delimiter, k');
        var s' := m.sales[k'];
        assert k' != k;
        if s'.ownerId == s.ownerId {
          assert k' in m.byOwner[s.ownerId] - {k};
        }
        if s'.nftContractId == contract {
          assert s'.tokenId in m.byContract[contract] - {token};
        }
      }
    }
  }

  /** Under collision-free keys, removal of a filed sale always finds both
      index entries: it aborts exactly when the key is not listed. */
  lemma RemoveSucceedsIffListed(m: Market, delimiter: string, contract: AccountId, token: TokenId)
    requires Covered(m, delimiter) && SafeContracts(m, delimiter) && FreeOf(delimiter, contract)
    ensures RemoveSale(m, delimiter, contract, token).Ok? <==> Key(delimiter, contract, token) in m.sales
  {
    var k := Key(delimiter, contract, token);
    if k in m.sales {
      var s := m.sales[k];
      assert Filed(m, delimiter, k);
      KeyInjective(delimiter, contract, token, s.nftContractId, s.tokenId);
    }
  }

  /** Every owner index entry names a live sale of that owner. */
  ghost predicate OwnerEntriesLive(m: Market)
  {
    forall o, k :: o in m.byOwner && k in m.byOwner[o] ==> k in m.sales && m.sales[k].ownerId == o
  }

  /** Every contract index entry names a live sale of that contract and token. */
  ghost predicate ContractEntriesLive(m: Market, delimiter: string)
  {
    forall c, t :: c in m.byContract && t in m.byContract[c] ==>
      var k := Key(delimiter, c, t);
      k in m.sales && m.sales[k].nftContractId == c && m.sales[k].tokenId == t
  }

  lemma RemoveKeepsOwnerEntriesLive(m: Market, delimiter: string, contract: AccountId, token: TokenId)
    requires OwnerEntriesLive(m)
    ensures var r := RemoveSale(m, delimiter, contract, token);
      r.Ok? ==> OwnerEntriesLive(r.value.market)
  {
    var r := RemoveSale(m, delimiter, contract, token);
    if r.Ok? {
      var m' := r.value.market;
      forall o, k' | o in m'.byOwner && k' in m'.byOwner[o]
        ensures k' in m'.sales && m'.sales[k'].ownerId == o
      {
        assert k' in m.byOwner[o];
      }
    }
  }

  lemma RemoveKeepsContractEntriesLive(m: Market, delimiter: string, contract: AccountId, token: TokenId)
    requires ContractEntriesLive(m, delimiter) && Covered(m, delimiter)
    requires SafeContracts(m, delimiter) && FreeOf(delimiter, contract)
    ensures var r := RemoveSale(m, delimiter, contract, token);
      r.Ok? ==> ContractEntriesLive(r.value.market, delimiter)
  {
    var r := RemoveSale(m, delimiter, contract, token);
    if r.Ok? {
      var k := Key(delimiter, contract, token);
      var m' := r.value.market;
      forall c, t | c in m'.byContract && t in m'.byContract[c]
        ensures var k' := Key(delimiter, c, t);
          k' in m'.sales && m'.sales[k'].nftContractId == c && m'.sales[k'].tokenId == t
      {
        assert t in m.byContract[c];
        var k' := Key(delimiter, c, t);
        if k' == k {
          KeyInjective(delimiter, contract, token, c, t);
        }
      }
    }
  }

  /** A contract id with an entry in a consistent contract index names a
      live sale, so it is as collision-free as every listed contract. */
  lemma IndexedContractIsSafe(m: Market, delimiter: string, contract: AccountId)
    requires Consistent(m, delimiter) && SafeContracts(m, delimiter)
    requires contract in m.byContract
    ensures FreeOf(delimiter, contract)
  {
    var t :| t in m.byContract[contract];
    var k := Key(delimiter, contract, t);
    assert k in m.sales && m.sales[k].nftContractId == contract;
  }

  /** Removal preserves full consistency when listed keys cannot collide,
      whatever contract id the caller names. */
  lemma RemovePreservesConsistent(m: Market, delimiter: string, contract: AccountId, token: TokenId)
    requires Consistent(m, delimiter) && SafeContracts(m, delimiter)
    ensures var r := RemoveSale(m, delimiter, contract, token);
      r.Ok? ==> Consistent(r.value.market, delimiter) && SafeContracts(r.value.market, delimiter)
  {
    var r := RemoveSale(m, delimiter, contract, token);
    RemovePreservesCovered(m, delimiter, contract, token);
    RemoveKeepsOwnerEntriesLive(m, delimiter, contract, token);
    if r.Ok? {
      IndexedContractIsSafe(m, delimiter, contract);
      RemoveKeepsContractEntriesLive(m, delimiter, contract, token);
    }
  }

  lemma AddPreservesCovered(m: Market, now: nat, delimiter: string, owner: AccountId, approvalId: nat,
                            contract: AccountId, token: TokenId, args: SaleArgs)
    requires Covered(m, delimiter)
    ensures var r := AddMarketData(m, now, delimiter, owner, approvalId, contract, token, args);
      r.Ok? ==> Covered(r.value, delimiter)
  {
    var r := AddMarketData(m, now, delimiter, owner, approvalId, contract, token, args);
    if r.Ok? {
      var k := Key(delimiter, contract, token);
      forall k' | k' in r.value.sales
        ensures Filed(r.value, delimiter, k')
      {
        if k' != k {
          assert Filed(m, delimiter, k');
        }
      }
    }
  }

  lemma AddKeepsOwnerEntriesLive(m: Market, now: nat, delimiter: string, owner: AccountId, approvalId: nat,
                                 contract: AccountId, token: TokenId, args: SaleArgs)
    requires OwnerEntriesLive(m)
    requires var k := Key(delimiter, contract, token);
      k in m.sales ==> m.sales[k].ownerId == owner
    ensures var r := AddMarketData(m, now, delimiter, owner, approvalId, contract, token, args);
      r.Ok? ==> OwnerEntriesLive(r.value)
  {
    var r := AddMarketData(m, now, delimiter, owner, approvalId, contract, token, args);
    if r.Ok? {
      var k := Key(delimiter, contract, token);
      var m' := r.value;
      forall o, k' | o in m'.byOwner && k' in m'.byOwner[o]
        ensures k' in m'.sales && m'.sales[k'].ownerId == o
      {
        if !(o == owner && k' == k) {
          assert k' in m.byOwner[o];
        }
      }
    }
  }

  lemma AddKeepsContractEntriesLive(m: Market, now: nat, delimiter: string, owner: AccountId, approvalId: nat,
                                    contract: AccountId, token: TokenId, args: SaleArgs)
    requires ContractEntriesLive(m, delimiter) && SafeContracts(m, delimiter) && FreeOf(delimiter, contract)
    ensures var r := AddMarketData(m, now, delimiter, owner, approvalId, contract, token, args);
      r.Ok? ==> ContractEntriesLive(r.value, delimiter) && SafeContracts(r.value, delimiter)
  {
    var r := AddMarketData(m, now, delimiter, owner, approvalId, contract, token, args);
    if r.Ok? {
      var k := Key(delimiter, contract, token);
      var m' := r.value;
      forall c, t | c in m'.byContract && t in m'.byContract[c]
        ensures var k' := Key(delimiter, c, t);
          k' in m'.sales && m'.sales[k'].nftContractId == c && m'.sales[k'].tokenId == t
      {
        if !(c == contract && t == token) {
          assert t in m.byContract[c];
          var k' := Key(delimiter, c, t);
          if k' == k {
            KeyInjective(delimiter, contract, token, c, t);
          }
        }
      }
    }
  }

  /** Adding preserves full consistency when keys cannot collide and a
      re-listing keeps the sale's owner. */
  lemma AddPreservesConsistent(m: Market, now: nat, delimiter: string, owner: AccountId, approvalId: nat,
                               contract: AccountId, token: TokenId, args: SaleArgs)
    requires Consistent(m, delimiter) && SafeContracts(m, delimiter) && FreeOf(delimiter, contract)
    requires var k := Key(delimiter, contract, token);
      k in m.sales ==> m.sales[k].ownerId == owner
    ensures var r := AddMarketData(m, now, delimiter, owner, approvalId, contract, token, args);
      r.Ok? ==> Consistent(r.value, delimiter) && SafeContracts(r.value, delimiter)
  {
    var r := AddMarketData(m, now, delimiter, owner, approvalId, contract, token, args);
    AddPreservesCovered(m, now, delimiter, owner, approvalId, contract, token, args);
    AddKeepsOwnerEntriesLive(m, now, delimiter, owner, approvalId, contract, token, args);
    AddKeepsContractEntriesLive(m, now, delimiter, owner, approvalId, contract, token, args);
  }

  /** Re-listing a sale under a different owner leaves the key in the old
      owner's index set: consistency is lost. */
  lemma RelistNewOwnerLeavesStaleEntry(m: Market, now: nat, delimiter: string, owner: AccountId, approvalId: nat,
                                       contract: AccountId, token: TokenId, args: SaleArgs)
    requires Consistent(m, delimiter)
    requires var k := Key(delimiter, contract, token);
      k in m.sales && m.sales[k].ownerId != owner
    requires AddMarketData(m, now, delimiter, owner, approvalId, contract, token, args).Ok?
    ensures var m' := AddMarketData(m, now, delimiter, owner, approvalId, contract, token, args).value;
      var k := Key(delimiter, contract, token);
      var previous := m.sales[k].ownerId;
      && previous in m'.byOwner && k in m'.byOwner[previous]
      && m'.sales[k].ownerId != previous
      && !Consistent(m', delimiter)
  {
    var k := Key(delimiter, contract, token);
    assert Filed(m, delimiter, k);
  }

  /** A fresh listing followed by its removal restores the registry exactly
      and hands back the listed sale. */
  lemma AddThenRemoveRestores(m: Market, now: nat, delimiter: string, owner: AccountId, approvalId: nat,
                              contract: AccountId, token: TokenId, args: SaleArgs)
    requires Consistent(m, delimiter)
    requires Key(delimiter, contract, token) !in m.sales
    requires ValidWindow(now, args)
    ensures var m' := AddMarketData(m, now, delimiter, owner, approvalId, contract, token, args).value;
      RemoveSale(m', delimiter, contract, token)
        == Ok(Removal(m, m'.sales[Key(delimiter, contract, token)]))
  {
    var k := Key(delimiter, contract, token);
    var m' := AddMarketData(m, now, delimiter, owner, approvalId, contract, token, args).value;
    assert owner in m.byOwner ==> k !in m.byOwner[owner];
    assert contract in m.byContract ==> token !in m.byContract[contract];
    Index.InsertThenRemove(m.byOwner, owner, k);
    Index.InsertThenRemove(m.byContract, contract, token);
    assert m'.sales - {k} == m.sales;
  }
}

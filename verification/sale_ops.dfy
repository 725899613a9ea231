/** The public sale entry points of src/sale.rs: cancelling a listing,
    repricing, bidding, ending an auction, buying at a fixed price, and the
    first phase of a purchase. Each is a pure step over the market state. */
module SaleOps {
  import opened Types
  import opened Keys
  import opened Registry

  /** The smallest step by which a bid must beat the reserve or the
      standing bid: 0.01 NEAR in yoctoNEAR. */
  const MIN_BID_INCREMENT: nat := 10_000_000_000_000_000_000_000

  function Last(bids: seq<Bid>): Bid
    requires |bids| > 0
  {
    bids[|bids| - 1]
  }

  /** The bids held for a sale, empty when it holds none. */
  function BidsOf(s: Sale): seq<Bid>
  {
    s.bids.GetOr([])
  }

  /** An auction sale that holds at least one bid in escrow. */
  predicate HoldsBid(s: Sale)
  {
    s.isAuction && s.bids.Some? && |s.bids.value| > 0
  }

  /** The refund of the standing (last) bid. */
  function RefundLast(bids: seq<Bid>): Transfer
    requires |bids| > 0
  {
    Transfer(Last(bids).bidder, Last(bids).amount)
  }

  function BidTotal(bids: seq<Bid>): nat
  {
    if |bids| == 0 then 0 else BidTotal(bids[..|bids| - 1]) + Last(bids).amount
  }

  /** The amount a sale holds in escrow for its bidders. */
  function Escrow(s: Sale): nat
  {
    BidTotal(BidsOf(s))
  }

  /** Bids are only ever held by auctions, and at most one at a time. */
  ghost predicate SaleBidsOk(s: Sale)
  {
    && (!s.isAuction ==> s.bids.None?)
    && (s.bids.Some? ==> |s.bids.value| <= 1)
  }

  ghost predicate BidsWellFormed(m: Market)
  {
    forall k :: k in m.sales ==> SaleBidsOk(m.sales[k])
  }

  /** Rust's derived ordering on `Option<u64>`: `None` is below every `Some`. */
  predicate OptionLess(a: Option<nat>, b: Option<nat>)
  {
    match (a, b)
    case (None, Some(_)) => true
    case (Some(x), Some(y)) => x < y
    case _ => false
  }

  /** That ordering is a strict total order in which `None` is the least
      element and `Some` values compare by their contents. */
  lemma OptionLessIsStrictOrder(a: Option<nat>, b: Option<nat>, c: Option<nat>)
    ensures !OptionLess(a, a)
    ensures OptionLess(a, b) && OptionLess(b, c) ==> OptionLess(a, c)
    ensures a != b ==> OptionLess(a, b) || OptionLess(b, a)
    ensures b.Some? ==> OptionLess(None, b)
    ensures !OptionLess(a, None)
    ensures a.Some? && b.Some? ==> (OptionLess(a, b) <==> a.value < b.value)
  {
  }

  // ---------------------------------------------------------------------
  // remove_sale
  // ---------------------------------------------------------------------

  /** Who may withdraw a removed sale, and when: its owner or the contract
      owner; when an auction holds a bid, its owner only before the end. */
  ghost predicate MayWithdraw(env: Env, cfg: Config, s: Sale)
  {
    && (env.predecessor == s.ownerId || env.predecessor == cfg.ownerId)
    && (HoldsBid(s) && env.predecessor == s.ownerId ==> s.endTime.Some? && env.now < s.endTime.value)
  }

  /** `remove_sale`: withdraw a listing, refunding the standing bid. */
  function RemoveListing(m: Market, env: Env, cfg: Config, contract: AccountId, token: TokenId): (r: Outcome)
    ensures var rem := RemoveSale(m, cfg.delimiter, contract, token);
      r.Done? <==> env.deposit == 1 && rem.Ok? && MayWithdraw(env, cfg, rem.value.sale)
    ensures env.deposit == 1 && Key(cfg.delimiter, contract, token) !in m.sales ==> r == Abort(NoSale)
    ensures r.Done? ==>
      var rem := RemoveSale(m, cfg.delimiter, contract, token).value;
      && r.market == rem.market
      && r.pending.None?
      && (HoldsBid(rem.sale) ==> r.transfers == [RefundLast(rem.sale.bids.value)])
      && (!HoldsBid(rem.sale) ==> r.transfers == [])
  {
    if env.deposit != 1 then Abort(NotOneYocto)
    else
      match RemoveSale(m, cfg.delimiter, contract, token)
      case Fail(e) => Abort(e)
      case Ok(Removal(m', s)) =>
        var caller := env.predecessor;
        if caller != s.ownerId && caller != cfg.ownerId then Abort(NotOwnerOrAdmin)
        else if HoldsBid(s) then
          if caller == s.ownerId && s.endTime.None? then Abort(UnwrapNone)
          else if caller == s.ownerId && env.now >= s.endTime.value then Abort(AuctionEndPassed)
          else Done(m', [RefundLast(s.bids.value)], None)
        else Done(m', [], None)
  }

  /** A contract owner who is not the seller may withdraw any listing, at
      any time and whatever its bids. */
  lemma AdminMayAlwaysWithdraw(m: Market, env: Env, cfg: Config, contract: AccountId, token: TokenId)
    requires env.deposit == 1 && env.predecessor == cfg.ownerId
    requires RemoveSale(m, cfg.delimiter, contract, token).Ok?
    requires RemoveSale(m, cfg.delimiter, contract, token).value.sale.ownerId != cfg.ownerId
    ensures RemoveListing(m, env, cfg, contract, token).Done?
  {
  }

  /** The end-time gate binds the seller even when the seller is the
      contract owner: such an owner cannot withdraw its own auction once a
      bid is held and the end time has passed. */
  lemma OwnerSellerBoundByEndTime(m: Market, env: Env, cfg: Config, contract: AccountId, token: TokenId)
    requires env.deposit == 1 && env.predecessor == cfg.ownerId
    requires RemoveSale(m, cfg.delimiter, contract, token).Ok?
    requires var s := RemoveSale(m, cfg.delimiter, contract, token).value.sale;
      s.ownerId == cfg.ownerId && HoldsBid(s) && s.endTime.Some? && env.now >= s.endTime.value
    ensures RemoveListing(m, env, cfg, contract, token) == Abort(AuctionEndPassed)
  {
  }

  /** Withdrawing returns the whole escrow of a well-formed sale. */
  lemma RemoveListingRefundsEscrow(m: Market, env: Env, cfg: Config, contract: AccountId, token: TokenId)
    requires BidsWellFormed(m)
    requires RemoveListing(m, env, cfg, contract, token).Done?
    ensures var s := m.sales[Key(cfg.delimiter, contract, token)];
      Total(RemoveListing(m, env, cfg, contract, token).transfers) == Escrow(s)
  {
    var k := Key(cfg.delimiter, contract, token);
    var s := m.sales[k];
    assert SaleBidsOk(s);
    if HoldsBid(s) {
      var b := s.bids.value;
      assert b == [b[0]];
      assert Total([RefundLast(b)]) == RefundLast(b).amount;
      assert BidTotal(b) == BidTotal(b[..0]) + b[0].amount;
    }
  }

  // ---------------------------------------------------------------------
  // update_price
  // ---------------------------------------------------------------------

  /** `update_price`: the owner of a fixed-price sale sets a new price. */
  function UpdatePrice(m: Market, env: Env, cfg: Config, contract: AccountId, token: TokenId, amount: nat): (r: Outcome)
    ensures var k := Key(cfg.delimiter, contract, token);
      r.Done? <==> env.deposit == 1 && k in m.sales && !m.sales[k].isAuction && env.predecessor == m.sales[k].ownerId
    ensures var k := Key(cfg.delimiter, contract, token);
      r.Done? ==>
        && r.market.sales.Keys == m.sales.Keys
        && r.market.sales[k].price == amount
        && r.market.sales[k].(price := m.sales[k].price) == m.sales[k]
        && (forall k' :: k' in m.sales && k' != k ==> r.market.sales[k'] == m.sales[k'])
        && r.market.(sales := m.sales) == m
        && r.transfers == [] && r.pending.None?
  {
    var k := Key(cfg.delimiter, contract, token);
    if env.deposit != 1 then Abort(NotOneYocto)
    else if k !in m.sales then Abort(NoSale)
    else
      var s := m.sales[k];
      if s.isAuction then Abort(AuctionNotUpdatable)
      else if env.predecessor != s.ownerId then Abort(NotSaleOwner)
      else Done(m.(sales := m.sales[k := s.(price := amount)]), [], None)
  }

  /** Repricing twice is repricing once to the second amount. */
  lemma UpdatePriceLastWins(m: Market, env: Env, cfg: Config, contract: AccountId, token: TokenId, a1: nat, a2: nat)
    requires UpdatePrice(m, env, cfg, contract, token, a1).Done?
    ensures var m1 := UpdatePrice(m, env, cfg, contract, token, a1).market;
      UpdatePrice(m1, env, cfg, contract, token, a2) == UpdatePrice(m, env, cfg, contract, token, a2)
  {
    var k := Key(cfg.delimiter, contract, token);
    var m1 := UpdatePrice(m, env, cfg, contract, token, a1).market;
    assert m1.sales[k := m1.sales[k].(price := a2)] == m.sales[k := m.sales[k].(price := a2)];
  }

  // ---------------------------------------------------------------------
  // add_bid
  // ---------------------------------------------------------------------

  /** The conditions under which `add_bid` accepts the attached deposit. */
  ghost predicate BidAdmissible(m: Market, env: Env, k: string)
  {
    && env.deposit > 0
    && k in m.sales
    && var s := m.sales[k];
    && s.isAuction
    && s.startTime.Some? && s.endTime.Some?
    && s.startTime.value < env.now < s.endTime.value
    && env.predecessor != s.ownerId
    && var bids := BidsOf(s);
    && (|bids| == 0 ==> env.deposit >= s.price + MIN_BID_INCREMENT)
    && (|bids| > 0 ==> env.deposit >= Last(bids).amount + MIN_BID_INCREMENT && env.deposit > s.price)
  }

  /** `add_bid`: escrow the attached deposit as the new standing bid,
      refunding the bid it replaces. */
  function AddBid(m: Market, env: Env, cfg: Config, contract: AccountId, token: TokenId): (r: Outcome)
    ensures var k := Key(cfg.delimiter, contract, token);
      r.Done? <==> BidAdmissible(m, env, k)
    ensures var k := Key(cfg.delimiter, contract, token);
      r.Done? ==>
        k in m.sales && k in r.market.sales &&
        var s := m.sales[k];
        var s' := r.market.sales[k];
        var bids := BidsOf(s);
        && r.market == m.(sales := m.sales[k := s'])
        && s' == s.(bids := s'.bids)
        && s'.bids.Some? && |s'.bids.value| > 0
        && Last(s'.bids.value) == Bid(env.predecessor, env.deposit)
        && (|bids| <= 1 ==> s'.bids == Some([Bid(env.predecessor, env.deposit)]))
        && (|bids| > 0 ==> r.transfers == [RefundLast(bids)])
        && (|bids| == 0 ==> r.transfers == [])
        && r.pending.None?
  {
    var k := Key(cfg.delimiter, contract, token);
    if env.deposit == 0 then Abort(ZeroDeposit)
    else if k !in m.sales then Abort(DoesNotExist)
    else
      var s := m.sales[k];
      if !s.isAuction then Abort(NotAuction)
      else if s.startTime.None? then Abort(UnwrapNone)
      else if s.startTime.value >= env.now then Abort(BidBeforeStart)
      else if s.endTime.None? then Abort(UnwrapNone)
      else if env.now >= s.endTime.value then Abort(BidAfterEnd)
      else if s.ownerId == env.predecessor then Abort(SelfDealing)
      else
        var bid := Bid(env.predecessor, env.deposit);
        var bids := BidsOf(s);
        if |bids| > 0 then
          if env.deposit < Last(bids).amount + MIN_BID_INCREMENT then Abort(BidBelowIncrement)
          else if env.deposit <= s.price then Abort(BidNotAboveReserve)
          else
            var kept := bids[..|bids| - 1] + [bid];
            assert |bids| == 1 ==> kept == [bid];
            Done(m.(sales := m.sales[k := s.(bids := Some(kept))]), [RefundLast(bids)], None)
        else if env.deposit < s.price + MIN_BID_INCREMENT then Abort(BidBelowReserve)
        else Done(m.(sales := m.sales[k := s.(bids := Some([bid]))]), [], None)
  }

  /** Escrow conservation for one bid: what was held plus the new deposit
      equals what is now held plus what was refunded. */
  lemma AddBidConservesEscrow(m: Market, env: Env, cfg: Config, contract: AccountId, token: TokenId)
    requires AddBid(m, env, cfg, contract, token).Done?
    ensures var k := Key(cfg.delimiter, contract, token);
      var r := AddBid(m, env, cfg, contract, token);
      Escrow(m.sales[k]) + env.deposit == Escrow(r.market.sales[k]) + Total(r.transfers)
  {
    var k := Key(cfg.delimiter, contract, token);
    var r := AddBid(m, env, cfg, contract, token);
    var bids := BidsOf(m.sales[k]);
    var kept := BidsOf(r.market.sales[k]);
    if |bids| > 0 {
      assert kept == bids[..|bids| - 1] + [Bid(env.predecessor, env.deposit)];
      assert kept[..|kept| - 1] == bids[..|bids| - 1];
      assert BidTotal(bids) == BidTotal(bids[..|bids| - 1]) + Last(bids).amount;
      assert Total(r.transfers) == Total(r.transfers[..0]) + Last(bids).amount;
    } else {
      assert kept[..0] == [];
    }
  }

  // ---------------------------------------------------------------------
  // process_purchase (phase one of settlement)
  // ---------------------------------------------------------------------

  /** `process_purchase`: remove the sale BEFORE the transfer is requested,
      and leave the settlement continuation pending. */
  function ProcessPurchase(m: Market, delimiter: string, contract: AccountId, token: TokenId,
                           price: nat, buyer: AccountId): (r: Outcome)
    ensures r.Done? <==> RemoveSale(m, delimiter, contract, token).Ok?
    ensures r.Done? ==>
      var rem := RemoveSale(m, delimiter, contract, token).value;
      && r.market == rem.market
      && Key(delimiter, contract, token) !in r.market.sales
      && r.transfers == []
      && r.pending == Some(Pending(buyer, price, rem.sale))
  {
    match RemoveSale(m, delimiter, contract, token)
    case Fail(e) => Abort(e)
    case Ok(Removal(m', s)) => Done(m', [], Some(Pending(buyer, price, s)))
  }

  // ---------------------------------------------------------------------
  // end_auction
  // ---------------------------------------------------------------------

  /** `end_auction`: after the end time, settle with the standing bid, or
      simply drop an auction nobody bid on. */
  function EndAuction(m: Market, env: Env, cfg: Config, contract: AccountId, token: TokenId): (r: Outcome)
    ensures var k := Key(cfg.delimiter, contract, token);
      r.Done? <==>
        && k in m.sales && m.sales[k].isAuction
        && (m.sales[k].endTime.None? || m.sales[k].endTime.value < env.now)
        && RemoveSale(m, cfg.delimiter, contract, token).Ok?
    ensures r.Done? ==>
      var rem := RemoveSale(m, cfg.delimiter, contract, token).value;
      var bids := BidsOf(rem.sale);
      && r.market == rem.market
      && r.transfers == []
      && (|bids| > 0 ==> r.pending == Some(Pending(Last(bids).bidder, Last(bids).amount, rem.sale)))
      && (|bids| == 0 ==> r.pending.None?)
  {
    var k := Key(cfg.delimiter, contract, token);
    if k !in m.sales then Abort(DoesNotExist)
    else
      var s := m.sales[k];
      if !s.isAuction then Abort(NotAuction)
      else if !OptionLess(s.endTime, Some(env.now)) then Abort(EndTooEarly)
      else
        var bids := BidsOf(s);
        if |bids| > 0 then ProcessPurchase(m, cfg.delimiter, contract, token, Last(bids).amount, Last(bids).bidder)
        else
          match RemoveSale(m, cfg.delimiter, contract, token)
          case Fail(e) => Abort(e)
          case Ok(Removal(m', _)) => Done(m', [], None)
  }

  /** Ending a well-formed auction passes its whole escrow on as the
      purchase price. */
  lemma EndAuctionSettlesEscrow(m: Market, env: Env, cfg: Config, contract: AccountId, token: TokenId)
    requires BidsWellFormed(m)
    requires EndAuction(m, env, cfg, contract, token).Done?
    ensures var s := m.sales[Key(cfg.delimiter, contract, token)];
      var r := EndAuction(m, env, cfg, contract, token);
      (if r.pending.Some? then r.pending.value.price else 0) == Escrow(s)
  {
    var s := m.sales[Key(cfg.delimiter, contract, token)];
    assert SaleBidsOk(s);
    var bids := BidsOf(s);
    if |bids| > 0 {
      assert bids == [bids[0]];
      assert BidTotal(bids) == BidTotal(bids[..0]) + bids[0].amount;
    }
  }

  // ---------------------------------------------------------------------
  // offer
  // ---------------------------------------------------------------------

  /** `offer`: buy a fixed-price sale with the attached deposit. */
  function Offer(m: Market, env: Env, cfg: Config, contract: AccountId, token: TokenId): (r: Outcome)
    ensures var k := Key(cfg.delimiter, contract, token);
      r.Done? <==>
        && env.deposit > 0 && k in m.sales
        && env.predecessor != m.sales[k].ownerId
        && !m.sales[k].isAuction
        && env.deposit >= m.sales[k].price
        && RemoveSale(m, cfg.delimiter, contract, token).Ok?
    ensures r.Done? ==>
      var rem := RemoveSale(m, cfg.delimiter, contract, token).value;
      && r.market == rem.market
      && r.transfers == []
      && r.pending == Some(Pending(env.predecessor, env.deposit, rem.sale))
  {
    var k := Key(cfg.delimiter, contract, token);
    if env.deposit == 0 then Abort(ZeroDeposit)
    else if k !in m.sales then Abort(NoSale)
    else
      var s := m.sales[k];
      if s.ownerId == env.predecessor then Abort(SelfDealing)
      else if s.isAuction then Abort(UseAddBid)
      else if env.deposit < s.price then Abort(DepositBelowPrice)
      else ProcessPurchase(m, cfg.delimiter, contract, token, env.deposit, env.predecessor)
  }

  // ---------------------------------------------------------------------
  // At most one settlement per sale
  // ---------------------------------------------------------------------

  /** A sale settles at most once: after an `offer` or an `end_auction`
      on a key has succeeded, a second offer, a second auction end, a bid,
      a repricing or a withdrawal on the same key all abort. */
  lemma PurchaseStartsAtMostOnce(m: Market, first: Env, second: Env, cfg: Config, contract: AccountId, token: TokenId,
                                 amount: nat)
    requires Offer(m, first, cfg, contract, token).Done? || EndAuction(m, first, cfg, contract, token).Done?
    ensures var r := if Offer(m, first, cfg, contract, token).Done? then Offer(m, first, cfg, contract, token)
                     else EndAuction(m, first, cfg, contract, token);
      && Offer(r.market, second, cfg, contract, token).Abort?
      && EndAuction(r.market, second, cfg, contract, token).Abort?
      && AddBid(r.market, second, cfg, contract, token).Abort?
      && UpdatePrice(r.market, second, cfg, contract, token, amount).Abort?
      && RemoveListing(r.market, second, cfg, contract, token).Abort?
    ensures var r := if Offer(m, first, cfg, contract, token).Done? then Offer(m, first, cfg, contract, token)
                     else EndAuction(m, first, cfg, contract, token);
      && (second.deposit > 0 ==> Offer(r.market, second, cfg, contract, token) == Abort(NoSale))
      && EndAuction(r.market, second, cfg, contract, token) == Abort(DoesNotExist)
      && (second.deposit > 0 ==> AddBid(r.market, second, cfg, contract, token) == Abort(DoesNotExist))
      && (second.deposit == 1 ==> UpdatePrice(r.market, second, cfg, contract, token, amount) == Abort(NoSale))
      && (second.deposit == 1 ==> RemoveListing(r.market, second, cfg, contract, token) == Abort(NoSale))
  {
    PurchaseUnlistsKey(m, first, cfg, contract, token);
  }

  /** Both purchase paths leave the purchased key unlisted. */
  lemma PurchaseUnlistsKey(m: Market, env: Env, cfg: Config, contract: AccountId, token: TokenId)
    ensures var r := Offer(m, env, cfg, contract, token);
      r.Done? ==> r.pending.Some? && Key(cfg.delimiter, contract, token) !in r.market.sales
    ensures var r := EndAuction(m, env, cfg, contract, token);
      r.Done? ==> Key(cfg.delimiter, contract, token) !in r.market.sales
  {
  }

  // ---------------------------------------------------------------------
  // Invariants across the entry points
  // ---------------------------------------------------------------------

  lemma RemoveKeepsBidsWellFormed(m: Market, delimiter: string, contract: AccountId, token: TokenId)
    requires BidsWellFormed(m)
    ensures var r := RemoveSale(m, delimiter, contract, token);
      r.Ok? ==> BidsWellFormed(r.value.market)
  {
    var r := RemoveSale(m, delimiter, contract, token);
    if r.Ok? {
      forall k | k in r.value.market.sales
        ensures SaleBidsOk(r.value.market.sales[k])
      {
        assert k in m.sales;
      }
    }
  }

  /** Listing keeps bids well formed: a new listing holds no bid, and a
      re-listing either starts afresh or keeps the old auction's bids. */
  lemma AddKeepsBidsWellFormed(m: Market, now: nat, delimiter: string, owner: AccountId, approvalId: nat,
                               contract: AccountId, token: TokenId, args: SaleArgs)
    requires BidsWellFormed(m)
    ensures var r := AddMarketData(m, now, delimiter, owner, approvalId, contract, token, args);
      r.Ok? ==> BidsWellFormed(r.value)
  {
    var r := AddMarketData(m, now, delimiter, owner, approvalId, contract, token, args);
    if r.Ok? {
      var k := Key(delimiter, contract, token);
      forall k' | k' in r.value.sales
        ensures SaleBidsOk(r.value.sales[k'])
      {
        if k' != k {
          assert k' in m.sales;
        } else if KeepsAuctionState(m, k, args) {
          assert SaleBidsOk(m.sales[k]);
        }
      }
    }
  }

  /** Every entry point of sale.rs keeps "at most one bid, and only on an
      auction" true of every sale. */
  lemma EntryPointsKeepBidsWellFormed(m: Market, env: Env, cfg: Config, contract: AccountId, token: TokenId, amount: nat)
    requires BidsWellFormed(m)
    ensures var r := RemoveListing(m, env, cfg, contract, token); r.Done? ==> BidsWellFormed(r.market)
    ensures var r := UpdatePrice(m, env, cfg, contract, token, amount); r.Done? ==> BidsWellFormed(r.market)
    ensures var r := AddBid(m, env, cfg, contract, token); r.Done? ==> BidsWellFormed(r.market)
    ensures var r := EndAuction(m, env, cfg, contract, token); r.Done? ==> BidsWellFormed(r.market)
    ensures var r := Offer(m, env, cfg, contract, token); r.Done? ==> BidsWellFormed(r.market)
  {
    RemoveKeepsBidsWellFormed(m, cfg.delimiter, contract, token);
    var k := Key(cfg.delimiter, contract, token);
    var r := UpdatePrice(m, env, cfg, contract, token, amount);
    if r.Done? {
      forall k' | k' in r.market.sales
        ensures SaleBidsOk(r.market.sales[k'])
      {
        assert SaleBidsOk(m.sales[k']);
      }
    }
    var b := AddBid(m, env, cfg, contract, token);
    if b.Done? {
      forall k' | k' in b.market.sales
        ensures SaleBidsOk(b.market.sales[k'])
      {
        assert SaleBidsOk(m.sales[k']);
      }
    }
  }

  /** The entry points that only delete keep the indices fully consistent
      when keys cannot collide; the ones that only rewrite a sale in place
      never touch the indices. */
  lemma EntryPointsKeepConsistent(m: Market, env: Env, cfg: Config, contract: AccountId, token: TokenId, amount: nat)
    requires Consistent(m, cfg.delimiter) && SafeContracts(m, cfg.delimiter)
    ensures var r := RemoveListing(m, env, cfg, contract, token); r.Done? ==> Consistent(r.market, cfg.delimiter)
    ensures var r := UpdatePrice(m, env, cfg, contract, token, amount); r.Done? ==> Consistent(r.market, cfg.delimiter)
    ensures var r := AddBid(m, env, cfg, contract, token); r.Done? ==> Consistent(r.market, cfg.delimiter)
    ensures var r := EndAuction(m, env, cfg, contract, token); r.Done? ==> Consistent(r.market, cfg.delimiter)
    ensures var r := Offer(m, env, cfg, contract, token); r.Done? ==> Consistent(r.market, cfg.delimiter)
  {
    RemovePreservesConsistent(m, cfg.delimiter, contract, token);
    var k := Key(cfg.delimiter, contract, token);
    var u := UpdatePrice(m, env, cfg, contract, token, amount);
    if u.Done? {
      InPlaceRewriteKeepsConsistent(m, cfg.delimiter, k, u.market.sales[k]);
    }
    var b := AddBid(m, env, cfg, contract, token);
    if b.Done? {
      InPlaceRewriteKeepsConsistent(m, cfg.delimiter, k, b.market.sales[k]);
    }
  }

  /** Every live sale stays filed in both indices across all five entry
      points, with no side condition on keys or owners. */
  lemma EntryPointsKeepCovered(m: Market, env: Env, cfg: Config, contract: AccountId, token: TokenId, amount: nat)
    requires Covered(m, cfg.delimiter)
    ensures var r := RemoveListing(m, env, cfg, contract, token); r.Done? ==> Covered(r.market, cfg.delimiter)
    ensures var r := UpdatePrice(m, env, cfg, contract, token, amount); r.Done? ==> Covered(r.market, cfg.delimiter)
    ensures var r := AddBid(m, env, cfg, contract, token); r.Done? ==> Covered(r.market, cfg.delimiter)
    ensures var r := EndAuction(m, env, cfg, contract, token); r.Done? ==> Covered(r.market, cfg.delimiter)
    ensures var r := Offer(m, env, cfg, contract, token); r.Done? ==> Covered(r.market, cfg.delimiter)
  {
    RemovePreservesCovered(m, cfg.delimiter, contract, token);
    var k := Key(cfg.delimiter, contract, token);
    var u := UpdatePrice(m, env, cfg, contract, token, amount);
    if u.Done? {
      InPlaceRewriteKeepsCovered(m, cfg.delimiter, k, u.market.sales[k]);
    }
    var b := AddBid(m, env, cfg, contract, token);
    if b.Done? {
      InPlaceRewriteKeepsCovered(m, cfg.delimiter, k, b.market.sales[k]);
    }
  }

  /** Rewriting a listed sale without changing its owner, contract or token
      keeps every live sale filed. */
  lemma InPlaceRewriteKeepsCovered(m: Market, delimiter: string, k: string, s: Sale)
    requires Covered(m, delimiter) && k in m.sales
    requires s.ownerId == m.sales[k].ownerId
    requires s.nftContractId == m.sales[k].nftContractId && s.tokenId == m.sales[k].tokenId
    ensures Covered(m.(sales := m.sales[k := s]), delimiter)
  {
    var m' := m.(sales := m.sales[k := s]);
    forall k' | k' in m'.sales
      ensures Filed(m', delimiter, k')
    {
      assert Filed(m, delimiter, k');
    }
  }

  /** Rewriting a listed sale without changing its owner, contract or token
      keeps the indices consistent. */
  lemma InPlaceRewriteKeepsConsistent(m: Market, delimiter: string, k: string, s: Sale)
    requires Consistent(m, delimiter) && k in m.sales
    requires s.ownerId == m.sales[k].ownerId
    requires s.nftContractId == m.sales[k].nftContractId && s.tokenId == m.sales[k].tokenId
    ensures Consistent(m.(sales := m.sales[k := s]), delimiter)
  {
    var m' := m.(sales := m.sales[k := s]);
    forall k' | k' in m'.sales
      ensures Filed(m', delimiter, k')
    {
      assert Filed(m, delimiter, k');
    }
  }

  /** Re-approving a token as a fixed-price sale while its auction holds a
      bid discards the bid: the escrow vanishes from the sale and the
      re-listing issues no refund. */
  lemma RelistAsFixedPriceDropsEscrow(m: Market, now: nat, delimiter: string, owner: AccountId, approvalId: nat,
                                      contract: AccountId, token: TokenId, args: SaleArgs)
    requires var k := Key(delimiter, contract, token);
      k in m.sales && HoldsBid(m.sales[k])
    requires !args.isAuction
    requires AddMarketData(m, now, delimiter, owner, approvalId, contract, token, args).Ok?
    ensures var k := Key(delimiter, contract, token);
      var s' := AddMarketData(m, now, delimiter, owner, approvalId, contract, token, args).value.sales[k];
      s'.bids.None? && Escrow(s') == 0
  {
  }
}

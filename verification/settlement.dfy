/** Phase two of a purchase, `resolve_purchase` in src/sale.rs: validate
    the payout the NFT contract reported, then either distribute the price
    among the payees (taking the marketplace fee from the seller's share) or
    refund the buyer in full.

    The payout is a hash map, which the contract walks in no particular
    order; the methods below walk it by arbitrary choice, and their
    contracts hold whatever order the walk takes. */
module Settlement {
  import opened Types

  type Payout = map<AccountId, nat>

  /** The marketplace fee in basis points (5%). */
  const FEE_BPS: nat := 500
  const BPS_DENOMINATOR: nat := 10_000
  /** The most payees the market asks the NFT contract to split a price into. */
  const MAX_PAYEES: nat := 10

  function Fee(price: nat): (fee: nat)
    ensures fee * 20 <= price < (fee + 1) * 20
  {
    price * FEE_BPS / BPS_DENOMINATOR
  }

  // ---------------------------------------------------------------------
  // Sums and bags over the entries of a payout
  // ---------------------------------------------------------------------

  /** The total the payout assigns to the recipients in `ks`. */
  ghost function SumOver(p: Payout, ks: set<AccountId>): nat
    requires ks <= p.Keys
    decreases ks
  {
    if ks == {} then 0
    else
      var a :| a in ks;
      p[a] + SumOver(p, ks - {a})
  }

  ghost function PayoutSum(p: Payout): nat
  {
    SumOver(p, p.Keys)
  }

  /** The sum does not depend on which recipient is taken first. */
  lemma {:induction false} SumOverPick(p: Payout, ks: set<AccountId>, a: AccountId)
    requires ks <= p.Keys && a in ks
    ensures SumOver(p, ks) == p[a] + SumOver(p, ks - {a})
    decreases ks
  {
    var b :| b in ks && SumOver(p, ks) == p[b] + SumOver(p, ks - {b});
    if b != a {
      SumOverPick(p, ks - {b}, a);
      SumOverPick(p, ks - {a}, b);
      assert ks - {b} - {a} == ks - {a} - {b};
    }
  }

  /** Paying more recipients never pays less. */
  lemma {:induction false} SumOverMonotone(p: Payout, small: set<AccountId>, big: set<AccountId>)
    requires small <= big <= p.Keys
    ensures SumOver(p, small) <= SumOver(p, big)
    decreases small
  {
    if small != {} {
      var a :| a in small;
      SumOverPick(p, small, a);
      SumOverPick(p, big, a);
      SumOverMonotone(p, small - {a}, big - {a});
    }
  }

  /** What one payee receives: its payout amount, less the fee when it is
      the seller. */
  function Share(p: Payout, seller: AccountId, fee: nat, a: AccountId): nat
    requires a in p && (a == seller ==> p[a] >= fee)
  {
    if a == seller then p[a] - fee else p[a]
  }

  /** The payee transfers for the recipients in `ks`. */
  ghost function SharesOver(p: Payout, ks: set<AccountId>, seller: AccountId, fee: nat): multiset<Transfer>
    requires ks <= p.Keys && (seller in p ==> p[seller] >= fee)
    decreases ks
  {
    if ks == {} then multiset{}
    else
      var a :| a in ks;
      multiset{Transfer(a, Share(p, seller, fee, a))} + SharesOver(p, ks - {a}, seller, fee)
  }

  lemma {:induction false} SharesOverPick(p: Payout, ks: set<AccountId>, seller: AccountId, fee: nat, a: AccountId)
    requires ks <= p.Keys && (seller in p ==> p[seller] >= fee) && a in ks
    ensures SharesOver(p, ks, seller, fee)
         == multiset{Transfer(a, Share(p, seller, fee, a))} + SharesOver(p, ks - {a}, seller, fee)
    decreases ks
  {
    var b :| b in ks && SharesOver(p, ks, seller, fee)
      == multiset{Transfer(b, Share(p, seller, fee, b))} + SharesOver(p, ks - {b}, seller, fee);
    if b != a {
      SharesOverPick(p, ks - {b}, seller, fee, a);
      SharesOverPick(p, ks - {a}, seller, fee, b);
      assert ks - {b} - {a} == ks - {a} - {b};
    }
  }

  /** The fee transfer to the treasury, issued once the seller's entry has
      been paid and only when the fee is not zero. */
  ghost function FeeTransfer(paid: set<AccountId>, seller: AccountId, treasury: AccountId, fee: nat): multiset<Transfer>
  {
    if seller in paid && fee != 0 then multiset{Transfer(treasury, fee)} else multiset{}
  }

  /** Every transfer an accepted payout produces: each payee's share, plus
      the fee to the treasury when the seller is among the payees. */
  ghost function ExpectedTransfers(p: Payout, seller: AccountId, treasury: AccountId, fee: nat): multiset<Transfer>
    requires seller in p ==> p[seller] >= fee
  {
    SharesOver(p, p.Keys, seller, fee) + FeeTransfer(p.Keys, seller, treasury, fee)
  }

  // ---------------------------------------------------------------------
  // Validation
  // ---------------------------------------------------------------------

  /** The `checked_sub` walk over the payout: it fails exactly when the
      payout asks for more than the price, and otherwise leaves what the
      payout does not allocate. */
  method Remainder(price: nat, p: Payout) returns (r: Option<nat>)
    ensures r.Some? <==> PayoutSum(p) <= price
    ensures r.Some? ==> r.value + PayoutSum(p) == price
  {
    var remainder: nat := price;
    var todo := p.Keys;
    while todo != {}
      invariant todo <= p.Keys
      invariant remainder + SumOver(p, p.Keys - todo) == price
      decreases todo
    {
      var a :| a in todo;
      var done := p.Keys - todo;
      SumOverPick(p, done + {a}, a);
      assert done + {a} - {a} == done;
      if remainder < p[a] {
        SumOverMonotone(p, done + {a}, p.Keys);
        return None;
      }
      remainder := remainder - p[a];
      assert p.Keys - (todo - {a}) == done + {a};
      todo := todo - {a};
    }
    assert p.Keys - todo == p.Keys;
    return Some(remainder);
  }

  /** A payout the market accepts: the external call succeeded and decoded,
      it names between one and ten payees, and it allocates the whole price
      or all but one unit of it. */
  ghost predicate Accepts(price: nat, result: Option<Payout>)
  {
    && result.Some?
    && 1 <= |result.value| <= MAX_PAYEES
    && PayoutSum(result.value) <= price <= PayoutSum(result.value) + 1
  }

  // ---------------------------------------------------------------------
  // Distribution
  // ---------------------------------------------------------------------

  lemma {:induction false} TotalAppend(xs: seq<Transfer>, ys: seq<Transfer>)
    ensures Total(xs + ys) == Total(xs) + Total(ys)
    decreases |ys|
  {
    if ys == [] {
      assert xs + ys == xs;
    } else {
      TotalAppend(xs, ys[..|ys| - 1]);
      assert (xs + ys)[..|xs + ys| - 1] == xs + ys[..|ys| - 1];
    }
  }

  /** The transfers the distribution loop issues for one payout entry. */
  function EntryTransfers(p: Payout, seller: AccountId, treasury: AccountId, fee: nat, a: AccountId): (ts: seq<Transfer>)
    requires a in p && (a == seller ==> p[a] >= fee)
    ensures multiset(ts) == multiset{Transfer(a, Share(p, seller, fee, a))}
      + (if a == seller && fee != 0 then multiset{Transfer(treasury, fee)} else multiset{})
    ensures Total(ts) == p[a]
  {
    if a == seller then
      var toSeller := [Transfer(a, p[a] - fee)];
      var ts := if fee != 0 then toSeller + [Transfer(treasury, fee)] else toSeller;
      assert Total(toSeller) == Total(toSeller[..0]) + p[a] - fee;
      assert fee != 0 ==> ts[..1] == toSeller;
      ts
    else
      var ts := [Transfer(a, p[a])];
      assert Total(ts) == Total(ts[..0]) + p[a];
      ts
  }

  /** The transfers issued so far are those of the entries already walked. */
  ghost predicate PaidFor(ts: seq<Transfer>, p: Payout, done: set<AccountId>, seller: AccountId, treasury: AccountId, fee: nat)
    requires done <= p.Keys && (seller in p ==> p[seller] >= fee)
  {
    && multiset(ts) == SharesOver(p, done, seller, fee) + FeeTransfer(done, seller, treasury, fee)
    && Total(ts) == SumOver(p, done)
  }

  lemma FeeTransferStep(done: set<AccountId>, seller: AccountId, treasury: AccountId, fee: nat, a: AccountId)
    requires a !in done
    ensures FeeTransfer(done + {a}, seller, treasury, fee)
         == FeeTransfer(done, seller, treasury, fee)
          + (if a == seller && fee != 0 then multiset{Transfer(treasury, fee)} else multiset{})
  {
  }

  lemma DistributeStep(ts: seq<Transfer>, p: Payout, done: set<AccountId>, seller: AccountId, treasury: AccountId,
                       fee: nat, a: AccountId)
    requires done <= p.Keys && a in p && a !in done && (seller in p ==> p[seller] >= fee)
    requires PaidFor(ts, p, done, seller, treasury, fee)
    ensures PaidFor(ts + EntryTransfers(p, seller, treasury, fee, a), p, done + {a}, seller, treasury, fee)
  {
    var e := EntryTransfers(p, seller, treasury, fee, a);
    assert done + {a} - {a} == done;
    SumOverPick(p, done + {a}, a);
    TotalAppend(ts, e);
    assert Total(ts + e) == SumOver(p, done + {a});
    SharesOverPick(p, done + {a}, seller, fee, a);
    FeeTransferStep(done, seller, treasury, fee, a);
    assert multiset(ts + e) == multiset(ts) + multiset(e);
  }

  /** Pay every payee its share, and the fee to the treasury alongside the
      seller's share. The transfers add up to exactly the payout's total. */
  method Distribute(p: Payout, seller: AccountId, treasury: AccountId, fee: nat) returns (ts: seq<Transfer>)
    requires seller in p ==> p[seller] >= fee
    ensures multiset(ts) == ExpectedTransfers(p, seller, treasury, fee)
    ensures Total(ts) == PayoutSum(p)
  {
    ts := [];
    var todo := p.Keys;
    while todo != {}
      invariant todo <= p.Keys
      invariant PaidFor(ts, p, p.Keys - todo, seller, treasury, fee)
      decreases todo
    {
      var a :| a in todo;
      DistributeStep(ts, p, p.Keys - todo, seller, treasury, fee, a);
      ts := ts + EntryTransfers(p, seller, treasury, fee, a);
      assert p.Keys - (todo - {a}) == (p.Keys - todo) + {a};
      todo := todo - {a};
    }
    assert p.Keys - todo == p.Keys;
  }

  // ---------------------------------------------------------------------
  // resolve_purchase
  // ---------------------------------------------------------------------

  /** How phase two ends. `Settled` carries the transfers issued and the
      amount the call returns, and says whether the payout was accepted.
      `Reverted` is a panic: the call's transfers are all discarded. */
  datatype Resolution =
    | Settled(accepted: bool, transfers: seq<Transfer>, returned: nat)
    | Reverted(error: Error)

  /** The seller's payout entry is smaller than the fee, so `amount - fee`
      underflows and the call panics. */
  ghost predicate FeeExceedsSellerShare(price: nat, p: Payout, seller: AccountId)
  {
    seller in p && p[seller] < Fee(price)
  }

  /** `resolve_purchase`. `result` is the decoded payout of the transfer
      call, `None` when that call failed or its answer did not decode. */
  method ResolvePurchase(treasury: AccountId, buyer: AccountId, price: nat, sale: Sale, result: Option<Payout>)
    returns (s: Resolution)
    ensures !Accepts(price, result) ==> s == Settled(false, [Transfer(buyer, price)], price)
    ensures Accepts(price, result) && FeeExceedsSellerShare(price, result.value, sale.ownerId) ==>
      s == Reverted(FeeUnderflow)
    ensures Accepts(price, result) && !FeeExceedsSellerShare(price, result.value, sale.ownerId) ==>
      && s.Settled? && s.accepted && s.returned == price
      && multiset(s.transfers) == ExpectedTransfers(result.value, sale.ownerId, treasury, Fee(price))
      && Total(s.transfers) == PayoutSum(result.value)
    ensures s.Settled? ==> s.returned == price
  {
    var refund := Settled(false, [Transfer(buyer, price)], price);
    if result.None? || |result.value| > MAX_PAYEES || |result.value| == 0 {
      return refund;
    }
    var p := result.value;
    var remainder := Remainder(price, p);
    if remainder.None? || (remainder.value != 0 && remainder.value != 1) {
      return refund;
    }
    var fee := Fee(price);
    if sale.ownerId in p && p[sale.ownerId] < fee {
      return Reverted(FeeUnderflow);
    }
    var ts := Distribute(p, sale.ownerId, treasury, fee);
    return Settled(true, ts, price);
  }

  // ---------------------------------------------------------------------
  // Consequences
  // ---------------------------------------------------------------------

  /** A single-entry payout sums to its one amount. */
  lemma SingletonSum(a: AccountId, amount: nat)
    ensures PayoutSum(map[a := amount]) == amount
  {
    var p := map[a := amount];
    SumOverPick(p, p.Keys, a);
    assert p.Keys - {a} == {};
  }

  /** A sale at 1000 whose payout names only the seller: the seller gets
      950 and the treasury the 5% fee of 50. */
  lemma SellerOnlyPayout(seller: AccountId, treasury: AccountId)
    ensures Fee(1000) == 50
    ensures Accepts(1000, Some(map[seller := 1000]))
    ensures ExpectedTransfers(map[seller := 1000], seller, treasury, 50)
         == multiset{Transfer(seller, 950), Transfer(treasury, 50)}
  {
    var p := map[seller := 1000];
    SingletonSum(seller, 1000);
    SharesOverPick(p, p.Keys, seller, 50, seller);
    assert p.Keys - {seller} == {};
  }
}

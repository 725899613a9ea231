# NEAR NFT marketplace: listing and settlement, modelled in Dafny

This project models the core of a NEAR NFT marketplace contract. Sellers list
tokens for sale at a fixed price or by English auction. The NFT contract's
approval callback creates each listing. Buyers pay with an `offer` (fixed
price) or win with `add_bid` / `end_auction` (auction). A purchase settles in
two phases. Phase one removes the sale and asks the NFT contract to transfer
the token and report a payout. Phase two validates that payout. It then pays
the payees, taking a 5% marketplace fee from the seller's share, or it
refunds the buyer.

Each entry point is a pure function over an explicit state record `Market`.
The record holds the sale map, the owner and NFT-contract indices, and the
per-account contract-id sets. A call returns `Abort(error)` or
`Done(market, transfers, pending)`. `Abort` means a Rust panic, which reverts
every change the call made. `transfers` lists the native-token transfers the
call issues. `pending` is the settlement continuation a purchase leaves
behind. The runtime's values are explicit parameters (`Env`): predecessor,
signer, block timestamp and attached deposit. So are the contract's
constants (`Config`): owner, treasury and key delimiter.

Modules and files:

- `types.dfy` (`Types`): accounts, `Sale`, `Bid`, `SaleArgs`, `Market`, `Env`,
  `Config`, `Transfer`, `Pending`, one `Error` per distinct panic, and `Outcome`.
- `keys.dfy` (`Keys`): the composite sale key `contract ++ delimiter ++ token`,
  with when it is and is not injective.
- `index.dfy` (`Index`): the insert-or-create and remove-and-prune updates
  that every account-to-set index goes through.
- `registry.dfy` (`Registry`): `internal_remove_sale`,
  `internal_add_market_data`, and the index invariants.
- `sale_ops.dfy` (`SaleOps`): `remove_sale`, `update_price`, `add_bid`,
  `end_auction`, `offer`, `process_purchase`, escrow accounting, and
  at-most-once settlement.
- `settlement.dfy` (`Settlement`): `resolve_purchase`, with its remainder
  loop and its distribution loop over the payout map.
- `callbacks.dfy` (`Callbacks`): `nft_on_approve`.
- `contract_ids.dfy` (`ContractIds`): the per-account contract-id set map.

Behaviours the proofs make explicit:

- **Sale keys can collide.** The key is a plain string concatenation.
  `Keys.KeyInjective` shows that keys are unique if no contract id contains the
  delimiter's first character. `Keys.DelimiterInContractCollides` shows that
  any contract id containing the delimiter shares its key with another
  (contract, token) pair. For a multi-character delimiter, "contains no
  delimiter" is not enough on its own. Example: delimiter `aa`, contract `xa`.
- **Index consistency needs two side conditions.** The first is
  collision-free keys. The second is that a re-listing keeps the sale's
  owner. If a key is re-listed under a new owner, the key is added to the new
  owner's set but stays in the old owner's set. Removal only cleans the
  current owner's set (`Registry.RelistNewOwnerLeavesStaleEntry`). The weaker
  property, that every live sale is filed in both indices (`Registry.Covered`),
  holds with no side condition. `Registry.AddPreservesCovered` and
  `Registry.RemovePreservesCovered` prove it for the registry updates.
  `SaleOps.EntryPointsKeepCovered` proves it for the five sale entry points.
- **Re-approval can lose an escrowed bid.** A re-approval keeps the old
  auction state only when the new message says `is_auction`. Re-approving an
  auction that holds a bid as a fixed-price sale therefore discards the bid
  and issues no refund (`SaleOps.RelistAsFixedPriceDropsEscrow`).
- **The fee can underflow.** The seller's share is paid as `amount - fee`.
  When the seller's payout entry is below the fee, that subtraction panics,
  assuming the release build enables overflow checks. The build profile is
  not part of this model.
  The whole `resolve_purchase` call reverts. By then the token has already
  moved, and neither the payees nor the buyer are paid. This is
  `Settlement.Reverted(FeeUnderflow)`.
- **The auction timing checks are strict.** `add_bid` needs
  `start_time < now < end_time`, so a bid at exactly the start time is
  rejected. `end_auction` needs `end_time < now`, so it cannot run at exactly
  the end time. A looser reading, with an auction open from `start_time`
  inclusive and closable once `now >= end_time`, does not match the code.
  The model follows the code.
- **The contract owner's escape hatch has a gap.** A comment in
  `remove_sale` says the contract owner can remove an auction at any time.
  The code applies the end-time gate to whoever is the seller. So a contract
  owner who is also the seller cannot withdraw its own auction once it holds
  a bid and the end time has passed (`SaleOps.OwnerSellerBoundByEndTime`).
  Any other auction it can withdraw at any time
  (`SaleOps.AdminMayAlwaysWithdraw`).
- **`end_auction` accepts an auction with no end time.** It compares
  `Some(now) > end_time` with Rust's `Option` ordering, where `None` is below
  every `Some`. So an auction without an end time can always be ended.
  `add_bid` on the same sale panics instead, because it unwraps the missing
  time.

## Model

| member | source | states |
|---|---|---|
| Keys.Key | src/internal.rs:18 | the key is the contract id followed by the delimiter and the token id: its length is the sum of the three, the contract id is its prefix, the delimiter fills the middle, and the token id is its suffix |
| Index.Insert | src/internal.rs:151-186 | get-or-create then insert: afterwards the account is a key, its set is the old set plus the value (or just the value when it had none), every other entry is unchanged, and no empty set appears |
| Index.Remove | src/internal.rs:23-51 | remove then prune: the account keeps its entry iff its set minus the value is non-empty, that entry is the set minus the value, every other entry is unchanged, and no empty set appears |
| Keys.KeyInjective | src/internal.rs:18 | if neither contract id contains the delimiter's first character, equal keys mean equal (contract, token) pairs |
| Keys.DelimiterInContractCollides | src/internal.rs:69 | a contract id that contains the delimiter gives a key equal to the key of a different pair (its prefix, with the rest moved into the token) |
| Keys.SingleCharDelimiter | src/internal.rs:69 | for a one-character delimiter, the injectivity condition is exactly "the contract id does not contain the delimiter" |
| Registry.RemoveSale | src/internal.rs:11-55 | aborts iff the key is not listed or the owner or contract index entry is missing ("No sale" when the key is absent); on success returns the stored sale unchanged; the key leaves the sales map, the owner's set and the contract's set; an emptied set loses its map entry; all other entries are unchanged; no empty set is created |
| Registry.WindowError | src/internal.rs:81-100 | reports no error exactly when the window is valid: start not before now, end not before now, start before end when both are given, and both given for an auction |
| Registry.AddMarketData | src/internal.rs:57-187 | aborts iff the window is invalid; otherwise the key is listed with the given owner, approval, ids and auction flag; a re-listing that declares an auction keeps the old price, bids and times; any other listing stores the given price and times, with bids `Some([])` exactly for an auction and `None` otherwise; the key joins the owner's set and the token joins the contract's set; all else is unchanged |
| Registry.RemovePreservesCovered | src/internal.rs:20-51 | removal keeps every remaining sale filed in both indices, with no side condition |
| Registry.RemoveSucceedsIffListed | src/internal.rs:20-39 | when keys cannot collide and every sale is filed, removal aborts exactly when the key is not listed |
| Registry.IndexedContractIsSafe | src/internal.rs:36-51 | in a consistent index, a contract id that has an entry names a live sale, so it is collision-free whenever every listed contract is |
| Registry.RemovePreservesConsistent | src/internal.rs:20-51 | when listed keys cannot collide, removal preserves full consistency (index entry iff live sale, and no empty sets) for any contract id the caller names |
| Registry.AddPreservesCovered | src/internal.rs:118-186 | adding keeps every live sale filed in both indices, with no side condition |
| Registry.AddPreservesConsistent | src/internal.rs:118-186 | adding preserves full consistency when keys cannot collide and a re-listing keeps the same owner |
| Registry.RelistNewOwnerLeavesStaleEntry | src/internal.rs:151-165 | re-listing a key under a new owner leaves the key in the old owner's set, so consistency fails |
| Registry.AddThenRemoveRestores | src/internal.rs:118-186 | removing a freshly added listing restores the registry exactly and returns the listed sale |
| SaleOps.RemoveListing | src/sale.rs:27-61 | `remove_sale` succeeds iff one yocto is attached, the removal succeeds, and the caller is the sale owner or contract owner; a sale owner withdrawing an auction that holds a bid must also act before its end time; exactly one refund of the standing bid when the auction holds one, no transfers otherwise |
| SaleOps.AdminMayAlwaysWithdraw | src/sale.rs:35-59 | a contract owner who is not the seller may withdraw any removable listing regardless of bids or time |
| SaleOps.OwnerSellerBoundByEndTime | src/sale.rs:44-53 | a contract owner who is also the seller cannot withdraw its own auction once it holds a bid and the end time has passed: the call aborts |
| SaleOps.RemoveListingRefundsEscrow | src/sale.rs:45-59 | for a well-formed sale, the withdrawal transfers exactly the sale's escrow |
| SaleOps.UpdatePrice | src/sale.rs:65-96 | succeeds iff one yocto is attached, the sale exists, it is not an auction, and the caller owns it; only that sale's price changes |
| SaleOps.UpdatePriceLastWins | src/sale.rs:92-95 | repricing twice gives the same outcome as repricing once to the second amount |
| SaleOps.AddBid | src/sale.rs:99-160 | succeeds iff the deposit is positive, the sale is an auction, start < now < end strictly, the bidder is not the owner, and the deposit is at least the reserve plus the increment with no bids, or at least the last bid plus the increment and above the reserve otherwise; the previous bidder is refunded exactly its amount; afterwards the last bid is the new one and, from at most one bid, the bids are exactly `[Bid(caller, deposit)]`; nothing else changes |
| SaleOps.AddBidConservesEscrow | src/sale.rs:127-159 | escrow held before plus the deposit equals escrow held after plus the refunds |
| SaleOps.ProcessPurchase | src/sale.rs:232-269 | aborts iff the removal aborts; otherwise the sale is unlisted before any transfer, and a pending settlement records the buyer, the price and the removed sale |
| SaleOps.OptionLessIsStrictOrder | src/sale.rs:172 | the `Option` comparison used by `end_auction` is a strict total order with `None` least and `Some` values compared by content, so `Some(now) > end_time` holds for every `now` when the end time is missing |
| SaleOps.EndAuction | src/sale.rs:163-193 | succeeds iff the sale exists, is an auction, has no end time or an end time before now, and its removal succeeds; with a bid it leaves a pending settlement for the last bidder at the bid amount; without a bid it only unlists the sale; never transfers |
| SaleOps.EndAuctionSettlesEscrow | src/sale.rs:178-192 | for a well-formed auction, the settlement price (zero when there is none) equals the sale's escrow |
| SaleOps.Offer | src/sale.rs:196-227 | succeeds iff the deposit is positive, the sale exists, the buyer is not the owner, it is not an auction, the deposit covers the price, and the removal succeeds; it settles at the deposit, not at the price |
| SaleOps.PurchaseStartsAtMostOnce | src/sale.rs:196-269 | once an `offer` or an `end_auction` on a key has succeeded, every later offer, `end_auction`, bid, repricing (to any amount) and withdrawal on that key aborts, whatever the caller and deposit; with a valid deposit the errors are "No sale" for offer, repricing and withdrawal, and "Doesn't exist" for `end_auction` and bids |
| SaleOps.PurchaseUnlistsKey | src/sale.rs:221-226 | an `offer` or `end_auction` that succeeds leaves the key unlisted, and an offer always leaves a pending settlement |
| SaleOps.AddKeepsBidsWellFormed | src/internal.rs:71-148 | listing keeps "only auctions hold bids, at most one" true of every sale |
| SaleOps.EntryPointsKeepBidsWellFormed | src/sale.rs:27-227 | every sale.rs entry point keeps "only auctions hold bids, at most one" true |
| SaleOps.EntryPointsKeepCovered | src/sale.rs:27-227 | each of `remove_sale`, `update_price`, `add_bid`, `end_auction` and `offer` keeps every live sale filed in both indices, with no side condition |
| SaleOps.EntryPointsKeepConsistent | src/sale.rs:27-227 | every sale.rs entry point preserves full index consistency when listed keys cannot collide, for any contract id the caller names |
| SaleOps.RelistAsFixedPriceDropsEscrow | src/internal.rs:109-148 | re-approving, as a fixed-price sale, an auction that holds a bid leaves the sale with no bids and no escrow, and refunds nothing |
| Settlement.Fee | src/sale.rs:330-331 | the fee is 5% of the price rounded down: `20*fee <= price < 20*(fee+1)` |
| Settlement.Remainder | src/sale.rs:299-305 | the `checked_sub` walk yields `None` iff the payout sum exceeds the price, and otherwise yields price minus sum, whatever order the walk takes |
| Settlement.EntryTransfers | src/sale.rs:335-344 | one payout entry yields its share (the seller's less the fee), plus the fee to the treasury for the seller's entry when the fee is nonzero; these transfers total the entry's amount |
| Settlement.Distribute | src/sale.rs:333-345 | the transfers are, as a multiset, every payee's share plus the fee to the treasury when the seller is paid and the fee is nonzero; they total the payout sum |
| Settlement.ResolvePurchase | src/sale.rs:277-349 | the payout is accepted iff present, with 1 to 10 entries, a sum at most the price, and a remainder of 0 or 1; when not accepted, the only effect is a refund of the full price to the buyer; when accepted it panics iff the seller's entry is below the fee, otherwise it distributes as above; it returns the price on both non-panicking paths |
| Settlement.SellerOnlyPayout | src/sale.rs:330-345 | at price 1000 with payout {seller: 1000}, the fee is 50, the payout is accepted, and the transfers are seller 950 and treasury 50 |
| Callbacks.NftOnApprove | src/nft_callbacks.rs:37-95 | succeeds iff no deposit is attached (the method is not payable), the predecessor is not the signer, the owner is the signer, the paid storage (0 when missing) covers one more listing, the message decodes, and the window is valid; the resulting state is exactly the registry add with the predecessor as NFT contract and the decoded arguments unchanged |
| Callbacks.ApprovalListsUnderCaller | src/nft_callbacks.rs:84-93 | an accepted approval lists the token under the calling contract, owned by the signer, in both indices |
| Callbacks.NoDepositNoListing | src/nft_callbacks.rs:64-75 | with no storage deposit and a nonzero per-listing cost, the approval aborts |
| ContractIds.AddContractForAccount | src/contract_ids_for_account.rs:8-26 | succeeds iff one yocto is attached; the id joins the caller's set, created if missing; other accounts and the rest of the state are unchanged; no empty set is created |
| ContractIds.RemoveContractForAccount | src/contract_ids_for_account.rs:29-43 | aborts when the caller has no entry; otherwise the id leaves the caller's set, an emptied set loses its entry, other accounts are unchanged, and no empty set is created |
| ContractIds.RemoveAbsentIsNoOp | src/contract_ids_for_account.rs:35-42 | removing an id the caller does not hold, from a non-empty set, leaves the state unchanged |
| ContractIds.AddIdempotent | src/contract_ids_for_account.rs:23 | adding the same id twice gives the same outcome as adding it once |
| ContractIds.AddThenRemoveRestores | src/contract_ids_for_account.rs:8-43 | removing a newly added id restores the previous state |
| ContractIds.GetContractIdsForAccount | src/contract_ids_for_account.rs:45-57 | returns an empty list for an account with no entry; otherwise lists exactly the set's members, each once |

## Left out

- The `#[private]` guards on `process_purchase` and `resolve_purchase`. Only
  the contract itself may call these. The model treats both as internal
  steps of `offer`/`end_auction` and of phase two. The deposit attached to the
  `#[payable]` `end_auction` stays with the contract and is never checked, so
  `SaleOps.EndAuction` ignores `env.deposit`.
- JSON decoding of the listing message and of the payout. The model takes an
  already decoded `Option<SaleArgs>` and `Option<Payout>`; `None` means the
  message did not decode (the approval aborts) or the transfer call failed or
  its answer did not decode (the buyer is refunded).
- Promises, gas, `NO_DEPOSIT`, and the one-yocto deposit attached to the
  cross-contract transfer call. The call to the NFT contract is the `Pending`
  record. Each transfer is a `Transfer` effect, not verified for delivery.
- Storage accounting (`storage_minimum_balance`, `storage_deposits`,
  `get_supply_by_owner_id`, `STORAGE_PER_SALE`) is not part of this model. Its
  answers for the signer are the `StorageView` parameter.
- The value of `DELIMETER` is not part of this model. It is the `delimiter`
  field of `Config`.
- Storage-key prefixes and `hash_account_id`, which only decide where the
  collections are persisted.
- Logging.
- Iteration order of the `UnorderedSet`s and of the payout `HashMap`. The
  methods walk them in an arbitrary order. Transfers are compared as
  multisets, and a listing of ids is compared as a set.
- The 128-bit and 64-bit width of amounts and times. The model uses unbounded
  naturals. It does not model overflow of `price + MIN_BID_INCREMENT`,
  `bid + MIN_BID_INCREMENT`, `price * 500`, or `(supply + 1) * storage_amount`.
  Only the underflow of `amount - fee` is modelled, because it can happen with
  realistic amounts. It appears as `Settlement.Reverted(FeeUnderflow)`, a
  panic, on the assumption that overflow checks are enabled. Without them
  the value wraps. The seller's transfer is then attempted for a huge amount,
  and the treasury and the other payees are still paid. The model does not
  cover that case.
- Interleaving of phase-two continuations across different purchases is
  not modelled. It cannot affect the outcome: `resolve_purchase`
  (src/sale.rs:277-349) writes no contract state, only issues transfers,
  and so `Settlement.ResolvePurchase` takes no `Market`.

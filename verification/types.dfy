/** Shared vocabulary of the marketplace model: accounts, sales, bids, the
    contract's persistent state, the values the runtime supplies to one call,
    and the shapes of a call's outcome.

    A Rust panic reverts every change a call made, so every entry point is a
    pure function that either aborts (no state change, no transfers) or
    returns the new state together with the value transfers it issues. */
module Types {

  type AccountId = string
  type TokenId = string

  datatype Option<T> = None | Some(value: T) {
    /** Rust's `unwrap_or` */
    function GetOr(default: T): T {
      match this
      case Some(v) => v
      case None => default
    }
  }

  /** A retained bid: who escrowed how much. */
  datatype Bid = Bid(bidder: AccountId, amount: nat)

  /** One listing, field for field as the contract stores it. Timestamps are
      nanoseconds; amounts are yoctoNEAR. */
  datatype Sale = Sale(
    ownerId: AccountId,
    approvalId: nat,
    nftContractId: AccountId,
    tokenId: TokenId,
    price: nat,
    bids: Option<seq<Bid>>,
    isAuction: bool,
    startTime: Option<nat>,
    endTime: Option<nat>)

  /** The decoded listing message that accompanies an approval. */
  datatype SaleArgs = SaleArgs(
    price: nat,
    isAuction: bool,
    startTime: Option<nat>,
    endTime: Option<nat>)

  /** The contract's persistent state that this model touches: the sale
      registry with its two secondary indices, and the per-account set of
      NFT contract ids. */
  datatype Market = Market(
    sales: map<string, Sale>,
    byOwner: map<AccountId, set<string>>,
    byContract: map<AccountId, set<TokenId>>,
    contractIdsByAccount: map<AccountId, set<AccountId>>)

  /** What the runtime supplies to one call. */
  datatype Env = Env(predecessor: AccountId, signer: AccountId, now: nat, deposit: nat)

  /** Contract-level constants: the privileged owner, the fee treasury and
      the string that joins an NFT contract id and a token id into a sale key. */
  datatype Config = Config(ownerId: AccountId, treasuryId: AccountId, delimiter: string)

  /** A native-token transfer issued by a call. */
  datatype Transfer = Transfer(recipient: AccountId, amount: nat)

  /** The continuation a purchase leaves behind: the buyer, the amount paid,
      and the sale record already removed from the registry. */
  datatype Pending = Pending(buyer: AccountId, price: nat, sale: Sale)

  /** One constructor per distinct panic in the contract. */
  datatype Error =
    | NoSale                 // "No sale"
    | NoSaleByOwner          // "No sale by_owner_id"
    | NoSaleByContract       // "No sale by nft_contract_id"
    | DoesNotExist           // "Doesn't exist"
    | StartBeforeNow
    | StartNotBeforeEnd
    | EndBeforeNow
    | NoStartTime
    | NoEndTime
    | NotOneYocto
    | NotPayable             // a deposit attached to a method without #[payable]
    | NotOwnerOrAdmin
    | AuctionEndPassed
    | UnwrapNone             // `unwrap()` on a missing timestamp
    | AuctionNotUpdatable
    | NotSaleOwner
    | ZeroDeposit
    | NotAuction
    | BidBeforeStart
    | BidAfterEnd
    | SelfDealing            // "Cannot bid on your own sale."
    | BidBelowIncrement
    | BidNotAboveReserve
    | BidBelowReserve
    | EndTooEarly
    | UseAddBid
    | DepositBelowPrice
    | NotCrossContract
    | OwnerNotSigner
    | InsufficientStorage
    | InvalidArgs
    | NoContractIds
    | FeeUnderflow           // `amount - fee` below zero

  datatype Result<T> = Ok(value: T) | Fail(error: Error)

  /** The outcome of an entry point. */
  datatype Outcome =
    | Abort(error: Error)
    | Done(market: Market, transfers: seq<Transfer>, pending: Option<Pending>)

  /** Sum of the amounts of a list of transfers. */
  function Total(ts: seq<Transfer>): nat
  {
    if |ts| == 0 then 0 else Total(ts[..|ts| - 1]) + ts[|ts| - 1].amount
  }

  /** Every set held in an index map is non-empty. */
  ghost predicate NoEmptySets<K, V>(idx: map<K, set<V>>)
  {
    forall a :: a in idx ==> idx[a] != {}
  }
}

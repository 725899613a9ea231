/** Listing intake (src/nft_callbacks.rs): the NFT contract's approval
    callback, which checks who is calling and whether the seller has paid
    storage for one more listing, then hands the decoded listing message to
    the registry. */
module Callbacks {
  import opened Types
  import opened Keys
  import opened Registry

  /** What the storage-deposit bookkeeping (outside this model) reports for
      the signer: the deposit one listing needs, what the signer has paid
      (`None` when nothing was ever deposited), and how many listings the
      signer already has. */
  datatype StorageView = StorageView(perSale: nat, paid: Option<nat>, listings: nat)

  /** The guards of `nft_on_approve` that precede decoding the message. */
  ghost predicate IntakeAllowed(env: Env, ownerId: AccountId, storage: StorageView)
  {
    && env.deposit == 0
    && env.predecessor != env.signer
    && ownerId == env.signer
    && storage.paid.GetOr(0) >= (storage.listings + 1) * storage.perSale
  }

  /** `nft_on_approve`. The caller (predecessor) is the NFT contract; `args`
      is the decoded message, `None` when it does not decode. The method is
      not payable, so the generated entry wrapper rejects any attached
      deposit before the body runs. */
  function NftOnApprove(m: Market, env: Env, delimiter: string, token: TokenId, ownerId: AccountId,
                        approvalId: nat, args: Option<SaleArgs>, storage: StorageView): (r: Outcome)
    ensures r.Done? <==> IntakeAllowed(env, ownerId, storage) && args.Some? && ValidWindow(env.now, args.value)
    ensures env.deposit != 0 ==> r == Abort(NotPayable)
    ensures env.deposit == 0 && env.predecessor == env.signer ==> r == Abort(NotCrossContract)
    ensures env.deposit == 0 && env.predecessor != env.signer && ownerId != env.signer ==> r == Abort(OwnerNotSigner)
    ensures r.Done? ==>
      && r.market == AddMarketData(m, env.now, delimiter, ownerId, approvalId, env.predecessor, token, args.value).value
      && r.transfers == [] && r.pending.None?
  {
    if env.deposit != 0 then Abort(NotPayable)
    else if env.predecessor == env.signer then Abort(NotCrossContract)
    else if ownerId != env.signer then Abort(OwnerNotSigner)
    else if storage.paid.GetOr(0) < (storage.listings + 1) * storage.perSale then Abort(InsufficientStorage)
    else if args.None? then Abort(InvalidArgs)
    else
      match AddMarketData(m, env.now, delimiter, ownerId, approvalId, env.predecessor, token, args.value)
      case Fail(e) => Abort(e)
      case Ok(m') => Done(m', [], None)
  }

  /** An accepted approval lists the token under the calling NFT contract,
      owned by the signer, with the message's auction flag. */
  lemma ApprovalListsUnderCaller(m: Market, env: Env, delimiter: string, token: TokenId, ownerId: AccountId,
                                 approvalId: nat, args: Option<SaleArgs>, storage: StorageView)
    requires NftOnApprove(m, env, delimiter, token, ownerId, approvalId, args, storage).Done?
    ensures var r := NftOnApprove(m, env, delimiter, token, ownerId, approvalId, args, storage);
      var k := Key(delimiter, env.predecessor, token);
      && k in r.market.sales
      && r.market.sales[k].ownerId == env.signer
      && r.market.sales[k].nftContractId == env.predecessor
      && r.market.sales[k].tokenId == token
      && r.market.sales[k].isAuction == args.value.isAuction
      && k in r.market.byOwner[env.signer]
      && token in r.market.byContract[env.predecessor]
  {
  }

  /** A signer who never deposited storage cannot list while a listing
      costs anything. */
  lemma NoDepositNoListing(m: Market, env: Env, delimiter: string, token: TokenId, ownerId: AccountId,
                           approvalId: nat, args: Option<SaleArgs>, storage: StorageView)
    requires storage.paid.None? && storage.perSale > 0
    ensures NftOnApprove(m, env, delimiter, token, ownerId, approvalId, args, storage).Abort?
  {
  }
}

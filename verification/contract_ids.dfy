/** The per-account list of NFT contract ids (src/contract_ids_for_account.rs):
    a map from account to a set of contract ids, with an insert, a remove
    that drops an emptied entry, and a read that lists the set. */
module ContractIds {
  import opened Types
  import Index

  /** `add_contract_for_account`: the caller adds an NFT contract id to its set. */
  function AddContractForAccount(m: Market, env: Env, id: AccountId): (r: Outcome)
    ensures r.Done? <==> env.deposit == 1
    ensures r.Done? ==>
      var ids := r.market.contractIdsByAccount;
      var before := m.contractIdsByAccount;
      && env.predecessor in ids
      && id in ids[env.predecessor]
      && ids[env.predecessor] == (if env.predecessor in before then before[env.predecessor] else {}) + {id}
      && ids.Keys == before.Keys + {env.predecessor}
      && (forall a :: a in before && a != env.predecessor ==> ids[a] == before[a])
      && r.market.(contractIdsByAccount := before) == m
      && r.transfers == [] && r.pending.None?
    ensures r.Done? && NoEmptySets(m.contractIdsByAccount) ==> NoEmptySets(r.market.contractIdsByAccount)
  {
    if env.deposit != 1 then Abort(NotOneYocto)
    else Done(m.(contractIdsByAccount := Index.Insert(m.contractIdsByAccount, env.predecessor, id)), [], None)
  }

  /** `remove_contract_for_account`: the caller removes an id from its set;
      the caller must have a set. */
  function RemoveContractForAccount(m: Market, env: Env, id: AccountId): (r: Outcome)
    ensures r.Done? <==> env.deposit == 1 && env.predecessor in m.contractIdsByAccount
    ensures env.deposit == 1 && env.predecessor !in m.contractIdsByAccount ==> r == Abort(NoContractIds)
    ensures r.Done? ==>
      var ids := r.market.contractIdsByAccount;
      var before := m.contractIdsByAccount;
      && (env.predecessor in ids ==> id !in ids[env.predecessor])
      && (env.predecessor in ids <==> before[env.predecessor] - {id} != {})
      && (env.predecessor in ids ==> ids[env.predecessor] == before[env.predecessor] - {id})
      && ids.Keys - {env.predecessor} == before.Keys - {env.predecessor}
      && (forall a :: a in before && a != env.predecessor ==> a in ids && ids[a] == before[a])
      && r.market.(contractIdsByAccount := before) == m
      && r.transfers == [] && r.pending.None?
    ensures r.Done? && NoEmptySets(m.contractIdsByAccount) ==> NoEmptySets(r.market.contractIdsByAccount)
  {
    if env.deposit != 1 then Abort(NotOneYocto)
    else if env.predecessor !in m.contractIdsByAccount then Abort(NoContractIds)
    else Done(m.(contractIdsByAccount := Index.Remove(m.contractIdsByAccount, env.predecessor, id)), [], None)
  }

  /** Removing an id the caller does not hold changes nothing, as long as
      the caller's set is non-empty. */
  lemma RemoveAbsentIsNoOp(m: Market, env: Env, id: AccountId)
    requires env.deposit == 1 && env.predecessor in m.contractIdsByAccount
    requires id !in m.contractIdsByAccount[env.predecessor]
    requires m.contractIdsByAccount[env.predecessor] != {}
    ensures RemoveContractForAccount(m, env, id) == Done(m, [], None)
  {
    var before := m.contractIdsByAccount;
    assert before[env.predecessor] - {id} == before[env.predecessor];
    assert before[env.predecessor := before[env.predecessor]] == before;
  }

  /** Adding the same id twice is adding it once. */
  lemma AddIdempotent(m: Market, env: Env, id: AccountId)
    requires env.deposit == 1
    ensures var once := AddContractForAccount(m, env, id).market;
      AddContractForAccount(once, env, id) == AddContractForAccount(m, env, id)
  {
    var once := AddContractForAccount(m, env, id).market;
    var ids := once.contractIdsByAccount;
    assert ids[env.predecessor] + {id} == ids[env.predecessor];
    assert ids[env.predecessor := ids[env.predecessor] + {id}] == ids;
  }

  /** Removing an id just added, that the caller did not hold before,
      restores the previous state. */
  lemma AddThenRemoveRestores(m: Market, env: Env, id: AccountId)
    requires env.deposit == 1
    requires NoEmptySets(m.contractIdsByAccount)
    requires env.predecessor in m.contractIdsByAccount ==> id !in m.contractIdsByAccount[env.predecessor]
    ensures var added := AddContractForAccount(m, env, id).market;
      RemoveContractForAccount(added, env, id) == Done(m, [], None)
  {
    Index.InsertThenRemove(m.contractIdsByAccount, env.predecessor, id);
  }

  predicate Distinct(ids: seq<AccountId>)
  {
    forall i, j :: 0 <= i < j < |ids| ==> ids[i] != ids[j]
  }

  /** `get_contract_ids_for_account`: the account's ids, each once, in the
      set's own order; empty when the account has no entry. */
  method GetContractIdsForAccount(m: Market, account: AccountId) returns (ids: seq<AccountId>)
    ensures account !in m.contractIdsByAccount ==> ids == []
    ensures account in m.contractIdsByAccount ==>
      && (forall x :: x in ids <==> x in m.contractIdsByAccount[account])
      && Distinct(ids)
      && |ids| == |m.contractIdsByAccount[account]|
  {
    if account !in m.contractIdsByAccount {
      return [];
    }
    var all := m.contractIdsByAccount[account];
    var todo := all;
    ids := [];
    while todo != {}
      invariant todo <= all
      invariant forall x :: x in ids <==> x in all && x !in todo
      invariant Distinct(ids)
      invariant |ids| + |todo| == |all|
      decreases todo
    {
      var x :| x in todo;
      ids := ids + [x];
      todo := todo - {x};
    }
  }
}

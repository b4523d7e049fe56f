/** Which remote policy a resource stands for, in which account it works, and when its finalizer may go. */
module AlertPolicyIdentity {
  import opened Options
  import opened NrqlConditions
  import opened AlertStore
  import opened AlertPolicies

  // ----- What each stage may call and change -----

  predicate ConditionCall(c: Call, account: int) {
    c.account == account && (c.ConditionSearch? || c.ConditionCreate? || c.ConditionUpdate? || c.ConditionDelete?)
  }

  /** Only calls on conditions of this account were made, and no policy changed. */
  ghost predicate ConditionWork(s: Store, t: Store, account: int) {
    t.policies == s.policies && t.next >= s.next && s.calls <= t.calls &&
    forall i :: |s.calls| <= i < |t.calls| ==> ConditionCall(t.calls[i], account)
  }

  lemma ConditionWorkComposes(s: Store, t: Store, u: Store, account: int)
    requires ConditionWork(s, t, account) && ConditionWork(t, u, account)
    ensures ConditionWork(s, u, account)
  {
    hide ConditionCall;
    forall i | |s.calls| <= i < |u.calls|
      ensures ConditionCall(u.calls[i], account)
    {
      if i < |t.calls| {
        assert u.calls[i] == t.calls[i];
      }
    }
  }

  lemma OneCallIsWork(s: Store, t: Store, c: Call, account: int)
    requires t.calls == s.calls + [c] && t.policies == s.policies && t.next >= s.next && ConditionCall(c, account)
    ensures ConditionWork(s, t, account)
  {
  }

  lemma ProcessOneWorks(job: Job, w: Work, i: nat)
    requires i < |w.conditions| && |w.processed| == |job.observed|
    ensures ConditionWork(w.store, ProcessOne(job, w, i).store, job.account)
  {
    hide Denote, Project, FirstListed, ConditionWork;
    var c := w.conditions[i];
    var s := Log(w.store, ConditionSearch(job.account, job.policyId));
    OneCallIsWork(w.store, s, ConditionSearch(job.account, job.policyId), job.account);
    var r := ProcessOne(job, w, i).store;
    if r != s {
      var existing := FirstListed(s, job.account, job.policyId, c.spec.name);
      OneCallIsWork(s, r, if existing.None? then ConditionCreate(job.account, job.policyId)
                          else ConditionUpdate(job.account, existing.value), job.account);
      ConditionWorkComposes(w.store, s, r, job.account);
    }
  }

  lemma {:induction false} ProcessUpToWorks(job: Job, w: Work, i: nat)
    requires i <= |w.conditions| && |w.processed| == |job.observed|
    ensures ConditionWork(w.store, ProcessUpTo(job, w, i).store, job.account)
  {
    hide ProcessOne;
    if i > 0 {
      ProcessUpToWorks(job, w, i - 1);
      var v := ProcessUpTo(job, w, i - 1);
      ProcessOneWorks(job, v, i - 1);
      ConditionWorkComposes(w.store, v.store, ProcessUpTo(job, w, i).store, job.account);
    }
  }

  lemma {:induction false} DeleteUpToWorks(job: Job, listing: Store, w: Work, j: nat)
    requires j <= |job.observed| == |w.processed|
    ensures ConditionWork(w.store, DeleteUpTo(job, listing, w, j).store, job.account)
  {
    hide DeleteTarget;
    if j > 0 {
      DeleteUpToWorks(job, listing, w, j - 1);
      var v := DeleteUpTo(job, listing, w, j - 1);
      var r := DeleteOne(job, listing, v, j - 1);
      if r.store != v.store {
        OneCallIsWork(v.store, r.store, ConditionDelete(job.account, DeleteTarget(job, listing, j - 1)), job.account);
        ConditionWorkComposes(w.store, v.store, r.store, job.account);
      }
    }
  }

  lemma HandleWorks(p: Policy, s: Store, f: ConditionFaults)
    ensures ConditionWork(s, HandleConditions(p, s, f).store, p.spec.accountId)
  {
    hide ProcessUpTo, DeleteUpTo, ConditionWork;
    var job := JobOf(p, f);
    ProcessUpToWorks(job, WorkOf(p, s), |p.spec.conditions|);
    var w := ProcessUpTo(job, WorkOf(p, s), |p.spec.conditions|);
    var v := w.(store := Log(w.store, ConditionSearch(job.account, job.policyId)));
    OneCallIsWork(w.store, v.store, ConditionSearch(job.account, job.policyId), job.account);
    ConditionWorkComposes(s, w.store, v.store, job.account);
    DeleteUpToWorks(job, v.store, v, |job.observed|);
    ConditionWorkComposes(s, v.store, DeleteUpTo(job, v.store, v, |job.observed|).store, job.account);
  }

  lemma IfNeededWorks(p: Policy, s: Store, compareFails: bool, f: ConditionFaults)
    ensures var r := ReconcileConditionsIfNeeded(p, s, compareFails, f);
            ConditionWork(s, r.store, p.spec.accountId) && r.policy.status.policyId == p.status.policyId &&
            r.policy.spec.accountId == p.spec.accountId
  {
    hide AllRemoteConditionsMatch, ShouldReconcileConditions, HaveConditionsChanged, ProcessUpTo, DeletePhase;
    var t := Log(s, ConditionSearch(p.spec.accountId, p.status.policyId));
    HandleWorks(p, s, f);
    HandleWorks(p, t, f);
    ConditionWorkComposes(s, t, HandleConditions(p, t, f).store, p.spec.accountId);
  }

  lemma {:induction false} CreateConditionsWork(w: Work, account: int, policy: nat, i: nat, f: ConditionFaults)
    requires i <= |w.conditions|
    ensures ConditionWork(w.store, CreatePolicyConditions(w, account, policy, i, f).store, account)
  {
    hide Denote;
    if i > 0 {
      CreateConditionsWork(w, account, policy, i - 1, f);
      var v := CreatePolicyConditions(w, account, policy, i - 1, f);
      var r := CreatePolicyCondition(v, account, policy, i - 1, f);
      OneCallIsWork(v.store, r.store, ConditionCreate(account, policy), account);
      ConditionWorkComposes(w.store, v.store, r.store, account);
    }
  }

  // ----- Stages that may change the policy itself -----

  predicate PolicyCall(c: Call, account: int) {
    c.account == account && !c.PolicyQuery? && !c.PolicySearch? && !c.PolicyDelete?
  }

  /** No policy was looked up or deleted, every call was in this account, and only this policy may be new or changed. */
  ghost predicate PolicyWork(s: Store, t: Store, account: int, id: nat) {
    t.next >= s.next && s.calls <= t.calls &&
    (forall i :: |s.calls| <= i < |t.calls| ==> PolicyCall(t.calls[i], account)) &&
    s.policies.Keys <= t.policies.Keys &&
    forall q :: q in t.policies && q != id ==> q in s.policies && t.policies[q] == s.policies[q]
  }

  lemma ThenConditions(s: Store, t: Store, u: Store, account: int, id: nat)
    requires PolicyWork(s, t, account, id) && ConditionWork(t, u, account)
    ensures PolicyWork(s, u, account, id)
  {
    forall i | |s.calls| <= i < |u.calls|
      ensures PolicyCall(u.calls[i], account)
    {
      if i < |t.calls| {
        assert u.calls[i] == t.calls[i];
      } else {
        assert ConditionCall(u.calls[i], account);
      }
    }
  }

  /** A failed create leaves the record alone; otherwise the recorded ID is the fresh one. */
  lemma CreateWorks(p: Policy, s: Store, f: Faults)
    ensures var r := CreatePolicy(p, s, f);
            PolicyWork(s, r.store, p.spec.accountId, r.policy.status.policyId) &&
            r.policy.spec.accountId == p.spec.accountId &&
            if f.createFails then r.policy == p
            else r.policy.status.policyId == s.next && s.next in r.store.policies
  {
    hide CreatePolicyConditions;
    var (t, id) := CreatePolicyCall(s, p.spec.accountId, p.spec.name, PreferenceSent(p.spec.preference), f.createFails);
    if id.Some? {
      CreateConditionsWork(Work(t, p.spec.conditions, [], []), p.spec.accountId, s.next, |p.spec.conditions|,
                           f.conditions);
      ThenConditions(s, t, CreatePolicy(p, s, f).store, p.spec.accountId, s.next);
    }
  }

  lemma UpdateWorks(p: Policy, s: Store, f: Faults)
    ensures var r := UpdatePolicy(p, s, f);
            PolicyWork(s, r.store, p.spec.accountId, p.status.policyId) &&
            r.policy.status.policyId == p.status.policyId && r.policy.spec.accountId == p.spec.accountId
  {
    hide ReconcileConditionsIfNeeded, ConditionWork;
    var preference := PreferenceSent(p.spec.preference);
    var (t, ok) := UpdatePolicyCall(s, p.spec.accountId, p.status.policyId, p.spec.name, preference, f.updateFails);
    assert PolicyWork(s, t, p.spec.accountId, p.status.policyId);
    if ok {
      var q := p.(status := p.status.(applied := Some(BuildApplied(p, p.spec.name, preference))));
      IfNeededWorks(q, t, f.compareFails, f.conditions);
      ThenConditions(s, t, UpdatePolicy(p, s, f).store, p.spec.accountId, p.status.policyId);
    }
  }

  ghost predicate ExistingStage(p: Policy, s: Store, id: nat, remote: RemotePolicy, f: Faults) {
    var r := SyncExisting(p, s, id, remote, f);
    PolicyWork(s, r.store, p.spec.accountId, r.policy.status.policyId) &&
    r.policy.spec.accountId == p.spec.accountId &&
    (r.blocked ==> r.store == s && !r.failed && r.policy == p.(status := p.status.(ready := AccountMismatch))) &&
    (!r.blocked ==> r.policy.status.policyId == id)
  }

  lemma ExistingWorks(p: Policy, s: Store, id: nat, remote: RemotePolicy, f: Faults)
    ensures ExistingStage(p, s, id, remote, f)
  {
    hide ReconcileConditionsIfNeeded, UpdatePolicy, ConditionWork;
    var q := p.(status := p.status.(policyId := id, applied := Some(BuildApplied(p, remote.name, remote.preference))));
    UpdateWorks(q, s, f);
    IfNeededWorks(q, s, f.compareFails, f.conditions);
    ThenConditions(s, s, ReconcileConditionsIfNeeded(q, s, f.compareFails, f.conditions).store, p.spec.accountId, id);
  }

  // ----- Account confinement -----

  predicate IsNew(s: Store, t: Store, i: nat) { |s.calls| <= i < |t.calls| }

  lemma ExistingIfThere(p: Policy, s: Store, id: nat, f: Faults)
    ensures id in s.policies ==> ExistingStage(p, s, id, s.policies[id], f)
  {
    if id in s.policies {
      ExistingWorks(p, s, id, s.policies[id], f);
    }
  }

  /** What a sync may do: every call is in the account of the spec, none deletes a policy, policies are searched
      only when no ID is recorded, and no policy but the one recorded afterwards is created or changed. */
  ghost predicate Confined(p: Policy, s: Store, r: SyncResult) {
    s.calls <= r.store.calls && r.policy.spec.accountId == p.spec.accountId &&
    (forall i: nat :: IsNew(s, r.store, i) ==>
       r.store.calls[i].account == p.spec.accountId && !r.store.calls[i].PolicyDelete? &&
       (r.store.calls[i].PolicySearch? ==> p.status.policyId == 0)) &&
    s.policies.Keys <= r.store.policies.Keys &&
    forall q :: q in r.store.policies && q != r.policy.status.policyId ==>
                  q in s.policies && r.store.policies[q] == s.policies[q]
  }

  lemma LookupThenWork(p: Policy, s: Store, c: Call, r: SyncResult)
    requires c.account == p.spec.accountId && (c.PolicyQuery? || (c.PolicySearch? && p.status.policyId == 0))
    requires PolicyWork(Log(s, c), r.store, p.spec.accountId, r.policy.status.policyId)
    requires r.policy.spec.accountId == p.spec.accountId
    ensures Confined(p, s, r)
  {
    var t := Log(s, c);
    forall i: nat | IsNew(s, r.store, i)
      ensures r.store.calls[i].account == p.spec.accountId && !r.store.calls[i].PolicyDelete?
      ensures r.store.calls[i].PolicySearch? ==> p.status.policyId == 0
    {
      if i == |s.calls| {
        assert r.store.calls[i] == t.calls[i];
      } else {
        assert PolicyCall(r.store.calls[i], p.spec.accountId);
      }
    }
  }

  /** Every remote call of a sync targets the account of the spec, and no other policy is touched. */
  lemma SyncIsConfined(p: Policy, s: Store, f: Faults)
    ensures Confined(p, s, Sync(p, s, f))
  {
    hide SyncExisting, CreatePolicy, PolicyWork, Confined;
    var search, query := PolicySearch(p.spec.accountId), PolicyQuery(p.spec.accountId, p.status.policyId);
    var r := Sync(p, s, f);
    if AccountChanged(p) {
      NothingIsConfined(p, s, r);
    } else if p.status.policyId == 0 {
      var t := Log(s, search);
      CreateWorks(p, t, f);
      var matches := NameMatches(s, p.spec.accountId, p.spec.name);
      if matches != {} {
        ExistingIfThere(p, t, Least(matches), f);
      }
      NoWork(t, p.spec.accountId, 0);
      LookupThenWork(p, s, search, r);
    } else {
      var t := Log(s, query);
      CreateWorks(ForgetPolicy(p), t, f);
      ExistingIfThere(p, t, p.status.policyId, f);
      NoWork(t, p.spec.accountId, p.status.policyId);
      LookupThenWork(p, s, query, r);
    }
  }

  lemma NoWork(s: Store, account: int, id: nat)
    ensures PolicyWork(s, s, account, id)
  {
  }

  lemma NothingIsConfined(p: Policy, s: Store, r: SyncResult)
    requires r.store == s && r.policy.spec == p.spec
    ensures Confined(p, s, r)
  {
  }

  /** A blocked sync makes no mutating call and changes neither the spec, the recorded ID nor the snapshot. */
  lemma BlockedChangesNothing(p: Policy, s: Store, f: Faults)
    requires Sync(p, s, f).blocked
    ensures var r := Sync(p, s, f);
            r.policy == p.(status := p.status.(ready := r.policy.status.ready)) &&
            r.policy.status.ready !in {Unset, Synced} && !r.failed &&
            r.store == s.(calls := r.store.calls) && s.calls <= r.store.calls &&
            forall i: nat :: IsNew(s, r.store, i) ==> !Mutates(r.store.calls[i])
  {
    hide SyncExisting, CreatePolicy;
    ExistingIfThere(p, Log(s, PolicyQuery(p.spec.accountId, p.status.policyId)), p.status.policyId, f);
    var matches := NameMatches(s, p.spec.accountId, p.spec.name);
    if matches != {} {
      ExistingIfThere(p, Log(s, PolicySearch(p.spec.accountId)), Least(matches), f);
    }
  }

  // ----- Identity -----

  /** A recorded ID changes exactly after a typed NotFound for that very ID; no policy is ever searched by name. */
  lemma RecordedIdStands(p: Policy, s: Store, f: Faults)
    requires 0 < p.status.policyId < s.next
    ensures var r := Sync(p, s, f);
            (forall i: nat :: IsNew(s, r.store, i) ==> !r.store.calls[i].PolicySearch?) &&
            (r.policy.status.policyId != p.status.policyId <==>
               !AccountChanged(p) && QueryPolicyCall(s, p.spec.accountId, p.status.policyId, f.query).1.NotFound?) &&
            (r.policy.status.policyId != p.status.policyId ==>
               !PolicyReachable(s, p.spec.accountId, p.status.policyId) &&
               r.policy.status.policyId == if f.createFails then 0 else s.next)
  {
    hide SyncExisting, CreatePolicy, PolicyWork;
    SyncIsConfined(p, s, f);
    var t := Log(s, PolicyQuery(p.spec.accountId, p.status.policyId));
    CreateWorks(ForgetPolicy(p), t, f);
    NoWork(t, p.spec.accountId, p.status.policyId);
    ExistingIfThere(p, t, p.status.policyId, f);
  }

  /** From a blank ID a policy is adopted only if it is the one exact match in the account; the only other ID that
      can be recorded is that of a policy created when there was no match. */
  lemma AdoptionIsExact(p: Policy, s: Store, f: Faults)
    requires p.status.policyId == 0
    ensures var id := Sync(p, s, f).policy.status.policyId;
            var matches := NameMatches(s, p.spec.accountId, p.spec.name);
            id != 0 ==> f.search == SearchFault.Answered && (matches == {id} || (matches == {} && id == s.next)) &&
                        id in Sync(p, s, f).store.policies
  {
    hide SyncExisting, CreatePolicy;
    var t := Log(s, PolicySearch(p.spec.accountId));
    CreateWorks(p, t, f);
    var matches := NameMatches(s, p.spec.accountId, p.spec.name);
    if |matches| == 1 {
      var id := Least(matches);
      ExistingWorks(p, t, id, s.policies[id], f);
      assert |matches - {id}| == 0;
      assert matches == {id};
    }
  }

  // ----- The finalizer -----

  /** The finalizer goes only if no ID was recorded or the recorded policy is gone from the account it was applied in;
      if the confirming lookup answers, it goes exactly then. No other policy and none of its conditions is deleted. */
  lemma ReleasedMeansGone(p: Policy, s: Store, d: DeleteFault, q: QueryFault)
    ensures var (released, t) := DeletePolicy(p, s, d, q);
            var gone := p.status.policyId == 0 || !PolicyReachable(t, AccountForDelete(p), p.status.policyId);
            (released ==> gone) && (q == QueryFault.Answered ==> (released <==> gone))
    ensures var (released, t) := DeletePolicy(p, s, d, q);
            (forall o :: o != p.status.policyId ==>
               (o in t.policies <==> o in s.policies) && (o in s.policies ==> t.policies[o] == s.policies[o])) &&
            forall c :: c in s.conditions && s.conditions[c].policy != p.status.policyId ==>
                          c in t.conditions && t.conditions[c] == s.conditions[c]
  {
  }
}

/** handleConditions with no failures: the managed conditions become exactly the configured ones, if and only if no
    managed name had two conditions. */
module AlertPolicyConvergence {
  import opened Options
  import opened NrqlConditions
  import opened AlertStore
  import opened AlertPolicies
  import opened AlertPolicyConditions
  import opened AlertPolicyDeletes

  /** The name is that of one condition of the policy at most. */
  predicate Single(s: Store, policy: nat, name: string) {
    forall c, d :: c in Named(s, policy, name) && d in Named(s, policy, name) ==> c == d
  }

  /** No name that is configured or applied has two conditions in the policy. */
  predicate ManagedSingle(p: Policy, s: Store) {
    forall name :: name in ManagedNames(p) ==> Single(s, p.status.policyId, name)
  }

  lemma SingleNamed(s: Store, policy: nat, name: string, c: nat)
    requires Single(s, policy, name) && c in Named(s, policy, name)
    ensures Named(s, policy, name) == {c}
    ensures FirstNamed(s, policy, name) == Some(c) && LastNamed(s, policy, name) == Some(c)
  {
    assert forall d :: d in Named(s, policy, name) ==> d == c;
    assert Named(s, policy, name) == {c};
    OnlyNamed(s, policy, name, c);
  }

  /** An agreeing entry aims at a condition of its name whenever there is one. */
  lemma StaleTargetIsThere(p: Policy, s: Store, j: nat)
    requires j < |ObservedConditions(p)| && Agrees(ObservedConditions(p)[j], p.status.policyId, s)
    requires Named(s, p.status.policyId, ObservedConditions(p)[j].spec.name) != {}
    ensures StaleTarget(p, s, j) in Named(s, p.status.policyId, ObservedConditions(p)[j].spec.name)
  {
    hide Denote;
  }

  /** The condition is there with a managed name exactly if the snapshot records it, and then truly. */
  ghost predicate ConvergedAt(p: Policy, s: Store, f: ConditionFaults, c: nat) {
    var r := HandleConditions(p, s, f);
    (c in r.store.conditions && r.store.conditions[c].policy == p.status.policyId &&
     r.store.conditions[c].content.name in ManagedNames(p)) <==>
    exists k :: 0 <= k < |r.policy.spec.conditions| && r.policy.spec.conditions[k].id == c &&
                Held(r.policy.spec.conditions[k], p.status.policyId, r.store)
  }

  /** No call fails, and the snapshot agrees with New Relic. */
  ghost predicate Undisturbed(p: Policy, s: Store, f: ConditionFaults) {
    CanHandle(p, s, f) && AllAgree(ObservedConditions(p), p.status.policyId, s) &&
    SearchesSucceed(f, |p.spec.conditions|) && MutationsSucceed(f, |p.spec.conditions|) &&
    DeletesSucceed(f, |ObservedConditions(p)|)
  }

  lemma Convergence(p: Policy, s: Store, f: ConditionFaults, c: nat)
    requires Undisturbed(p, s, f) && ManagedSingle(p, s)
    ensures ConvergedAt(p, s, f, c)
  {
    hide CanHandle, HandleConditions, ProcessUpTo, Settled, Cleaned, Touches, Wf, Denote, Realised, Names, Single,
         StaleTarget;
    var r := HandleConditions(p, s, f);
    var policy := p.status.policyId;
    HandleConditionsSnapshot(p, s, f);
    if k :| 0 <= k < |r.policy.spec.conditions| && r.policy.spec.conditions[k].id == c {
      var spec := p.spec.conditions[k].spec;
      HandleConditionsHolds(p, s, f, k);
      ManagedName(p, spec.name);
      assert c in Named(r.store, policy, spec.name);
    }
    if c in r.store.conditions && r.store.conditions[c].policy == policy {
      var name := r.store.conditions[c].content.name;
      ManagedName(p, name);
      ConfiguredIff(p, name);
      if k :| 0 <= k < |p.spec.conditions| && p.spec.conditions[k].spec.name == name {
        OnlyOneConfigured(p, s, f, k, c);
        HandleConditionsHolds(p, s, f, k);
      } else if j :| 0 <= j < |ObservedConditions(p)| && ObservedConditions(p)[j].spec.name == name {
        UnconfiguredWasThere(p, s, f, c);
        SingleNamed(s, policy, name, c);
        StaleTargetIsThere(p, s, j);
        StaleNameExact(p, s, f, j, c);
      }
    }
  }

  /** Of two conditions of one managed name one survives that the snapshot does not record. */
  lemma DuplicateSurvives(p: Policy, s: Store, f: ConditionFaults, c: nat, d: nat)
    requires Undisturbed(p, s, f) && c != d && c in s.conditions && d in s.conditions
    requires s.conditions[c].policy == s.conditions[d].policy == p.status.policyId
    requires s.conditions[c].content.name == s.conditions[d].content.name
    requires s.conditions[c].content.name in ManagedNames(p)
    ensures !ConvergedAt(p, s, f, c) || !ConvergedAt(p, s, f, d)
  {
    hide CanHandle, HandleConditions, ProcessUpTo, Settled, Cleaned, Touches, Wf, Denote, Realised, Names, StaleTarget;
    var r := HandleConditions(p, s, f);
    var name := s.conditions[c].content.name;
    ManagedName(p, name);
    ConfiguredIff(p, name);
    HandleConditionsSnapshot(p, s, f);
    SurvivorsKeepNames(p, s, f, c);
    SurvivorsKeepNames(p, s, f, d);
    forall k, x: nat | 0 <= k < |r.policy.spec.conditions| &&
                       Held(r.policy.spec.conditions[k], p.status.policyId, r.store) &&
                       r.policy.spec.conditions[k].id == x
      ensures x in r.store.conditions && r.store.conditions[x].content.name == p.spec.conditions[k].spec.name
      ensures FirstNamed(r.store, p.status.policyId, p.spec.conditions[k].spec.name) == Some(x)
    {
      assert x in Named(r.store, p.status.policyId, p.spec.conditions[k].spec.name);
    }
    if name in Names(p.spec.conditions, |p.spec.conditions|) {
      ReachedName(p.spec.conditions, f, name);
      HandleConditionsDeleteSafe(p, s, f, c);
      HandleConditionsDeleteSafe(p, s, f, d);
    } else {
      var j :| 0 <= j < |ObservedConditions(p)| && ObservedConditions(p)[j].spec.name == name;
      StaleNameExact(p, s, f, j, c);
      StaleNameExact(p, s, f, j, d);
    }
  }

  lemma SurvivorsKeepNames(p: Policy, s: Store, f: ConditionFaults, c: nat)
    requires CanHandle(p, s, f) && c in s.conditions
    ensures var t := HandleConditions(p, s, f).store;
            c in t.conditions ==> t.conditions[c].policy == s.conditions[c].policy &&
                                  t.conditions[c].content.name == s.conditions[c].content.name
  {
    hide Realised, CanHandle, HandleConditions, ProcessUpTo, Settled, Names;
    HandleStages(p, s, f);
  }

  /** With no failures and an agreeing snapshot, the conditions with a configured or formerly applied name end up as
      exactly the configured ones, each under the ID the snapshot records and with exactly its spec, if and only if no
      such name had two conditions to begin with. Of duplicates one survives that nothing
      records. */
  lemma HandleConditionsConvergesIff(p: Policy, s: Store, f: ConditionFaults)
    requires Undisturbed(p, s, f)
    ensures (forall c :: ConvergedAt(p, s, f, c)) <==> ManagedSingle(p, s)
  {
    hide Undisturbed, ConvergedAt;
    if ManagedSingle(p, s) {
      forall c | true
        ensures ConvergedAt(p, s, f, c)
      {
        Convergence(p, s, f, c);
      }
    } else {
      var name :| name in ManagedNames(p) && !Single(s, p.status.policyId, name);
      var c, d :| c in Named(s, p.status.policyId, name) && d in Named(s, p.status.policyId, name) && c != d;
      DuplicateSurvives(p, s, f, c, d);
    }
  }

  lemma UnconfiguredWasThere(p: Policy, s: Store, f: ConditionFaults, c: nat)
    requires CanHandle(p, s, f)
    requires var t := HandleConditions(p, s, f).store;
             c in t.conditions && t.conditions[c].content.name !in Names(p.spec.conditions, |p.spec.conditions|)
    ensures var t := HandleConditions(p, s, f).store;
            c in s.conditions && s.conditions[c].policy == t.conditions[c].policy &&
            s.conditions[c].content.name == t.conditions[c].content.name
  {
    hide Realised, Initial, HandleConditions, ProcessUpTo, Settled, Names;
    HandleStages(p, s, f);
  }

  lemma OnlyOneConfigured(p: Policy, s: Store, f: ConditionFaults, k: nat, c: nat)
    requires CanHandle(p, s, f) && k < |p.spec.conditions| && !FailsAt(f, k)
    requires Single(s, p.status.policyId, p.spec.conditions[k].spec.name)
    requires c in Named(HandleConditions(p, s, f).store, p.status.policyId, p.spec.conditions[k].spec.name)
    ensures var r := HandleConditions(p, s, f).policy.spec.conditions;
            |r| == |p.spec.conditions| && r[k].id == c
  {
    hide Initial, HandleConditions, ProcessUpTo, Cleaned, Touches, Wf, Denote, Realised;
    var policy, name := p.status.policyId, p.spec.conditions[k].spec.name;
    HandleStages(p, s, f);
    ReachedAt(p, s, f, k);
    CleanedConfigured(JobOf(p, f), WorkOf(p, s), AfterLoop(p, s, f).store, HandleConditions(p, s, f).store,
                      p.spec.conditions[k].spec);
    assert Settled(JobOf(p, f), WorkOf(p, s), AfterLoop(p, s, f), k);
    if FirstNamed(s, policy, name).Some? {
      SingleNamed(s, policy, name, c);
    }
  }

  // ----- Without an error nothing stale is left -----

  lemma {:induction false} DeletesWithoutError(job: Job, listing: Store, w: Work, n: nat, j: nat)
    requires j < n <= |job.observed| == |w.processed| && !w.processed[j]
    requires DeleteUpTo(job, listing, w, n).errors == []
    ensures !job.f.delete(j) && ConditionReachable(w.store, job.account, DeleteTarget(job, listing, j))
  {
    hide DeleteTarget;
    var r := DeleteUpTo(job, listing, w, n - 1);
    if j < n - 1 {
      DeletesWithoutError(job, listing, w, n - 1, j);
    } else {
      DeleteTrims(job, listing, w, n - 1);
    }
  }

  /** If handleConditions meets no error, the delete of every entry whose name is not configured was asked for and found
      its condition. */
  lemma StaleTargetsWereThere(p: Policy, s: Store, f: ConditionFaults, j: nat)
    requires CanHandle(p, s, f) && j < |ObservedConditions(p)| && !HandleConditions(p, s, f).failed
    requires ObservedConditions(p)[j].spec.name !in Names(p.spec.conditions, |p.spec.conditions|)
    ensures !f.list && !f.delete(j)
    ensures StaleTarget(p, s, j) in Named(s, p.status.policyId, ObservedConditions(p)[j].spec.name)
  {
    hide ProcessUpTo, DeleteUpTo, StaleTarget, Unwanted, Proper, WellFormed, DeleteTarget, FirstNamed, IdOk;
    var job, w := JobOf(p, f), AfterLoop(p, s, f);
    var v := w.(store := Log(w.store, ConditionSearch(job.account, job.policyId)));
    StaleIsUnwanted(p, s, f, j);
    LoopTouches(p, s, f);
    UnprocessedIsUnwanted(p, s, f, j);
    UnwantedAims(p, s, f, v.store, j);
    DeletesWithoutError(job, v.store, v, |job.observed|, j);
    LiveTargetIsNamed(p, s, f, j);
  }

  lemma StaleIsUnwanted(p: Policy, s: Store, f: ConditionFaults, j: nat)
    requires j < |ObservedConditions(p)|
    requires ObservedConditions(p)[j].spec.name !in Names(p.spec.conditions, |p.spec.conditions|)
    ensures Unwanted(p, s, f, j)
  {
    ConfiguredIff(p, ObservedConditions(p)[j].spec.name);
  }

  lemma LiveTargetIsNamed(p: Policy, s: Store, f: ConditionFaults, j: nat)
    requires CanHandle(p, s, f) && j < |ObservedConditions(p)|
    requires StaleTarget(p, s, j) in AfterLoop(p, s, f).store.conditions
    ensures StaleTarget(p, s, j) in Named(s, p.status.policyId, ObservedConditions(p)[j].spec.name)
  {
    hide ProcessUpTo, Proper, WellFormed;
    LoopTouches(p, s, f);
    assert IdOk(ObservedConditions(p)[j], p.status.policyId, s);
    ProperIdentity(p, s, f, j);
    SomeNamed(s, p.status.policyId, ObservedConditions(p)[j].spec.name);
  }

  /** So a name that had one condition and is configured no more has none. */
  lemma NothingStaleLeft(p: Policy, s: Store, f: ConditionFaults, j: nat)
    requires CanHandle(p, s, f) && j < |ObservedConditions(p)| && !HandleConditions(p, s, f).failed
    requires ObservedConditions(p)[j].spec.name !in Names(p.spec.conditions, |p.spec.conditions|)
    requires Single(s, p.status.policyId, ObservedConditions(p)[j].spec.name)
    ensures Named(HandleConditions(p, s, f).store, p.status.policyId, ObservedConditions(p)[j].spec.name) == {}
  {
    hide HandleConditions, StaleTarget, CanHandle, Names;
    var t, name := HandleConditions(p, s, f).store, ObservedConditions(p)[j].spec.name;
    StaleTargetsWereThere(p, s, f, j);
    SingleNamed(s, p.status.policyId, name, StaleTarget(p, s, j));
    StaleNameExact(p, s, f, j, StaleTarget(p, s, j));
    forall c | c in Named(t, p.status.policyId, name)
      ensures c in Named(s, p.status.policyId, name)
    {
      UnconfiguredWasThere(p, s, f, c);
    }
  }
}

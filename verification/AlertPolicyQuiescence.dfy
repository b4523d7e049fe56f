/** When a sync leaves nothing to do, and the two ways in which the recorded snapshot hides work that is left. */
module AlertPolicyQuiescence {
  import opened Options
  import opened NrqlConditions
  import opened AlertStore
  import opened AlertPolicies
  import opened AlertPolicyConditions
  import opened AlertPolicyRecords
  import opened AlertPolicySync
  import opened AlertPolicyDeletes

  /** The stored object matches its snapshot, whatever the IDs and outer names of its conditions. */
  predicate Settles(spec: PolicySpec, st: Status) { MatchesApplied(Policy(spec, st)) }

  /** Equal in everything but the IDs and outer names of conditions. */
  predicate SameButMetadata(a: PolicySpec, b: PolicySpec) {
    a.name == b.name && a.preference == b.preference && a.region == b.region && a.accountId == b.accountId &&
    a.apiKey == b.apiKey && a.apiKeySecret == b.apiKeySecret && |a.conditions| == |b.conditions| &&
    forall i :: 0 <= i < |a.conditions| ==> a.conditions[i].spec == b.conditions[i].spec
  }

  /** A status settles a spec only if it records a policy and that spec, in every field but the metadata. */
  lemma SettlesIff(spec: PolicySpec, st: Status)
    ensures Settles(spec, st) <==>
            st.policyId != 0 && st.applied.Some? && SameButMetadata(spec, st.applied.value)
  {
    if st.applied.Some? {
      HeadsSameIff(spec, st.applied.value);
    }
  }

  lemma HeadsSameIff(a: PolicySpec, b: PolicySpec)
    ensures a.(conditions := []) == b.(conditions := []) <==>
            a.name == b.name && a.preference == b.preference && a.region == b.region && a.accountId == b.accountId &&
            a.apiKey == b.apiKey && a.apiKeySecret == b.apiKeySecret
  {
    var c, d := a.(conditions := []), b.(conditions := []);
    assert c.name == a.name && c.preference == a.preference && c.region == a.region;
    assert c.accountId == a.accountId && c.apiKey == a.apiKey && c.apiKeySecret == a.apiKeySecret;
    assert d.name == b.name && d.preference == b.preference && d.region == b.region;
    assert d.accountId == b.accountId && d.apiKey == b.apiKey && d.apiKeySecret == b.apiKeySecret;
  }

  /** So it settles one spec only: every other spec that it settles differs in metadata at most. */
  lemma SettlesOneSpec(a: PolicySpec, b: PolicySpec, st: Status)
    requires Settles(a, st)
    ensures Settles(b, st) <==> SameButMetadata(a, b)
  {
    hide Settles;
    SettlesIff(a, st);
    SettlesIff(b, st);
  }

  // ----- Failed condition calls are never retried -----

  /** Whatever condition calls failed, the next reconcile finds the stored object up to date and makes no call. So a
      condition that was not realised, and whose own create or update failed, stays missing or different; and so does
      one that was not applied and whose own search failed. */
  lemma FailedConditionIsNotRetried(p: Policy, s: Store, f: ConditionFaults, next: Faults, k: nat)
    requires CanHandle(p, s, f) && p.status.policyId != 0 && k < |p.spec.conditions|
    ensures var r, spec := HandleConditions(p, s, f), p.spec.conditions[k].spec;
            Settles(p.spec, r.policy.status) &&
            ReconcileStatus(Policy(p.spec, r.policy.status), r.store, next).1 == r.store &&
            (!f.search(k) ==>
               (Realised(spec, p.status.policyId, r.store) <==>
                  Realised(spec, p.status.policyId, s) || (!f.mutate(k) && !Skipped(JobOf(p, f), s, spec)))) &&
            (f.search(k) && spec.name !in Names(ObservedConditions(p), |ObservedConditions(p)|) ==>
               (Realised(spec, p.status.policyId, r.store) <==> Realised(spec, p.status.policyId, s)))
  {
    hide Realised, CanHandle, HandleConditions, Sync;
    HandleConditionsSnapshot(p, s, f);
    if !f.search(k) {
      HandleConditionsExact(p, s, f, k);
    } else if p.spec.conditions[k].spec.name !in Names(ObservedConditions(p), |ObservedConditions(p)|) {
      FailedSearchExact(p, s, f, k);
    }
  }

  // ----- A sync that is done -----

  lemma IfNeededSettles(p: Policy, s: Store, compareFails: bool, f: ConditionFaults)
    requires p.status.policyId != 0 && p.status.applied.Some?
    requires p.spec.(conditions := []) == p.status.applied.value.(conditions := [])
    ensures var r := ReconcileConditionsIfNeeded(p, s, compareFails, f);
            !r.failed ==> Settles(p.spec, r.policy.status) && Settles(r.policy.spec, r.policy.status)
  {
    hide HandleConditions, AllRemoteConditionsMatch;
    HandleConditionsSnapshot(p, s, f);
    HandleConditionsSnapshot(p, Log(s, ConditionSearch(p.spec.accountId, p.status.policyId)), f);
  }

  lemma UpdateSettles(p: Policy, s: Store, f: Faults)
    requires p.status.policyId != 0 && PreferenceKnown(p.spec.preference)
    ensures var r := UpdatePolicy(p, s, f);
            !r.failed ==> Settles(p.spec, r.policy.status) && Settles(r.policy.spec, r.policy.status)
  {
    hide ReconcileConditionsIfNeeded, MatchesApplied;
    var (t, ok) := UpdatePolicyCall(s, p.spec.accountId, p.status.policyId, p.spec.name, p.spec.preference,
                                    f.updateFails);
    if ok {
      var q := p.(status := p.status.(applied := Some(BuildApplied(p, p.spec.name, p.spec.preference))));
      IfNeededSettles(q, t, f.compareFails, f.conditions);
    }
  }

  /** The Ready condition plays no part. */
  lemma SettlesAnyReason(spec: PolicySpec, st: Status, reason: Reason)
    ensures Settles(spec, st.(ready := reason)) == Settles(spec, st)
  {
  }

  lemma FinishSettles(p: Policy, r: Result)
    requires !r.failed ==> Settles(p.spec, r.policy.status) && Settles(r.policy.spec, r.policy.status)
    ensures var t := Finish(r).policy;
            !r.failed ==> Settles(p.spec, t.status) && Settles(t.spec, t.status)
  {
    hide Settles;
    SettlesAnyReason(p.spec, r.policy.status, Synced);
    SettlesAnyReason(r.policy.spec, r.policy.status, Synced);
  }

  lemma ExistingSettles(p: Policy, s: Store, id: nat, f: Faults)
    requires id in s.policies && id != 0 && PreferenceKnown(p.spec.preference)
    ensures var r := SyncExisting(p, s, id, s.policies[id], f);
            !r.failed && !r.blocked ==> Settles(p.spec, r.policy.status) && Settles(r.policy.spec, r.policy.status)
  {
    hide ReconcileConditionsIfNeeded, UpdatePolicy, Settles;
    var remote := s.policies[id];
    var q := p.(status := p.status.(policyId := id, applied := Some(BuildApplied(p, remote.name, remote.preference))));
    if remote.name != p.spec.name || remote.preference != p.spec.preference {
      UpdateSettles(q, s, f);
      FinishSettles(p, UpdatePolicy(q, s, f));
    } else if !(remote.account != 0 && remote.account != p.spec.accountId) {
      assert q.status.applied.value.(conditions := []) == p.spec.(conditions := []);
      IfNeededSettles(q, s, f.compareFails, f.conditions);
      FinishSettles(p, ReconcileConditionsIfNeeded(q, s, f.compareFails, f.conditions));
    }
  }

  lemma {:induction false} CreatesKeepSpecs(w: Work, account: int, policy: nat, i: nat, f: ConditionFaults)
    requires i <= |w.conditions|
    ensures SameSpecs(CreatePolicyConditions(w, account, policy, i, f).conditions, w.conditions)
  {
    hide Denote, CreateConditionCall;
    if i > 0 {
      CreatesKeepSpecs(w, account, policy, i - 1, f);
    }
  }

  /** A created policy settles even when some of its conditions could not be created. */
  lemma CreateSettles(p: Policy, s: Store, f: Faults)
    requires s.next != 0 && PreferenceKnown(p.spec.preference)
    ensures var r := CreatePolicy(p, s, f);
            (f.createFails ==> r.failed) &&
            (!f.createFails ==> Settles(p.spec, r.policy.status) && Settles(r.policy.spec, r.policy.status))
  {
    hide CreatePolicyConditions;
    var (t, id) := CreatePolicyCall(s, p.spec.accountId, p.spec.name, p.spec.preference, f.createFails);
    CreatesKeepSpecs(Work(t, p.spec.conditions, [], []), p.spec.accountId, s.next, |p.spec.conditions|, f.conditions);
  }

  /** So what createPolicy leaves is final: the next reconcile makes no call, and a configured condition is there
      exactly if its own create did not fail. */
  lemma FailedCreateIsNotRetried(p: Policy, s: Store, f: Faults, next: Faults, k: nat)
    requires Wf(s) && Configurable(p.spec) && !f.createFails && k < |p.spec.conditions|
    ensures var r := CreatePolicy(p, s, f);
            Settles(p.spec, r.policy.status) &&
            ReconcileStatus(Policy(p.spec, r.policy.status), r.store, next).1 == r.store &&
            (Realised(p.spec.conditions[k].spec, s.next, r.store) <==> !f.conditions.mutate(k))
  {
    hide Realised, CreatePolicy, Sync, Proper;
    CreateSettles(p, s, f);
    CreatePolicyExact(p, s, f);
  }

  lemma ForgottenSettles(p: Policy, st: Status)
    requires Settles(ForgetPolicy(p).spec, st)
    ensures Settles(p.spec, st)
  {
  }

  /** A sync that is neither blocked nor failed leaves a status that the cache check accepts, for the object in hand
      and for the stored one. */
  lemma DoneSettles(p: Policy, s: Store, f: Faults)
    requires Wf(s) && PreferenceKnown(p.spec.preference)
    ensures var r := Sync(p, s, f);
            !r.blocked && !r.failed ==> Settles(p.spec, r.policy.status) && Settles(r.policy.spec, r.policy.status)
  {
    hide SyncExisting, CreatePolicy, Settles;
    var search := Log(s, PolicySearch(p.spec.accountId));
    var query := Log(s, PolicyQuery(p.spec.accountId, p.status.policyId));
    if p.status.policyId == 0 {
      var matches := NameMatches(s, p.spec.accountId, p.spec.name);
      if matches != {} {
        ExistingSettles(p, search, Least(matches), f);
      } else {
        CreateSettles(p, search, f);
        FinishSettles(p, CreatePolicy(p, search, f));
      }
    } else {
      if p.status.policyId in s.policies {
        ExistingSettles(p, query, p.status.policyId, f);
      }
      var r := CreatePolicy(ForgetPolicy(p), query, f);
      CreateSettles(ForgetPolicy(p), query, f);
      if !r.failed {
        ForgottenSettles(p, r.policy.status);
      }
      FinishSettles(p, r);
    }
  }

  // ----- What a done sync leaves in New Relic -----

  ghost predicate AllPresent(cs: seq<PolicyCondition>, policy: nat, s: Store) {
    forall k :: 0 <= k < |cs| ==> FirstNamed(s, policy, cs[k].spec.name).Some?
  }

  lemma TurnWithoutError(job: Job, w: Work, i: nat)
    requires i < |w.conditions| && |w.processed| == |job.observed| && ProcessOne(job, w, i).errors == []
    ensures w.errors == [] && !job.f.search(i)
  {
    hide Denote, Project, FirstListed, CreateConditionCall, UpdateConditionCall, FindApplied;
  }

  lemma {:induction false} NoErrorsNoFailedSearch(job: Job, w: Work, i: nat)
    requires i <= |w.conditions| && |w.processed| == |job.observed| && ProcessUpTo(job, w, i).errors == []
    ensures SearchesSucceed(job.f, i)
  {
    hide ProcessOne;
    if i > 0 {
      TurnWithoutError(job, ProcessUpTo(job, w, i - 1), i - 1);
      NoErrorsNoFailedSearch(job, w, i - 1);
    }
  }

  /** If the loop meets no error, every configured name it has passed exists. */
  lemma {:induction false} NoErrorsAllPresent(job: Job, w0: Work, i: nat)
    requires Initial(job, w0) && Fits(job, w0, |w0.conditions|) && i <= |w0.conditions|
    requires ProcessUpTo(job, w0, i).errors == []
    ensures AllPresent(w0.conditions[..i], job.policyId, ProcessUpTo(job, w0, i).store)
  {
    hide Denote, Initial, Progress, ProcessOne, Turned, Touches, Proper;
    if i > 0 {
      var w := ProcessUpTo(job, w0, i - 1);
      var r := ProcessOne(job, w, i - 1);
      TurnWithoutError(job, w, i - 1);
      NoErrorsAllPresent(job, w0, i - 1);
      LoopProgress(job, w0, i - 1);
      TurnLeavesPresent(job, w0, w, i - 1);
      forall k | 0 <= k < i - 1
        ensures FirstNamed(r.store, job.policyId, w0.conditions[k].spec.name).Some?
      {
        assert w0.conditions[..i - 1][k] == w0.conditions[k];
        OtherNames(job, w0, k, i - 1);
        TouchesOther(w.store, r.store, job.policyId, {w0.conditions[i - 1].spec.name}, w0.conditions[k].spec.name);
      }
    }
  }

  lemma OtherNames(job: Job, w0: Work, k: nat, i: nat)
    requires Initial(job, w0) && k < i < |w0.conditions|
    ensures w0.conditions[k].spec.name != w0.conditions[i].spec.name
  {
  }

  lemma TurnLeavesPresent(job: Job, w0: Work, w: Work, i: nat)
    requires Initial(job, w0) && i < |w0.conditions| && Progress(job, w0, w, i)
    requires ProcessOne(job, w, i).errors == []
    ensures var r := ProcessOne(job, w, i);
            Touches(w.store, r.store, job.policyId, {w0.conditions[i].spec.name}) &&
            FirstNamed(r.store, job.policyId, w0.conditions[i].spec.name).Some?
  {
    hide Denote, Project, Touches, Wf, Proper, Settled, Realised;
    TurnIsPossible(job, w0, w, i);
    var c := w.conditions[i];
    var s := Log(w.store, ConditionSearch(job.account, job.policyId));
    assert forall n :: Named(s, job.policyId, n) == Named(w.store, job.policyId, n);
    var r := ProcessOne(job, w, i);
    assert FirstNamed(w.store, job.policyId, c.spec.name).None? && job.f.mutate(i) ==>
        r.errors == w.errors + [c.spec.name];
  }

  lemma HandledIsPresent(p: Policy, s: Store, f: ConditionFaults)
    requires Wf(s) && PolicyReachable(s, p.spec.accountId, p.status.policyId)
    requires Proper(p.spec.conditions) && Proper(ObservedConditions(p))
    requires AllIdsOk(ObservedConditions(p), p.status.policyId, s) && !HandleConditions(p, s, f).failed
    ensures var r := HandleConditions(p, s, f);
            AllPresent(p.spec.conditions, p.status.policyId, r.store) && Wf(r.store) &&
            r.store.policies == s.policies && Proper(r.policy.status.applied.value.conditions)
  {
    hide Wf, Proper, IdOk, FirstNamed, ProcessUpTo, Progress, Cleaned, Initial, HandleConditions;
    var job, w0, n := JobOf(p, f), WorkOf(p, s), |p.spec.conditions|;
    var w := ProcessUpTo(job, w0, n);
    NotFailedNoErrors(p, s, f);
    NoErrorsNoFailedSearch(job, w0, n);
    CanHandleWhen(p, s, f);
    HandleStages(p, s, f);
    HandleConditionsSnapshot(p, s, f);
    HandleConditionsFrame(p, s, f, 0);
    NoErrorsAllPresent(job, w0, n);
    assert w0.conditions[..n] == p.spec.conditions;
    forall k | 0 <= k < n
      ensures FirstNamed(HandleConditions(p, s, f).store, p.status.policyId, p.spec.conditions[k].spec.name).Some?
    {
      ReachedAt(p, s, f, k);
      CleanedConfigured(job, w0, w.store, HandleConditions(p, s, f).store, p.spec.conditions[k].spec);
    }
  }

  lemma {:induction false} DeleteKeepsErrors(job: Job, listing: Store, w: Work, j: nat)
    requires j <= |job.observed| == |w.processed|
    ensures w.errors <= DeleteUpTo(job, listing, w, j).errors
  {
    hide DeleteTarget;
    if j > 0 {
      DeleteKeepsErrors(job, listing, w, j - 1);
    }
  }

  lemma NotFailedNoErrors(p: Policy, s: Store, f: ConditionFaults)
    requires !HandleConditions(p, s, f).failed
    ensures ProcessUpTo(JobOf(p, f), WorkOf(p, s), |p.spec.conditions|).errors == []
  {
    hide ProcessUpTo, DeleteUpTo;
    var job := JobOf(p, f);
    var w := ProcessUpTo(job, WorkOf(p, s), |p.spec.conditions|);
    var v := w.(store := Log(w.store, ConditionSearch(job.account, job.policyId)));
    DeleteKeepsErrors(job, v.store, v, |job.observed|);
  }

  lemma TurnNeedsNoCall(job: Job, w: Work, i: nat)
    requires i < |w.conditions| && |w.processed| == |job.observed| && ProcessOne(job, w, i).errors == []
    ensures w.errors == [] && (job.f.mutate(i) ==> !NeedsCall(job, w.store, w.conditions[i].spec))
  {
    hide Denote, Project, FindApplied;
    var name := w.conditions[i].spec.name;
    var s := Log(w.store, ConditionSearch(job.account, job.policyId));
    assert Named(s, job.policyId, name) == Named(w.store, job.policyId, name);
    SomeNamed(w.store, job.policyId, name);
  }

  /** If the loop meets no error, no condition needed a create or update that would have failed. */
  lemma {:induction false} NoErrorsNoCalls(job: Job, w0: Work, i: nat, k: nat)
    requires Initial(job, w0) && Fits(job, w0, |w0.conditions|) && k < i <= |w0.conditions|
    requires ProcessUpTo(job, w0, i).errors == []
    ensures job.f.mutate(k) ==> !NeedsCall(job, w0.store, w0.conditions[k].spec)
  {
    hide ProcessOne, Initial, NeedsCall, Touches, Settled, Wf, Proper, Wanted;
    InitialFits(job, w0);
    var w := ProcessUpTo(job, w0, i - 1);
    TurnNeedsNoCall(job, w, i - 1);
    if k < i - 1 {
      NoErrorsNoCalls(job, w0, i - 1, k);
    } else {
      LoopProgress(job, w0, k);
      NamesStep(w0.conditions, k);
      NeedsCallElsewhere(job, w0.store, w.store, Names(w0.conditions, k), w0.conditions[k].spec);
    }
  }

  lemma InitialFits(job: Job, w0: Work)
    requires Initial(job, w0)
    ensures Fits(job, w0, |w0.conditions|) && Proper(w0.conditions)
  {
  }

  lemma NoNeedMeans(job: Job, s: Store, spec: ConditionSpec)
    requires Wf(s) && !NeedsCall(job, s, spec)
    ensures Skipped(job, s, spec) || Realised(spec, job.policyId, s)
  {
    hide Denote, Project, FindApplied, WellFormed;
    SomeNamed(s, job.policyId, spec.name);
    var id := FirstNamed(s, job.policyId, spec.name).value;
    assert id in Named(s, job.policyId, spec.name);
    MatchingIsInSync(s, id, spec);
  }

  /** If handleConditions meets no error, a configured condition is realised afterwards exactly if it was before or was
      not taken for up to date. */
  lemma HandledWithoutError(p: Policy, s: Store, f: ConditionFaults, k: nat)
    requires CanHandle(p, s, f) && k < |p.spec.conditions| && !HandleConditions(p, s, f).failed
    ensures var spec := p.spec.conditions[k].spec;
            Realised(spec, p.status.policyId, HandleConditions(p, s, f).store) <==>
            Realised(spec, p.status.policyId, s) || !Skipped(JobOf(p, f), s, spec)
  {
    hide HandleConditions, ProcessUpTo, Initial, NeedsCall, Skipped, Realised, WellFormed;
    var job, w0, n := JobOf(p, f), WorkOf(p, s), |p.spec.conditions|;
    NotFailedNoErrors(p, s, f);
    NoErrorsNoFailedSearch(job, w0, n);
    NoErrorsNoCalls(job, w0, n, k);
    HandleConditionsExact(p, s, f, k);
    if f.mutate(k) {
      StartMeans(p, s, f);
      NoNeedMeans(job, s, p.spec.conditions[k].spec);
    }
  }

  /** Nothing is left to do: the snapshot matches, the policy is there as the spec says, with every configured name. */
  ghost predicate Done(spec: PolicySpec, st: Status, s: Store) {
    Settles(spec, st) && PolicyIs(s, st.policyId, spec) && Proper(st.applied.value.conditions) &&
    Proper(spec.conditions) && AllPresent(spec.conditions, st.policyId, s)
  }

  lemma SamePresent(cs: seq<PolicyCondition>, policy: nat, s: Store, t: Store)
    requires AllPresent(cs, policy, s) && t.conditions == s.conditions
    ensures AllPresent(cs, policy, t)
  {
    assert forall n :: Named(s, policy, n) == Named(t, policy, n);
  }

  lemma MatchingIsPresent(p: Policy, s: Store)
    requires AllRemoteConditionsMatch(p, s) && Proper(p.spec.conditions)
    ensures AllPresent(p.spec.conditions, p.status.policyId, s)
  {
    hide Project;
    forall k | 0 <= k < |p.spec.conditions|
      ensures FirstNamed(s, p.status.policyId, p.spec.conditions[k].spec.name).Some?
    {
      assert RemoteConditionMatches(p, s, k);
      assert Identity(p.spec.conditions[k]) == p.spec.conditions[k].spec.name;
    }
  }

  lemma IfNeededIsDone(p: Policy, s: Store, compareFails: bool, f: ConditionFaults)
    requires Refreshed(p, s)
    ensures var r := ReconcileConditionsIfNeeded(p, s, compareFails, f);
            !r.failed ==> Done(p.spec, r.policy.status, r.store)
  {
    hide HandleConditions, AllRemoteConditionsMatch, Settles, AllPresent, Proper, Wf, IdOk, SameSpecs;
    RefreshedId(p, s);
    IfNeededSettles(p, s, compareFails, f);
    var r := ReconcileConditionsIfNeeded(p, s, compareFails, f);
    var t := Log(s, ConditionSearch(p.spec.accountId, p.status.policyId));
    HandleConditionsSnapshot(p, s, f);
    HandleConditionsSnapshot(p, t, f);
    if !r.failed {
      if !ShouldReconcileConditions(p) || p.spec.conditions == [] {
        NothingPresent(p.status.policyId, r.store);
        if HaveConditionsChanged(p) && ShouldReconcileConditions(p) {
          HandledIsPresent(p, s, f);
        }
      } else if HaveConditionsChanged(p) {
        HandledIsPresent(p, s, f);
      } else if AllRemoteConditionsMatch(p, s) {
        MatchingIsPresent(p, s);
        SamePresent(p.spec.conditions, p.status.policyId, s, t);
      } else {
        RefreshedLogged(p, s);
        HandledIsPresent(p, t, f);
      }
    }
  }

  lemma RefreshedId(p: Policy, s: Store)
    requires Refreshed(p, s)
    ensures p.status.policyId != 0 && p.status.applied.Some?
  {
  }

  lemma NothingPresent(policy: nat, s: Store)
    ensures AllPresent([], policy, s)
  {
  }

  lemma {:induction false} NoErrorsAllCreated(w: Work, account: int, policy: nat, i: nat, f: ConditionFaults)
    requires i <= |w.conditions| && CreatePolicyConditions(w, account, policy, i, f).errors == []
    ensures MutationsSucceed(f, i)
  {
    hide Denote;
    if i > 0 {
      NoErrorsAllCreated(w, account, policy, i - 1, f);
    }
  }

  lemma CreateIsDone(p: Policy, s: Store, f: Faults)
    requires Wf(s) && Configurable(p.spec)
    ensures var r := CreatePolicy(p, s, f);
            !r.failed ==> Done(p.spec, r.policy.status, r.store) && Settles(r.policy.spec, r.policy.status)
  {
    hide CreatePolicyConditions, Settles, Proper, InSync;
    var r := CreatePolicy(p, s, f);
    if !r.failed {
      CreateSettles(p, s, f);
      var (t, id) := CreatePolicyCall(s, p.spec.accountId, p.spec.name, p.spec.preference, f.createFails);
      NoErrorsAllCreated(Work(t, p.spec.conditions, [], []), p.spec.accountId, s.next, |p.spec.conditions|,
          f.conditions);
      CreatesKeepSpecs(Work(t, p.spec.conditions, [], []), p.spec.accountId, s.next, |p.spec.conditions|, f.conditions);
      CreatePolicyExact(p, s, f);
      CreateShape(p, s, f);
      forall k | 0 <= k < |p.spec.conditions|
        ensures FirstNamed(r.store, s.next, p.spec.conditions[k].spec.name).Some?
      {
        assert Realised(p.spec.conditions[k].spec, s.next, r.store);
      }
    }
  }

  lemma UpdateIsDone(p: Policy, s: Store, f: Faults)
    requires Wf(s) && Configurable(p.spec) && p.status.policyId in s.policies && p.status.policyId != 0
    requires s.policies[p.status.policyId].account == p.spec.accountId
    requires Proper(ObservedConditions(p)) && AllIdsOk(ObservedConditions(p), p.status.policyId, s)
    ensures var r := UpdatePolicy(p, s, f);
            !r.failed ==> Done(p.spec, r.policy.status, r.store)
  {
    hide ReconcileConditionsIfNeeded, Done, Proper;
    var (t, ok) := UpdatePolicyCall(s, p.spec.accountId, p.status.policyId, p.spec.name, p.spec.preference,
                                    f.updateFails);
    if ok {
      var q := p.(status := p.status.(applied := Some(BuildApplied(p, p.spec.name, p.spec.preference))));
      SameConditionsLater(s, t);
      assert q.status.applied.value.(conditions := []) == p.spec.(conditions := []);
      IfNeededIsDone(q, t, f.compareFails, f.conditions);
    }
  }

  lemma DoneAnyReason(spec: PolicySpec, st: Status, s: Store, reason: Reason)
    requires Done(spec, st, s)
    ensures Done(spec, st.(ready := reason), s)
  {
    hide Proper, Wf;
  }

  lemma FinishIsDone(spec: PolicySpec, r: Result)
    requires !r.failed ==> Done(spec, r.policy.status, r.store)
    ensures !r.failed ==> Done(spec, Finish(r).policy.status, r.store)
  {
    hide Done;
    if !r.failed {
      DoneAnyReason(spec, r.policy.status, r.store, Synced);
    }
  }

  lemma ExistingIsDone(p: Policy, s: Store, id: nat, f: Faults)
    requires Wf(s) && Configurable(p.spec) && id in s.policies && s.policies[id].account == p.spec.accountId
    requires Proper(ObservedConditions(p)) && AllIdsOk(ObservedConditions(p), id, s)
    ensures var r := SyncExisting(p, s, id, s.policies[id], f);
            !r.failed && !r.blocked ==> Done(p.spec, r.policy.status, r.store)
  {
    hide ReconcileConditionsIfNeeded, UpdatePolicy, Done, Proper;
    var remote := s.policies[id];
    var q := p.(status := p.status.(policyId := id, applied := Some(BuildApplied(p, remote.name, remote.preference))));
    if remote.name != p.spec.name || remote.preference != p.spec.preference {
      UpdateIsDone(q, s, f);
      FinishIsDone(p.spec, UpdatePolicy(q, s, f));
    } else {
      assert q.status.applied.value.(conditions := []) == p.spec.(conditions := []);
      IfNeededIsDone(q, s, f.compareFails, f.conditions);
      FinishIsDone(p.spec, ReconcileConditionsIfNeeded(q, s, f.compareFails, f.conditions));
    }
  }

  lemma ForgottenIsDone(p: Policy, st: Status, s: Store)
    requires Done(ForgetPolicy(p).spec, st, s)
    ensures Done(p.spec, st, s)
  {
    hide FirstNamed;
    assert forall k :: 0 <= k < |p.spec.conditions| ==>
        ForgetPolicy(p).spec.conditions[k].spec == p.spec.conditions[k].spec;
  }

  /** A sync that is neither blocked nor failed is done: whatever faults it survived on the way, New Relic has the
      policy as specified, with every configured name, and the stored object matches the recorded snapshot. */
  lemma SyncIsDone(p: Policy, s: Store, f: Faults)
    requires Wf(s) && Recorded(p.status, s) && Configurable(p.spec)
    ensures var r := Sync(p, s, f);
            !r.blocked && !r.failed ==> Done(p.spec, r.policy.status, r.store)
  {
    hide SyncExisting, CreatePolicy, Done, Proper;
    var search := Log(s, PolicySearch(p.spec.accountId));
    var query := Log(s, PolicyQuery(p.spec.accountId, p.status.policyId));
    SameConditionsLater(s, search);
    SameConditionsLater(s, query);
    RecordedObserved(p, s);
    if AccountChanged(p) {
    } else if p.status.policyId == 0 {
      var matches := NameMatches(s, p.spec.accountId, p.spec.name);
      if matches != {} {
        ObservedAreGone(p, search, Least(matches));
        ExistingIsDone(p, search, Least(matches), f);
      } else {
        CreateIsDone(p, search, f);
        FinishIsDone(p.spec, CreatePolicy(p, search, f));
      }
    } else {
      if p.status.policyId in s.policies {
        ExistingIsDone(p, query, p.status.policyId, f);
      } else {
        ForgottenConditions(p, query, f.conditions);
        var r := CreatePolicy(ForgetPolicy(p), query, f);
        CreateIsDone(ForgetPolicy(p), query, f);
        if !r.failed {
          ForgottenIsDone(p, r.policy.status, r.store);
        }
        FinishIsDone(p.spec, r);
      }
    }
  }

  // ----- The next sync -----

  /** The log grew by calls that only read; nothing else changed. */
  ghost predicate OnlyReads(s: Store, t: Store) {
    SameRemote(s, t) && s.calls <= t.calls &&
    forall i: nat :: |s.calls| <= i < |t.calls| ==> !Mutates(t.calls[i])
  }

  lemma ReadAgain(s: Store, t: Store, c: Call)
    requires OnlyReads(s, t) && !Mutates(c)
    ensures OnlyReads(s, Log(t, c))
  {
    forall i: nat | |s.calls| <= i < |t.calls| + 1
      ensures !Mutates(Log(t, c).calls[i])
    {
      if i < |t.calls| {
        assert Log(t, c).calls[i] == t.calls[i];
      }
    }
  }

  lemma ReadOnly(s: Store, t: Store, u: Store)
    requires OnlyReads(s, t) && OnlyReads(t, u)
    ensures OnlyReads(s, u)
  {
    forall i: nat | |s.calls| <= i < |u.calls|
      ensures !Mutates(u.calls[i])
    {
      if i < |t.calls| {
        assert u.calls[i] == t.calls[i];
      }
    }
  }

  /** The configured conditions are the applied ones, and all are there. */
  ghost predicate Idle(job: Job, w0: Work) {
    Fits(job, w0, |w0.conditions|) && PolicyReachable(w0.store, job.account, job.policyId) &&
    Proper(job.observed) && SameSpecs(w0.conditions, job.observed) &&
    AllPresent(w0.conditions, job.policyId, w0.store) && SearchesSucceed(job.f, |w0.conditions|)
  }

  ghost predicate Untouched(job: Job, w0: Work, w: Work, i: nat)
    requires i <= |w0.conditions|
  {
    Fits(job, w, |w0.conditions|) && OnlyReads(w0.store, w.store) && SameSpecs(w.conditions, w0.conditions) &&
    w.errors == w0.errors &&
    forall k :: 0 <= k < i && k < |w.processed| ==> w.processed[k]
  }

  lemma IdleTurn(job: Job, w0: Work, w: Work, i: nat)
    requires Idle(job, w0) && i < |w0.conditions| && Untouched(job, w0, w, i)
    ensures Untouched(job, w0, ProcessOne(job, w, i), i + 1)
  {
    hide Denote, Project, OnlyReads, Proper;
    var name := w.conditions[i].spec.name;
    assert job.observed[i].spec == w.conditions[i].spec;
    FindAppliedProper(job.observed, name, i);
    var s := Log(w.store, ConditionSearch(job.account, job.policyId));
    ReadAgain(w0.store, w.store, ConditionSearch(job.account, job.policyId));
    assert SameRemote(w0.store, s) by { ReadsKeepRemote(w0.store, s); }
    assert Named(s, job.policyId, name) == Named(w0.store, job.policyId, name);
    assert w0.conditions[i].spec.name == name;
  }

  lemma ReadsKeepRemote(s: Store, t: Store)
    requires OnlyReads(s, t)
    ensures SameRemote(s, t)
  {
  }

  lemma {:induction false} IdleLoop(job: Job, w0: Work, i: nat)
    requires Idle(job, w0) && i <= |w0.conditions|
    ensures Untouched(job, w0, ProcessUpTo(job, w0, i), i)
  {
    hide Idle, ProcessOne;
    IdleFits(job, w0);
    if i > 0 {
      IdleLoop(job, w0, i - 1);
      IdleTurn(job, w0, ProcessUpTo(job, w0, i - 1), i - 1);
    }
  }

  lemma IdleFits(job: Job, w0: Work)
    requires Idle(job, w0)
    ensures Fits(job, w0, |w0.conditions|) && |job.observed| == |w0.conditions|
  {
  }

  lemma {:induction false} NothingToDelete(job: Job, listing: Store, w: Work, j: nat)
    requires j <= |job.observed| == |w.processed| && forall k :: 0 <= k < |w.processed| ==> w.processed[k]
    ensures DeleteUpTo(job, listing, w, j) == w
  {
    if j > 0 {
      NothingToDelete(job, listing, w, j - 1);
    }
  }

  lemma HandleReads(p: Policy, s: Store, f: ConditionFaults)
    requires Idle(JobOf(p, f), WorkOf(p, s))
    ensures OnlyReads(s, HandleConditions(p, s, f).store)
    ensures !f.list ==> !HandleConditions(p, s, f).failed
  {
    hide Idle, ProcessUpTo, OnlyReads;
    var job, w0 := JobOf(p, f), WorkOf(p, s);
    IdleLoop(job, w0, |p.spec.conditions|);
    IdleFits(job, w0);
    var w := ProcessUpTo(job, w0, |p.spec.conditions|);
    var v := w.(store := Log(w.store, ConditionSearch(job.account, job.policyId)));
    ReadAgain(s, w.store, ConditionSearch(job.account, job.policyId));
    NothingToDelete(job, v.store, v, |job.observed|);
  }

  /** A further sync of a stored object that is done makes no create, update or delete, whatever policy-level calls
      fail and however its thresholds are written. */
  lemma NextSyncOnlyReads(p: Policy, s: Store, f: Faults)
    requires Done(p.spec, p.status, s) && SearchesSucceed(f.conditions, |p.spec.conditions|) && p.spec.accountId != 0
    ensures OnlyReads(s, Sync(p, s, f).store)
  {
    hide HandleConditions, OnlyReads, AllRemoteConditionsMatch, UpdatePolicy, Proper, AllPresent, CreatePolicy;
    var t := Log(s, PolicyQuery(p.spec.accountId, p.status.policyId));
    var u := Log(t, ConditionSearch(p.spec.accountId, p.status.policyId));
    NoReads(s);
    ReadAgain(s, s, PolicyQuery(p.spec.accountId, p.status.policyId));
    ReadAgain(s, t, ConditionSearch(p.spec.accountId, p.status.policyId));
    assert p.spec.(conditions := []).accountId == p.status.applied.value.(conditions := []).accountId;
    var applied := BuildApplied(p, p.spec.name, p.spec.preference);
    var q := p.(status := p.status.(applied := Some(applied)));
    SamePresent(p.spec.conditions, p.status.policyId, s, u);
    assert Idle(JobOf(q, f.conditions), WorkOf(q, u));
    HandleReads(q, u, f.conditions);
    ReadOnly(s, u, HandleConditions(q, u, f.conditions).store);
  }

  lemma NoReads(s: Store)
    ensures OnlyReads(s, s)
  {
  }

  /** Quiescence: after a sync that is done, the cache check holds for the stored object, and even without it a
      further sync would make no mutating call. */
  lemma SyncQuiesces(p: Policy, s: Store, f: Faults, g: Faults)
    requires Wf(s) && Recorded(p.status, s) && Configurable(p.spec)
    requires !Sync(p, s, f).blocked && !Sync(p, s, f).failed
    requires SearchesSucceed(g.conditions, |p.spec.conditions|)
    ensures var r := Sync(p, s, f);
            MatchesApplied(Policy(p.spec, r.policy.status)) && MatchesApplied(r.policy) &&
            OnlyReads(r.store, Sync(Policy(p.spec, r.policy.status), r.store, g).store)
  {
    hide Sync, Proper, Recorded, OnlyReads, AllPresent;
    SyncIsDone(p, s, f);
    DoneSettles(p, s, f);
    NextSyncOnlyReads(Policy(p.spec, Sync(p, s, f).policy.status), Sync(p, s, f).store, g);
  }
}

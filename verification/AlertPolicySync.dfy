/** One pass of syncRemotePolicy: exactly when what the snapshot says is true of New Relic afterwards. */
module AlertPolicySync {
  import opened Options
  import opened NrqlConditions
  import opened AlertStore
  import opened AlertPolicies
  import opened AlertPolicyConditions
  import opened AlertPolicyRecords

  // ----- A status that is true -----

  ghost predicate AllRealised(os: seq<PolicyCondition>, policy: nat, s: Store) {
    forall j :: 0 <= j < |os| ==> Realised(os[j].spec, policy, s)
  }

  predicate PolicyIs(s: Store, policy: nat, a: PolicySpec) {
    policy in s.policies && s.policies[policy] == RemotePolicy(a.accountId, a.name, a.preference)
  }

  /** As long as the recorded policy exists, it and its conditions are as the snapshot says. */
  ghost predicate Truthful(st: Status, s: Store) {
    st.policyId in s.policies && st.applied.Some? ==>
      PolicyIs(s, st.policyId, st.applied.value) && AllRealised(st.applied.value.conditions, st.policyId, s)
  }

  ghost predicate Sound(st: Status, s: Store) { Recorded(st, s) && Truthful(st, s) }

  lemma SameRealised(os: seq<PolicyCondition>, policy: nat, s: Store, t: Store)
    requires t.conditions == s.conditions
    ensures AllRealised(os, policy, t) <==> AllRealised(os, policy, s)
  {
    hide Denote;
    assert forall n :: Named(s, policy, n) == Named(t, policy, n);
    assert forall j :: 0 <= j < |os| ==> (Realised(os[j].spec, policy, t) <==> Realised(os[j].spec, policy, s));
  }

  /** The Ready condition and calls that change nothing play no part. */
  lemma SoundElsewhere(st: Status, s: Store, t: Store, reason: Reason)
    requires SameRemote(s, t)
    ensures Sound(st.(ready := reason), t) <==> Sound(st, s)
    ensures Sound(st, t) <==> Sound(st, s)
  {
    hide Proper, Realised;
    if st.applied.Some? {
      SameRealised(st.applied.value.conditions, st.policyId, s, t);
    }
  }

  lemma SoundMeans(st: Status, s: Store)
    ensures Sound(st, s) <==> Recorded(st, s) && Truthful(st, s)
  {
  }

  /** The cache check is sound: what it compares with is what is in New Relic. */
  lemma SkipIsSound(p: Policy, s: Store)
    requires Sound(p.status, s) && MatchesApplied(p) && p.status.policyId in s.policies
    ensures PolicyIs(s, p.status.policyId, p.spec)
    ensures AllRealised(p.spec.conditions, p.status.policyId, s)
  {
    hide Recorded, Realised;
    var a := p.status.applied.value;
    HeadsSame(p.spec, a);
    forall k | 0 <= k < |p.spec.conditions|
      ensures Realised(p.spec.conditions[k].spec, p.status.policyId, s)
    {
      assert Realised(a.conditions[k].spec, p.status.policyId, s);
    }
  }

  lemma HeadsSame(a: PolicySpec, b: PolicySpec)
    requires a.(conditions := []) == b.(conditions := [])
    ensures a.name == b.name && a.preference == b.preference && a.accountId == b.accountId
  {
    assert a.(conditions := []).name == a.name && b.(conditions := []).name == b.name;
    assert a.(conditions := []).preference == a.preference && b.(conditions := []).preference == b.preference;
    assert a.(conditions := []).accountId == a.accountId && b.(conditions := []).accountId == b.accountId;
  }

  // ----- Conditions of an existing policy -----

  predicate ConditionCallsSucceed(f: ConditionFaults, n: nat) { SearchesSucceed(f, n) && MutationsSucceed(f, n) }

  lemma CanHandleWhen(p: Policy, s: Store, f: ConditionFaults)
    requires Wf(s) && PolicyReachable(s, p.spec.accountId, p.status.policyId)
    requires ObservedInOrder(p, s) && Proper(p.spec.conditions)
    ensures CanHandle(p, s, f)
  {
  }

  /** No configured condition is taken for up to date without being realised. */
  ghost predicate SkipsAreTrue(job: Job, s: Store, cs: seq<PolicyCondition>) {
    forall k :: 0 <= k < |cs| ==> Skipped(job, s, cs[k].spec) ==> Realised(cs[k].spec, job.policyId, s)
  }

  /** A true snapshot never misleads. */
  lemma TrueSnapshotSkips(job: Job, s: Store, cs: seq<PolicyCondition>)
    requires AllRealised(job.observed, job.policyId, s)
    ensures SkipsAreTrue(job, s, cs)
  {
    hide Realised;
  }

  lemma SameSkips(job: Job, s: Store, t: Store, cs: seq<PolicyCondition>)
    requires t.conditions == s.conditions
    ensures SkipsAreTrue(job, t, cs) <==> SkipsAreTrue(job, s, cs)
  {
    hide Denote, FindApplied;
    assert forall n :: Named(s, job.policyId, n) == Named(t, job.policyId, n);
    assert forall k :: 0 <= k < |cs| ==>
        (Skipped(job, t, cs[k].spec) <==> Skipped(job, s, cs[k].spec)) &&
        (Realised(cs[k].spec, job.policyId, t) <==> Realised(cs[k].spec, job.policyId, s));
  }

  /** When searches, creates and updates succeed, all configured conditions are realised afterwards exactly if none was
      wrongly taken for up to date. */
  lemma HandleTruthIff(p: Policy, s: Store, f: ConditionFaults)
    requires CanHandle(p, s, f) && ConditionCallsSucceed(f, |p.spec.conditions|)
    ensures var r := HandleConditions(p, s, f);
            AllRealised(ObservedConditions(r.policy), p.status.policyId, r.store) <==>
            SkipsAreTrue(JobOf(p, f), s, p.spec.conditions)
  {
    hide HandleConditions, Realised, CanHandle, Skipped;
    HandleConditionsSnapshot(p, s, f);
    var r := HandleConditions(p, s, f);
    forall k | 0 <= k < |p.spec.conditions|
      ensures Realised(ObservedConditions(r.policy)[k].spec, p.status.policyId, r.store) <==>
              (Skipped(JobOf(p, f), s, p.spec.conditions[k].spec) ==>
                 Realised(p.spec.conditions[k].spec, p.status.policyId, s))
    {
      HandleConditionsExact(p, s, f, k);
    }
  }

  /** The conditions compared by name are the applied ones, so each that is there is taken for up to date. */
  lemma UnchangedSkips(p: Policy, s: Store, f: ConditionFaults, k: nat)
    requires !HaveConditionsChanged(p) && AllRemoteConditionsMatch(p, s) && k < |p.spec.conditions|
    requires Proper(p.spec.conditions) && Proper(ObservedConditions(p))
    ensures Skipped(JobOf(p, f), s, p.spec.conditions[k].spec)
  {
    hide Project;
    var name := p.spec.conditions[k].spec.name;
    FindAppliedProper(ObservedConditions(p), name, k);
    assert RemoteConditionMatches(p, s, k);
    assert Identity(p.spec.conditions[k]) == name;
  }

  /** The listing for the comparison fails, and is asked for. */
  predicate ComparisonStops(p: Policy, compareFails: bool) {
    compareFails && !HaveConditionsChanged(p) && p.spec.conditions != []
  }

  /** The snapshot was refreshed for the policy as it is; only its conditions are those applied before. */
  ghost predicate Refreshed(p: Policy, s: Store) {
    AtPolicy(p, s) && ObservedInOrder(p, s) && Proper(p.spec.conditions) && PolicyIs(s, p.status.policyId, p.spec) &&
    p.spec.(conditions := []) == p.status.applied.value.(conditions := [])
  }

  lemma IfNeededTruthIff(p: Policy, s: Store, compareFails: bool, f: ConditionFaults)
    requires Refreshed(p, s) && ConditionCallsSucceed(f, |p.spec.conditions|)
    ensures var r := ReconcileConditionsIfNeeded(p, s, compareFails, f);
            r.policy.status.applied.Some? && PolicyIs(r.store, p.status.policyId, r.policy.status.applied.value) &&
            (AllRealised(ObservedConditions(r.policy), p.status.policyId, r.store) <==>
               if ComparisonStops(p, compareFails) then AllRealised(ObservedConditions(p), p.status.policyId, s)
               else SkipsAreTrue(JobOf(p, f), s, p.spec.conditions))
  {
    hide HandleConditions, AllRemoteConditionsMatch, Wf, Proper, Realised, Skipped, AllIdsOk, Later;
    var t := Log(s, ConditionSearch(p.spec.accountId, p.status.policyId));
    HeadsSame(p.spec, p.status.applied.value);
    SameRealised(ObservedConditions(p), p.status.policyId, s, t);
    SameSkips(JobOf(p, f), s, t, p.spec.conditions);
    if HaveConditionsChanged(p) {
      HandleTruth(p, s, f);
    } else if p.spec.conditions != [] && !compareFails {
      if AllRemoteConditionsMatch(p, s) {
        forall k | 0 <= k < |p.spec.conditions|
          ensures Skipped(JobOf(p, f), s, p.spec.conditions[k].spec)
        {
          UnchangedSkips(p, s, f, k);
        }
        SameSpecsRealised(p.spec.conditions, ObservedConditions(p), p.status.policyId, s);
      } else {
        RefreshedLogged(p, s);
        HandleTruth(p, t, f);
      }
    }
  }

  lemma RefreshedLogged(p: Policy, s: Store)
    requires Refreshed(p, s)
    ensures Refreshed(p, Log(s, ConditionSearch(p.spec.accountId, p.status.policyId)))
  {
    hide Proper, WellFormed;
  }

  lemma SameSpecsRealised(a: seq<PolicyCondition>, b: seq<PolicyCondition>, policy: nat, s: Store)
    requires SameSpecs(a, b)
    ensures AllRealised(a, policy, s) <==> AllRealised(b, policy, s)
  {
    hide Realised;
  }

  lemma HandleTruth(p: Policy, s: Store, f: ConditionFaults)
    requires Refreshed(p, s) && ConditionCallsSucceed(f, |p.spec.conditions|)
    ensures var r := HandleConditions(p, s, f);
            r.policy.status.applied.Some? && PolicyIs(r.store, p.status.policyId, r.policy.status.applied.value) &&
            (AllRealised(ObservedConditions(r.policy), p.status.policyId, r.store) <==>
               SkipsAreTrue(JobOf(p, f), s, p.spec.conditions))
  {
    hide HandleConditions, Realised, Skipped, Proper, Wf, AllIdsOk, CanHandle, Later;
    CanHandleWhen(p, s, f);
    HandleTruthIff(p, s, f);
    HandleRecords(p, s, f);
    HeadsSame(HandleConditions(p, s, f).policy.spec, p.spec);
    InStepMeans(s, HandleConditions(p, s, f).store);
  }

  // ----- An existing policy -----

  /** A call fails before the conditions are dealt with. */
  predicate StopsEarly(p: Policy, remote: RemotePolicy, f: Faults) {
    ((remote.name != p.spec.name || remote.preference != p.spec.preference) && f.updateFails) ||
    ComparisonStops(p, f.compareFails)
  }

  /** What decides whether the snapshot is true once the policy was located. */
  ghost predicate TrueAfter(p: Policy, s: Store, id: nat, f: Faults)
    requires id in s.policies
  {
    if StopsEarly(p, s.policies[id], f) then AllRealised(ObservedConditions(p), id, s)
    else SkipsAreTrue(Job(p.spec.accountId, id, ObservedConditions(p), f.conditions), s, p.spec.conditions)
  }

  ghost predicate Locatable(p: Policy, s: Store, id: nat) {
    Wf(s) && PolicyReachable(s, p.spec.accountId, id) && PreferenceKnown(p.spec.preference) &&
    Proper(p.spec.conditions) && Proper(ObservedConditions(p)) && AllIdsOk(ObservedConditions(p), id, s)
  }

  lemma ExistingTruthIff(p: Policy, s: Store, id: nat, f: Faults)
    requires Locatable(p, s, id) && ConditionCallsSucceed(f.conditions, |p.spec.conditions|)
    ensures var r := SyncExisting(p, s, id, s.policies[id], f);
            Wf(r.store) && r.policy.status.policyId == id && id in r.store.policies &&
            Recorded(r.policy.status, r.store) &&
            (Truthful(r.policy.status, r.store) <==> TrueAfter(p, s, id, f))
  {
    hide ReconcileConditionsIfNeeded, Proper, Realised, SkipsAreTrue, AllIdsOk, Later, WellFormed, AllRealised;
    var remote := s.policies[id];
    var q := p.(status := p.status.(policyId := id, applied := Some(BuildApplied(p, remote.name, remote.preference))));
    NoFaultsInOrder(p.spec.conditions, id, s, f.conditions);
    ExistingKeeps(p, s, id, f);
    var r := SyncExisting(p, s, id, remote, f);
    AtPolicyLocated(r.policy, r.store);
    if remote.name != p.spec.name || remote.preference != p.spec.preference {
      var (t, ok) := UpdatePolicyCall(s, p.spec.accountId, id, p.spec.name, p.spec.preference, f.updateFails);
      SameRealised(ObservedConditions(p), id, s, t);
      SameSkips(Job(p.spec.accountId, id, ObservedConditions(p), f.conditions), s, t, p.spec.conditions);
      if ok {
        var u := q.(status := q.status.(applied := Some(BuildApplied(q, p.spec.name, p.spec.preference))));
        SameConditionsLater(s, t);
        assert u.status.applied.value.(conditions := []) == u.spec.(conditions := []);
        IfNeededTruthIff(u, t, f.compareFails, f.conditions);
      }
    } else {
      assert q.status.applied.value.(conditions := []) == q.spec.(conditions := []);
      IfNeededTruthIff(q, s, f.compareFails, f.conditions);
    }
  }

  lemma NoFaultsInOrder(cs: seq<PolicyCondition>, policy: nat, s: Store, f: ConditionFaults)
    requires ConditionCallsSucceed(f, |cs|)
    ensures IdsInOrderAt(cs, policy, s, f)
  {
  }

  // ----- A new policy -----

  /** After i creates in a policy that had no conditions: exactly those among the first i whose call did not fail are
      there, as specified. */
  ghost predicate Creating(w0: Work, w: Work, policy: nat, i: nat, f: ConditionFaults)
    requires i <= |w0.conditions|
  {
    |w.conditions| == |w0.conditions| && Wf(w.store) &&
    Touches(w0.store, w.store, policy, Names(w0.conditions, i)) &&
    (forall k :: i <= k < |w0.conditions| ==> w.conditions[k] == w0.conditions[k]) &&
    (forall k :: 0 <= k < i ==> (Realised(w0.conditions[k].spec, policy, w.store) <==> !f.mutate(k))) &&
    (forall name :: name !in Names(w0.conditions, i) ==> Named(w.store, policy, name) == {})
  }

  lemma CreateStep(w0: Work, w: Work, account: int, policy: nat, i: nat, f: ConditionFaults)
    requires Proper(w0.conditions) && i < |w0.conditions| && Creating(w0, w, policy, i, f)
    requires PolicyReachable(w0.store, account, policy)
    ensures Creating(w0, CreatePolicyCondition(w, account, policy, i, f), policy, i + 1, f)
  {
    hide Denote, Touches, Wf, Realised, Proper, InSync;
    var spec := w0.conditions[i].spec;
    var r := CreatePolicyCondition(w, account, policy, i, f);
    var names := Names(w0.conditions, i);
    NamesStep(w0.conditions, i);
    TouchesPolicies(w0.store, w.store, policy, names);
    CreateTouches(w.store, account, policy, spec, f.mutate(i));
    TouchesCompose(w0.store, w.store, r.store, policy, names, {spec.name});
    if !f.mutate(i) {
      OnlyNamed(r.store, policy, spec.name, w.store.next);
    }
    RealisedWhen(spec, policy, r.store);
    forall k | 0 <= k < i
      ensures Realised(w0.conditions[k].spec, policy, r.store) <==> !f.mutate(k)
    {
      assert w0.conditions[k].spec.name in names;
      RealisedElsewhere(w.store, r.store, policy, {spec.name}, w0.conditions[k].spec);
    }
    forall name | name !in Names(w0.conditions, i + 1)
      ensures Named(r.store, policy, name) == {}
    {
      TouchesOther(w.store, r.store, policy, {spec.name}, name);
    }
  }

  lemma TouchesPolicies(s: Store, t: Store, policy: nat, names: set<string>)
    requires Touches(s, t, policy, names)
    ensures t.policies == s.policies && t.next >= s.next
  {
  }

  lemma RealisedWhen(spec: ConditionSpec, policy: nat, s: Store)
    ensures Realised(spec, policy, s) <==>
            FirstNamed(s, policy, spec.name).Some? && InSync(s, FirstNamed(s, policy, spec.name).value, spec)
  {
  }

  lemma TouchesNothing(w: Work, policy: nat)
    requires forall c :: c in w.store.conditions ==> w.store.conditions[c].policy != policy
    ensures Names(w.conditions, 0) == {} && Touches(w.store, w.store, policy, {})
    ensures forall name :: Named(w.store, policy, name) == {}
  {
  }

  lemma {:induction false} CreateAll(w: Work, account: int, policy: nat, i: nat, f: ConditionFaults)
    requires Proper(w.conditions) && i <= |w.conditions| && Wf(w.store) && PolicyReachable(w.store, account, policy)
    requires forall c :: c in w.store.conditions ==> w.store.conditions[c].policy != policy
    ensures Creating(w, CreatePolicyConditions(w, account, policy, i, f), policy, i, f)
  {
    hide Denote, Proper, Realised, Touches, Wf;
    if i == 0 {
      TouchesNothing(w, policy);
    } else {
      CreateAll(w, account, policy, i - 1, f);
      CreateStep(w, CreatePolicyConditions(w, account, policy, i - 1, f), account, policy, i - 1, f);
    }
  }

  /** Whatever creates of conditions fail: once the policy is created, a configured condition is realised in it exactly
      if its own create did not fail. */
  lemma CreatePolicyExact(p: Policy, s: Store, f: Faults)
    requires Wf(s) && p.spec.accountId > 0 && Proper(p.spec.conditions) && !f.createFails
    ensures var r := CreatePolicy(p, s, f);
            forall k :: 0 <= k < |p.spec.conditions| ==>
              (Realised(p.spec.conditions[k].spec, s.next, r.store) <==> !f.conditions.mutate(k))
  {
    hide Realised, Denote, CreatePolicyConditions, Touches, Proper, WellFormed;
    var (t, id) := CreatePolicyCall(s, p.spec.accountId, p.spec.name, PreferenceSent(p.spec.preference), false);
    CreateAll(Work(t, p.spec.conditions, [], []), p.spec.accountId, s.next, |p.spec.conditions|, f.conditions);
  }

  /** A policy that was created is recorded with all specs, and with its own name and preference. */
  lemma CreateShape(p: Policy, s: Store, f: Faults)
    requires Wf(s) && p.spec.accountId > 0 && !f.createFails
    ensures var r := CreatePolicy(p, s, f);
            r.policy.status.policyId == s.next && r.policy.status.applied.Some? &&
            PolicyIs(r.store, s.next, r.policy.status.applied.value) &&
            SameSpecs(p.spec.conditions, ObservedConditions(r.policy)) &&
            (Proper(p.spec.conditions) ==> Proper(ObservedConditions(r.policy)))
  {
    hide CreatePolicyConditions, InStep, Proper;
    var (t, id) := CreatePolicyCall(s, p.spec.accountId, p.spec.name, PreferenceSent(p.spec.preference), false);
    var w0 := Work(t, p.spec.conditions, [], []);
    CreatesEnter(w0, p.spec.accountId, s.next, |p.spec.conditions|, f.conditions);
    var w := CreatePolicyConditions(w0, p.spec.accountId, s.next, |p.spec.conditions|, f.conditions);
    InStepMeans(t, w.store);
    if Proper(p.spec.conditions) {
      SameMetadataProper(p.spec.conditions, w.conditions);
    }
  }

  /** So the new status is true exactly if no create of a condition failed. */
  lemma CreateTruthIff(p: Policy, s: Store, f: Faults)
    requires Wf(s) && p.spec.accountId > 0 && Proper(p.spec.conditions) && !f.createFails
    ensures var r := CreatePolicy(p, s, f);
            Truthful(r.policy.status, r.store) <==> MutationsSucceed(f.conditions, |p.spec.conditions|)
  {
    hide Realised, CreatePolicy, Proper, Wf;
    CreatePolicyExact(p, s, f);
    CreateShape(p, s, f);
    var r := CreatePolicy(p, s, f);
    SameSpecsRealised(p.spec.conditions, ObservedConditions(r.policy), s.next, r.store);
  }

  // ----- The whole sync -----

  predicate Configurable(spec: PolicySpec) {
    spec.accountId > 0 && PreferenceKnown(spec.preference) && Proper(spec.conditions)
  }

  /** If a policy is adopted by name, the conditions recorded for an earlier policy do not mislead. */
  ghost predicate AdoptionHarmless(p: Policy, s: Store, f: Faults) {
    var matches := NameMatches(s, p.spec.accountId, p.spec.name);
    p.status.policyId == 0 && f.search == SearchFault.Answered && |matches| == 1 ==>
      TrueAfter(p, s, Least(matches), f)
  }

  lemma SyncByNameSoundIff(p: Policy, s: Store, f: Faults)
    requires Wf(s) && Sound(p.status, s) && Configurable(p.spec) && p.status.policyId == 0
    requires ConditionCallsSucceed(f.conditions, |p.spec.conditions|)
    ensures var r := SyncByName(p, s, f); Sound(r.policy.status, r.store) <==> AdoptionHarmless(p, s, f)
  {
    hide SyncExisting, CreatePolicy, Proper, Later, WellFormed, Recorded, Truthful, TrueAfter, AllIdsOk;
    var t := Log(s, PolicySearch(p.spec.accountId));
    var matches := NameMatches(s, p.spec.accountId, p.spec.name);
    SoundElsewhere(p.status, s, t, AccountAccessDenied);
    SoundElsewhere(p.status, s, t, AmbiguousPolicyName);
    if matches == {} {
      CreateSound(p, t, f);
      FinishSound(CreatePolicy(p, t, f));
    } else if |matches| == 1 {
      var id := Least(matches);
      SyncRecorded(p, s);
      ObservedAreGone(p, s, id);
      SameConditionsLater(s, t);
      ExistingTruthIff(p, t, id, f);
      SameTrueAfter(p, s, t, id, f);
    }
  }

  lemma SyncRecorded(p: Policy, s: Store)
    requires Sound(p.status, s)
    ensures ObservedInOrder(p, s) && Located(p.status, s)
    ensures p.status.policyId in s.policies ==> AllRealised(ObservedConditions(p), p.status.policyId, s)
  {
    hide Proper, Realised;
    RecordedObserved(p, s);
  }

  lemma SameTrueAfter(p: Policy, s: Store, t: Store, id: nat, f: Faults)
    requires id in s.policies && t.policies == s.policies && t.conditions == s.conditions
    ensures TrueAfter(p, t, id, f) <==> TrueAfter(p, s, id, f)
  {
    hide Realised, AllRealised, SkipsAreTrue;
    SameRealised(ObservedConditions(p), id, s, t);
    SameSkips(Job(p.spec.accountId, id, ObservedConditions(p), f.conditions), s, t, p.spec.conditions);
  }

  lemma CreateSound(p: Policy, s: Store, f: Faults)
    requires Wf(s) && Sound(p.status, s) && Configurable(p.spec)
    requires MutationsSucceed(f.conditions, |p.spec.conditions|) && IdsInOrderAt(p.spec.conditions, 0, s, f.conditions)
    ensures var r := CreatePolicy(p, s, f); Sound(r.policy.status, r.store)
  {
    hide CreatePolicy, Proper, Later, Truthful, AllIdsOk, WellFormed;
    CreateKeeps(p, s, f);
    var r := CreatePolicy(p, s, f);
    if f.createFails {
      CreateFailsIsLog(p, s, f);
      SoundElsewhere(p.status, s, r.store, Synced);
    } else {
      CreateTruthIff(p, s, f);
      AtPolicyLocated(r.policy, r.store);
    }
  }

  lemma FinishSound(r: Result)
    requires Sound(r.policy.status, r.store)
    ensures Sound(Finish(r).policy.status, Finish(r).store)
  {
    hide Sound;
    SoundElsewhere(r.policy.status, r.store, r.store, Synced);
  }

  lemma SyncByIdSound(p: Policy, s: Store, f: Faults)
    requires Wf(s) && Sound(p.status, s) && Configurable(p.spec) && p.status.policyId != 0 && !AccountChanged(p)
    requires ConditionCallsSucceed(f.conditions, |p.spec.conditions|)
    ensures var r := Sync(p, s, f); Sound(r.policy.status, r.store)
  {
    hide SyncExisting, CreatePolicy, Proper, Later, WellFormed, Recorded, Truthful, AllIdsOk, AllRealised, SkipsAreTrue;
    var t := Log(s, PolicyQuery(p.spec.accountId, p.status.policyId));
    SoundElsewhere(p.status, s, t, AccountAccessDenied);
    SyncRecorded(p, s);
    SameConditionsLater(s, t);
    if p.status.policyId in s.policies {
      PolicyIsReachable(p, s);
      ExistingTruthIff(p, t, p.status.policyId, f);
      SameRealised(ObservedConditions(p), p.status.policyId, s, t);
      TrueSnapshotSkips(Job(p.spec.accountId, p.status.policyId, ObservedConditions(p), f.conditions), t,
                        p.spec.conditions);
    } else {
      ForgottenIsSound(p.status, t);
      ForgottenConditions(p, t, f.conditions);
      CreateSound(ForgetPolicy(p), t, f);
      FinishSound(CreatePolicy(ForgetPolicy(p), t, f));
    }
  }

  lemma ForgottenIsSound(st: Status, s: Store)
    requires Wf(s) && Sound(st, s) && st.policyId !in s.policies
    ensures Sound(st.(policyId := 0), s)
  {
    hide Proper, WellFormed, Recorded, Realised;
    SoundMeans(st, s);
    RecordedLocated(st, s);
    ForgottenIsRecorded(st, s);
  }

  lemma RecordedLocated(st: Status, s: Store)
    requires Recorded(st, s)
    ensures Located(st, s)
  {
  }

  /** Whatever the policy-level calls do: from a sound status, a sync whose condition calls succeed leaves a sound one
      exactly if it does not adopt a policy over conditions that mislead. */
  lemma SyncSoundIff(p: Policy, s: Store, f: Faults)
    requires Wf(s) && Sound(p.status, s) && Configurable(p.spec)
    requires ConditionCallsSucceed(f.conditions, |p.spec.conditions|)
    ensures var r := Sync(p, s, f); Sound(r.policy.status, r.store) <==> AdoptionHarmless(p, s, f)
  {
    hide Sound, SyncByName, CreatePolicy, Proper, SyncExisting, Wf, TrueAfter;
    if AccountChanged(p) {
      SoundElsewhere(p.status, s, s, AccountIDChanged);
    } else if p.status.policyId == 0 {
      SyncByNameSoundIff(p, s, f);
    } else {
      SyncByIdSound(p, s, f);
    }
  }

  /** The same for the status that a whole reconcile writes. */
  lemma ReconcileKeepsSound(p: Policy, s: Store, f: Faults)
    requires Wf(s) && Sound(p.status, s) && Configurable(p.spec)
    requires ConditionCallsSucceed(f.conditions, |p.spec.conditions|) && AdoptionHarmless(p, s, f)
    ensures var (st, t) := ReconcileStatus(p, s, f); Wf(t) && Sound(st, t) && Later(s, t)
  {
    hide Wf, Sound, Sync, MatchesApplied, AdoptionHarmless, Later;
    SyncSoundIff(p, s, f);
    SoundElsewhere(p.status, s, s, Synced);
    SoundLocated(p.status, s);
    ReconcileKeepsRecords(p, s, f);
    var st := Sync(p, s, f).policy.status;
    if st.applied.None? {
      EmptyIsSound(st, Sync(p, s, f).store);
    }
  }

  lemma SoundLocated(st: Status, s: Store)
    requires Sound(st, s)
    ensures Located(st, s) && Recorded(st, s)
  {
  }

  lemma EmptyIsSound(st: Status, s: Store)
    requires Sound(st, s) && st.applied.None?
    ensures Sound(st.(applied := Some(EMPTY_SPEC)), s)
  {
  }
}

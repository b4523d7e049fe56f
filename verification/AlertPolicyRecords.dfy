/** What the recorded status keeps whatever calls fail: it locates the policy, and the recorded IDs are not those of
    other things. */
module AlertPolicyRecords {
  import opened Options
  import opened NrqlConditions
  import opened AlertStore
  import opened AlertPolicies
  import opened AlertPolicyConditions

  // ----- Stores that come later -----

  /** No ID is reused, and no condition that is still there was moved or renamed. */
  ghost predicate Later(s: Store, t: Store) {
    t.next >= s.next &&
    forall c :: c in t.conditions && c < s.next ==>
                  c in s.conditions && t.conditions[c].policy == s.conditions[c].policy &&
                  t.conditions[c].content.name == s.conditions[c].content.name
  }

  lemma LaterStill(s: Store, t: Store, u: Store)
    requires Later(s, t) && Later(t, u)
    ensures Later(s, u)
  {
  }

  lemma IdOkStays(o: PolicyCondition, policy: nat, s: Store, t: Store)
    requires IdOk(o, policy, s) && Later(s, t)
    ensures IdOk(o, policy, t)
  {
  }

  lemma AllIdsOkStay(os: seq<PolicyCondition>, policy: nat, s: Store, t: Store)
    requires AllIdsOk(os, policy, s) && Later(s, t)
    ensures AllIdsOk(os, policy, t)
  {
    hide Later, IdOk;
    forall j | 0 <= j < |os|
      ensures IdOk(os[j], policy, t)
    {
      IdOkStays(os[j], policy, s, t);
    }
  }

  // ----- handleConditions -----

  /** The policies are the same and the store is in order. */
  ghost predicate InStep(s: Store, t: Store) { Wf(t) && t.policies == s.policies && Later(s, t) }

  lemma InStepStill(s: Store, t: Store, u: Store)
    requires InStep(s, t) && InStep(t, u)
    ensures InStep(s, u)
  {
    hide Wf, Later;
    LaterStill(s, t, u);
  }

  lemma LogInStep(s: Store, c: Call)
    requires Wf(s)
    ensures InStep(s, Log(s, c))
  {
    hide WellFormed;
  }

  lemma CreateInStep(s: Store, account: int, policy: nat, spec: ConditionSpec, fails: bool)
    requires Wf(s)
    ensures var (t, id) := CreateConditionCall(s, account, policy, Denote(spec), fails);
            InStep(s, t) && (id.None? <==> fails || !PolicyReachable(s, account, policy)) &&
            (id.Some? ==> id.value < t.next && id.value in t.conditions && t.conditions[id.value].policy == policy &&
                          t.conditions[id.value].content.name == spec.name)
  {
    DenoteWellFormed(spec);
    hide Denote, WellFormed;
  }

  lemma UpdateInStep(s: Store, account: int, id: nat, spec: ConditionSpec, fails: bool)
    requires Wf(s) && id in s.conditions && s.conditions[id].content.name == spec.name
    ensures var (t, ok) := UpdateConditionCall(s, account, id, Denote(spec), fails);
            InStep(s, t) && (ok <==> !fails && ConditionReachable(s, account, id)) && id in t.conditions
  {
    DenoteWellFormed(spec);
    hide Denote, WellFormed;
  }

  lemma DeleteInStep(s: Store, account: int, id: nat, fails: bool)
    requires Wf(s)
    ensures InStep(s, DeleteConditionCall(s, account, id, fails).0)
  {
    hide WellFormed;
  }

  /** What a turn does to its entry: it stays as configured, or it has the ID of a condition of its name. */
  ghost predicate Entered(job: Job, w: Work, r: Work, i: nat)
    requires i < |w.conditions|
  {
    var c := w.conditions[i];
    |r.conditions| == |w.conditions| &&
    var d := r.conditions[i];
    r.conditions == w.conditions[i := d] && SameUpToMetadata(c, d) &&
    (d == c || IdOk(d, job.policyId, r.store)) &&
    (!job.f.search(i) && !job.f.mutate(i) && PolicyReachable(w.store, job.account, job.policyId) ==>
       IdOk(d, job.policyId, r.store))
  }

  lemma TurnEnters(job: Job, w: Work, i: nat)
    requires i < |w.conditions| && |w.processed| == |job.observed| && Wf(w.store)
    ensures var r := ProcessOne(job, w, i); InStep(w.store, r.store) && Entered(job, w, r, i)
  {
    hide Denote, Project, InStep, CreateConditionCall, UpdateConditionCall, WellFormed, FindApplied;
    var c := w.conditions[i];
    var s := Log(w.store, ConditionSearch(job.account, job.policyId));
    var r := ProcessOne(job, w, i);
    LogInStep(w.store, ConditionSearch(job.account, job.policyId));
    assert Wf(s) && s.next == w.store.next && s.conditions == w.store.conditions && s.policies == w.store.policies;
    var existing := FirstListed(s, job.account, job.policyId, c.spec.name);
    if existing.None? {
      CreateInStep(s, job.account, job.policyId, c.spec, job.f.mutate(i));
      InStepNext(s, CreateConditionCall(s, job.account, job.policyId, Denote(c.spec), job.f.mutate(i)).0);
    } else {
      assert existing.value in Named(s, job.policyId, c.spec.name);
      UpdateInStep(s, job.account, existing.value, c.spec, job.f.mutate(i));
      InStepNext(s, UpdateConditionCall(s, job.account, existing.value, Denote(c.spec), job.f.mutate(i)).0);
    }
    if r.store != s {
      InStepStill(w.store, s, r.store);
    }
  }

  lemma InStepNext(s: Store, t: Store)
    requires InStep(s, t) && Wf(s)
    ensures t.next >= s.next
    ensures forall c :: c in s.conditions && c in t.conditions ==>
              t.conditions[c].policy == s.conditions[c].policy &&
              t.conditions[c].content.name == s.conditions[c].content.name
  {
    hide WellFormed;
  }

  lemma InStepMeans(s: Store, t: Store)
    requires InStep(s, t)
    ensures Wf(t) && t.policies == s.policies && Later(s, t) && t.next >= s.next
  {
  }

  /** The IDs the user configured are in order wherever a call may fail. A blank ID always is. */
  ghost predicate IdsInOrderAt(cs: seq<PolicyCondition>, policy: nat, s: Store, f: ConditionFaults) {
    forall k :: 0 <= k < |cs| && FailsAt(f, k) ==> IdOk(cs[k], policy, s)
  }

  /** The first entries of the loop: as configured, or with an ID in order; the rest untouched. */
  ghost predicate EnteredUpTo(job: Job, w0: Work, w: Work, i: nat)
    requires i <= |w0.conditions|
  {
    Fits(job, w, |w0.conditions|) && InStep(w0.store, w.store) &&
    (forall k :: i <= k < |w0.conditions| ==> w.conditions[k] == w0.conditions[k]) &&
    forall k :: 0 <= k < i ==>
      SameUpToMetadata(w0.conditions[k], w.conditions[k]) &&
      (w.conditions[k] == w0.conditions[k] || IdOk(w.conditions[k], job.policyId, w.store)) &&
      (!FailsAt(job.f, k) && PolicyReachable(w0.store, job.account, job.policyId) ==>
         IdOk(w.conditions[k], job.policyId, w.store))
  }

  lemma {:induction false} LoopEnters(job: Job, w0: Work, i: nat)
    requires i <= |w0.conditions| && Fits(job, w0, |w0.conditions|) && Wf(w0.store)
    ensures EnteredUpTo(job, w0, ProcessUpTo(job, w0, i), i)
  {
    hide ProcessOne, InStep, IdOk, Wf, Later;
    if i == 0 {
      Unmoved(w0.store);
    } else {
      LoopEnters(job, w0, i - 1);
      var w := ProcessUpTo(job, w0, i - 1);
      var r := ProcessOne(job, w, i - 1);
      InStepMeans(w0.store, w.store);
      TurnEnters(job, w, i - 1);
      InStepStill(w0.store, w.store, r.store);
      InStepMeans(w.store, r.store);
      forall k | 0 <= k < i - 1 && IdOk(w.conditions[k], job.policyId, w.store)
        ensures IdOk(r.conditions[k], job.policyId, r.store)
      {
        IdOkStays(w.conditions[k], job.policyId, w.store, r.store);
      }
    }
  }

  lemma Unmoved(s: Store)
    requires Wf(s)
    ensures InStep(s, s)
  {
    hide WellFormed;
  }

  lemma {:induction false} DeletesInStep(job: Job, listing: Store, w: Work, n: nat)
    requires n <= |job.observed| == |w.processed| && Wf(w.store)
    ensures InStep(w.store, DeleteUpTo(job, listing, w, n).store)
  {
    hide InStep, DeleteTarget, DeleteConditionCall, Wf;
    if n == 0 {
      Unmoved(w.store);
    } else {
      DeletesInStep(job, listing, w, n - 1);
      var r := DeleteUpTo(job, listing, w, n - 1);
      InStepMeans(w.store, r.store);
      DeleteInStep(r.store, job.account, DeleteTarget(job, listing, n - 1), job.f.delete(n - 1));
      Unmoved(r.store);
      InStepStill(w.store, r.store, DeleteUpTo(job, listing, w, n).store);
    }
  }

  lemma HandleInStep(p: Policy, s: Store, f: ConditionFaults)
    requires Wf(s)
    ensures InStep(s, HandleConditions(p, s, f).store)
    ensures InStep(AfterLoop(p, s, f).store, HandleConditions(p, s, f).store)
    ensures EnteredUpTo(JobOf(p, f), WorkOf(p, s), AfterLoop(p, s, f), |p.spec.conditions|)
  {
    hide InStep, ProcessUpTo, DeleteUpTo, Wf;
    var job, w0 := JobOf(p, f), WorkOf(p, s);
    LoopEnters(job, w0, |p.spec.conditions|);
    var w := AfterLoop(p, s, f);
    InStepMeans(s, w.store);
    Unmoved(w.store);
    var v := w.(store := Log(w.store, ConditionSearch(job.account, job.policyId)));
    LogInStep(w.store, ConditionSearch(job.account, job.policyId));
    InStepMeans(w.store, v.store);
    DeletesInStep(job, v.store, v, |job.observed|);
    InStepStill(w.store, v.store, DeleteUpTo(job, v.store, v, |job.observed|).store);
    InStepStill(s, w.store, HandleConditions(p, s, f).store);
  }

  /** The new snapshot, whatever calls fail: proper names if the configured ones are, and IDs in order if those the user
      configured are wherever a call fails. */
  lemma HandleRecords(p: Policy, s: Store, f: ConditionFaults)
    requires Wf(s)
    ensures var r := HandleConditions(p, s, f);
            InStep(s, r.store) &&
            r.policy.spec == p.spec.(conditions := r.policy.spec.conditions) &&
            r.policy.status == p.status.(applied := Some(r.policy.spec)) &&
            (Proper(p.spec.conditions) ==> Proper(r.policy.spec.conditions)) &&
            (PolicyReachable(s, p.spec.accountId, p.status.policyId) &&
             IdsInOrderAt(p.spec.conditions, p.status.policyId, s, f) ==>
               AllIdsOk(r.policy.spec.conditions, p.status.policyId, r.store))
  {
    hide InStep, ProcessUpTo, DeletePhase, Wf, Later, IdOk, Proper;
    HandleInStep(p, s, f);
    var r, w := HandleConditions(p, s, f), AfterLoop(p, s, f);
    InStepMeans(s, w.store);
    InStepMeans(w.store, r.store);
    assert r.policy.spec.conditions == w.conditions;
    if Proper(p.spec.conditions) {
      SameMetadataProper(p.spec.conditions, w.conditions);
    }
    if PolicyReachable(s, p.spec.accountId, p.status.policyId) &&
        IdsInOrderAt(p.spec.conditions, p.status.policyId, s, f) {
      forall k | 0 <= k < |w.conditions|
        ensures IdOk(w.conditions[k], p.status.policyId, r.store)
      {
        if w.conditions[k] == p.spec.conditions[k] && FailsAt(f, k) {
          IdOkStays(w.conditions[k], p.status.policyId, s, w.store);
        }
        IdOkStays(w.conditions[k], p.status.policyId, w.store, r.store);
      }
    }
  }

  lemma SameMetadataProper(a: seq<PolicyCondition>, b: seq<PolicyCondition>)
    requires Proper(a) && |b| == |a| && forall k :: 0 <= k < |a| ==> SameUpToMetadata(a[k], b[k])
    ensures Proper(b)
  {
  }

  // ----- The recorded status -----

  /** An ID comes with a snapshot, and the snapshot has the account of the policy. */
  ghost predicate Located(st: Status, s: Store) {
    st.policyId < s.next &&
    (st.policyId != 0 ==> st.applied.Some?) &&
    (st.policyId in s.policies ==> st.applied.Some? && s.policies[st.policyId].account == st.applied.value.accountId)
  }

  /** Besides, applied names are proper, and recorded IDs were handed out and are not those of other things. */
  ghost predicate Recorded(st: Status, s: Store) {
    Located(st, s) &&
    (st.applied.Some? ==>
       Proper(st.applied.value.conditions) && AllIdsOk(st.applied.value.conditions, st.policyId, s))
  }

  /** The policy a sync works on: the recorded one, else the one match by name. */
  ghost function WorksOn(p: Policy, s: Store): nat {
    var matches := NameMatches(s, p.spec.accountId, p.spec.name);
    if p.status.policyId != 0 then p.status.policyId else if |matches| == 1 then Least(matches) else 0
  }

  ghost predicate IdsInOrder(p: Policy, s: Store, f: Faults) {
    IdsInOrderAt(p.spec.conditions, WorksOn(p, s), s, f.conditions)
  }

  /** The resource stands for a policy of its account. */
  ghost predicate AtPolicy(p: Policy, s: Store) {
    Wf(s) && PolicyReachable(s, p.spec.accountId, p.status.policyId) && p.status.applied.Some? &&
    p.status.applied.value.accountId == p.spec.accountId
  }

  ghost predicate ObservedInOrder(p: Policy, s: Store) {
    Proper(ObservedConditions(p)) && AllIdsOk(ObservedConditions(p), p.status.policyId, s)
  }

  lemma AtPolicyLocated(p: Policy, s: Store)
    requires AtPolicy(p, s)
    ensures Located(p.status, s) && (ObservedInOrder(p, s) ==> Recorded(p.status, s))
  {
    hide WellFormed;
  }

  /** What every stage that works on a policy keeps, and, given names and IDs in order, keeps in order. */
  ghost predicate Keeps(p: Policy, s: Store, r: Result, f: ConditionFaults) {
    AtPolicy(r.policy, r.store) && Later(s, r.store) && r.policy.status.policyId == p.status.policyId &&
    r.policy.spec == p.spec.(conditions := r.policy.spec.conditions) &&
    (ObservedInOrder(p, s) && Proper(p.spec.conditions) && IdsInOrderAt(p.spec.conditions, p.status.policyId, s, f) ==>
       ObservedInOrder(r.policy, r.store))
  }

  lemma HandleKeeps(p: Policy, s: Store, f: ConditionFaults)
    requires AtPolicy(p, s)
    ensures Keeps(p, s, HandleConditions(p, s, f), f)
  {
    hide HandleConditions, Proper, IdOk, WellFormed;
    HandleRecords(p, s, f);
    InStepMeans(s, HandleConditions(p, s, f).store);
  }

  lemma SameConditionsLater(s: Store, t: Store)
    requires t.conditions == s.conditions && t.next >= s.next && Wf(s)
    ensures Later(s, t)
    ensures forall os, policy :: AllIdsOk(os, policy, s) ==> AllIdsOk(os, policy, t)
    ensures forall cs, policy, f :: IdsInOrderAt(cs, policy, s, f) ==> IdsInOrderAt(cs, policy, t, f)
  {
    hide WellFormed;
  }

  lemma IfNeededKeeps(p: Policy, s: Store, compareFails: bool, f: ConditionFaults)
    requires AtPolicy(p, s)
    ensures Keeps(p, s, ReconcileConditionsIfNeeded(p, s, compareFails, f), f)
  {
    hide HandleConditions, AllRemoteConditionsMatch, HaveConditionsChanged, ShouldReconcileConditions, Proper, AllIdsOk,
         IdsInOrderAt, Later, WellFormed;
    var t := Log(s, ConditionSearch(p.spec.accountId, p.status.policyId));
    SameConditionsLater(s, t);
    SameConditionsLater(s, s);
    LogInStep(s, ConditionSearch(p.spec.accountId, p.status.policyId));
    HandleKeeps(p, s, f);
    HandleKeeps(p, t, f);
    LaterStill(s, t, HandleConditions(p, t, f).store);
  }

  lemma UpdateKeeps(p: Policy, s: Store, f: Faults)
    requires AtPolicy(p, s)
    ensures Keeps(p, s, UpdatePolicy(p, s, f), f.conditions)
  {
    hide ReconcileConditionsIfNeeded, Proper, AllIdsOk, IdsInOrderAt, Later, WellFormed;
    var preference := PreferenceSent(p.spec.preference);
    var (t, ok) := UpdatePolicyCall(s, p.spec.accountId, p.status.policyId, p.spec.name, preference, f.updateFails);
    SameConditionsLater(s, t);
    if ok {
      var q := p.(status := p.status.(applied := Some(BuildApplied(p, p.spec.name, preference))));
      IfNeededKeeps(q, t, f.compareFails, f.conditions);
      LaterStill(s, t, UpdatePolicy(p, s, f).store);
    }
  }

  /** What a sync that located a policy leaves. */
  ghost predicate Kept(p: Policy, s: Store, r: SyncResult, id: nat, f: ConditionFaults) {
    AtPolicy(r.policy, r.store) && Later(s, r.store) && r.policy.status.policyId == id &&
    (Proper(ObservedConditions(p)) && AllIdsOk(ObservedConditions(p), id, s) && Proper(p.spec.conditions) &&
     IdsInOrderAt(p.spec.conditions, id, s, f) ==>
       ObservedInOrder(r.policy, r.store))
  }

  lemma ExistingKeeps(p: Policy, s: Store, id: nat, f: Faults)
    requires Wf(s) && PolicyReachable(s, p.spec.accountId, id)
    ensures Kept(p, s, SyncExisting(p, s, id, s.policies[id], f), id, f.conditions)
  {
    hide ReconcileConditionsIfNeeded, UpdatePolicy, Proper, AllIdsOk, IdsInOrderAt, Later, WellFormed;
    var remote := s.policies[id];
    var q := p.(status := p.status.(policyId := id, applied := Some(BuildApplied(p, remote.name, remote.preference))));
    UpdateKeeps(q, s, f);
    IfNeededKeeps(q, s, f.compareFails, f.conditions);
  }

  // ----- A new policy -----

  ghost predicate CreatedUpTo(w0: Work, w: Work, policy: nat, i: nat, f: ConditionFaults)
    requires i <= |w0.conditions|
  {
    |w.conditions| == |w0.conditions| && InStep(w0.store, w.store) &&
    (forall k :: i <= k < |w0.conditions| ==> w.conditions[k] == w0.conditions[k]) &&
    forall k :: 0 <= k < i ==>
      SameUpToMetadata(w0.conditions[k], w.conditions[k]) &&
      ((w.conditions[k] == w0.conditions[k] && f.mutate(k)) || IdOk(w.conditions[k], policy, w.store))
  }

  lemma CreateEnters(w: Work, account: int, policy: nat, i: nat, f: ConditionFaults)
    requires i < |w.conditions| && Wf(w.store) && PolicyReachable(w.store, account, policy)
    ensures var r := CreatePolicyCondition(w, account, policy, i, f);
            InStep(w.store, r.store) && |r.conditions| == |w.conditions| &&
            r.conditions == w.conditions[i := r.conditions[i]] &&
            SameUpToMetadata(w.conditions[i], r.conditions[i]) &&
            ((r.conditions[i] == w.conditions[i] && f.mutate(i)) || IdOk(r.conditions[i], policy, r.store))
  {
    hide InStep, CreateConditionCall, Denote, WellFormed;
    var c := w.conditions[i];
    CreateInStep(w.store, account, policy, c.spec, f.mutate(i));
    var (t, id) := CreateConditionCall(w.store, account, policy, Denote(c.spec), f.mutate(i));
    var r := CreatePolicyCondition(w, account, policy, i, f);
    assert r.store == t;
    if id.Some? {
      assert r.conditions[i] == c.(name := c.spec.name, id := id.value);
    } else {
      assert f.mutate(i);
    }
  }

  lemma {:induction false} CreatesEnter(w0: Work, account: int, policy: nat, i: nat, f: ConditionFaults)
    requires i <= |w0.conditions| && Wf(w0.store) && PolicyReachable(w0.store, account, policy)
    ensures CreatedUpTo(w0, CreatePolicyConditions(w0, account, policy, i, f), policy, i, f)
  {
    hide InStep, IdOk, Wf, Later, CreatePolicyCondition;
    Unmoved(w0.store);
    if i > 0 {
      CreatesEnter(w0, account, policy, i - 1, f);
      var w := CreatePolicyConditions(w0, account, policy, i - 1, f);
      var r := CreatePolicyCondition(w, account, policy, i - 1, f);
      InStepMeans(w0.store, w.store);
      CreateEnters(w, account, policy, i - 1, f);
      InStepStill(w0.store, w.store, r.store);
      InStepMeans(w.store, r.store);
      forall k | 0 <= k < i - 1 && IdOk(w.conditions[k], policy, w.store)
        ensures IdOk(r.conditions[k], policy, r.store)
      {
        IdOkStays(w.conditions[k], policy, w.store, r.store);
      }
    }
  }

  /** Created with an ID that was free everywhere, the new policy has no clash with what was recorded or configured. */
  lemma GoneIsOk(o: PolicyCondition, policy: nat, s: Store)
    requires Wf(s) && IdOk(o, 0, s)
    ensures IdOk(o, policy, s)
  {
    hide WellFormed;
  }

  lemma CreateKeeps(p: Policy, s: Store, f: Faults)
    requires Wf(s) && p.spec.accountId > 0
    ensures var r := CreatePolicy(p, s, f);
            Wf(r.store) && Later(s, r.store) &&
            if f.createFails then r.policy == p && r.store.policies == s.policies
            else
              AtPolicy(r.policy, r.store) && r.policy.status.policyId == s.next &&
              (Proper(p.spec.conditions) && IdsInOrderAt(p.spec.conditions, 0, s, f.conditions) ==>
                 ObservedInOrder(r.policy, r.store))
  {
    hide CreatePolicyConditions, Proper, IdOk, InStep, WellFormed;
    var preference := PreferenceSent(p.spec.preference);
    var (t, id) := CreatePolicyCall(s, p.spec.accountId, p.spec.name, preference, f.createFails);
    SameConditionsLater(s, t);
    if id.Some? {
      var w0 := Work(t, p.spec.conditions, [], []);
      CreatesEnter(w0, p.spec.accountId, s.next, |p.spec.conditions|, f.conditions);
      var w := CreatePolicyConditions(w0, p.spec.accountId, s.next, |p.spec.conditions|, f.conditions);
      InStepMeans(t, w.store);
      LaterStill(s, t, w.store);
      if Proper(p.spec.conditions) {
        SameMetadataProper(p.spec.conditions, w.conditions);
      }
      if IdsInOrderAt(p.spec.conditions, 0, s, f.conditions) {
        forall k | 0 <= k < |w.conditions|
          ensures IdOk(w.conditions[k], s.next, w.store)
        {
          if w.conditions[k] == p.spec.conditions[k] && f.conditions.mutate(k) {
            assert FailsAt(f.conditions, k);
            GoneIsOk(w.conditions[k], s.next, s);
            IdOkStays(w.conditions[k], s.next, s, w.store);
          }
        }
      }
    }
  }

  // ----- The whole sync -----

  lemma LocatedElsewhere(st: Status, s: Store, t: Store, reason: Reason)
    requires t.policies == s.policies && t.conditions == s.conditions && t.next >= s.next
    requires Located(st, s)
    ensures Located(st.(ready := reason), t) && Located(st, t)
    ensures Recorded(st, s) ==> Recorded(st.(ready := reason), t) && Recorded(st, t)
  {
    hide Proper;
  }

  lemma AnyReason(p: Policy, s: Store, reason: Reason)
    requires AtPolicy(p, s)
    ensures Located(p.status.(ready := reason), s)
    ensures ObservedInOrder(p, s) ==> Recorded(p.status.(ready := reason), s)
  {
    hide Proper, Wf;
    AtPolicyLocated(p, s);
  }

  /** Once the recorded policy is gone the recorded conditions are gone too, so forgetting its ID is in order. */
  lemma ForgottenIsRecorded(st: Status, s: Store)
    requires Wf(s) && Located(st, s) && st.policyId !in s.policies
    ensures Located(st.(policyId := 0), s)
    ensures Recorded(st, s) ==> Recorded(st.(policyId := 0), s)
  {
    hide Proper, WellFormed;
  }

  lemma ForgottenConditions(p: Policy, s: Store, f: ConditionFaults)
    requires Wf(s)
    ensures IdsInOrderAt(ForgetPolicy(p).spec.conditions, 0, s, f)
    ensures Proper(p.spec.conditions) ==> Proper(ForgetPolicy(p).spec.conditions)
  {
    hide WellFormed;
  }

  /** With a blank policy ID no recorded condition is live, so they clash with no policy. */
  lemma ObservedAreGone(p: Policy, s: Store, id: nat)
    requires Wf(s) && p.status.policyId == 0 && AllIdsOk(ObservedConditions(p), 0, s)
    ensures AllIdsOk(ObservedConditions(p), id, s)
  {
    hide WellFormed;
  }

  ghost predicate SyncKeeps(p: Policy, s: Store, f: Faults, r: SyncResult) {
    Wf(r.store) && Later(s, r.store) && Located(r.policy.status, r.store) &&
    (Recorded(p.status, s) && Proper(p.spec.conditions) && IdsInOrder(p, s, f) ==> Recorded(r.policy.status, r.store))
  }

  lemma KeptIsKept(p: Policy, s: Store, t: Store, r: SyncResult, f: Faults)
    requires Wf(s) && Wf(t) && t.conditions == s.conditions && t.next >= s.next
    requires Kept(p, t, r, WorksOn(p, s), f.conditions)
    ensures SyncKeeps(p, s, f, r)
  {
    hide Proper, Later, Wf, IdOk, AtPolicy, WorksOn;
    SameConditionsLater(s, t);
    LaterStill(s, t, r.store);
    AtPolicyLocated(r.policy, r.store);
    assert Wf(r.store) by { AtPolicyWf(r.policy, r.store); }
    if Recorded(p.status, s) {
      RecordedObserved(p, s);
      if p.status.policyId == 0 {
        ObservedAreGone(p, s, WorksOn(p, s));
      }
      WorksOnRecorded(p, s);
    }
  }

  lemma AtPolicyWf(p: Policy, s: Store)
    requires AtPolicy(p, s)
    ensures Wf(s)
  {
  }

  lemma WorksOnRecorded(p: Policy, s: Store)
    ensures p.status.policyId != 0 ==> WorksOn(p, s) == p.status.policyId
  {
  }

  lemma SyncByNameKeeps(p: Policy, s: Store, f: Faults)
    requires Wf(s) && Located(p.status, s) && p.spec.accountId > 0 && p.status.policyId == 0
    ensures SyncKeeps(p, s, f, SyncByName(p, s, f))
  {
    hide SyncExisting, CreatePolicy, Proper, Later, Wf, AllIdsOk, IdsInOrderAt, AtPolicy, Located, Recorded;
    var t := Log(s, PolicySearch(p.spec.accountId));
    var matches := NameMatches(s, p.spec.accountId, p.spec.name);
    LogInStep(s, PolicySearch(p.spec.accountId));
    InStepMeans(s, t);
    SameConditionsLater(s, t);
    LocatedElsewhere(p.status, s, t, AccountAccessDenied);
    LocatedElsewhere(p.status, s, t, AmbiguousPolicyName);
    if f.search == SearchFault.Answered {
      if matches == {} {
        CreateKeeps(p, t, f);
        var r := CreatePolicy(p, t, f);
        LaterStill(s, t, r.store);
        if f.createFails {
          CreateFailsIsLog(p, t, f);
          LocatedElsewhere(p.status, t, r.store, Synced);
        } else {
          AtPolicyLocated(r.policy, r.store);
          AnyReason(r.policy, r.store, Synced);
        }
      } else if |matches| == 1 {
        var id := Least(matches);
        assert WorksOn(p, s) == id;
        ExistingKeeps(p, t, id, f);
        KeptIsKept(p, s, t, SyncExisting(p, t, id, s.policies[id], f), f);
      }
    }
  }

  lemma CreateFailsIsLog(p: Policy, s: Store, f: Faults)
    requires f.createFails
    ensures CreatePolicy(p, s, f).store == Log(s, PolicyCreate(p.spec.accountId))
  {
  }

  lemma RecordedObserved(p: Policy, s: Store)
    requires Recorded(p.status, s)
    ensures ObservedInOrder(p, s)
  {
  }

  lemma SyncByIdKeeps(p: Policy, s: Store, f: Faults)
    requires Wf(s) && Located(p.status, s) && p.spec.accountId > 0 && p.status.policyId != 0 && !AccountChanged(p)
    ensures SyncKeeps(p, s, f, Sync(p, s, f))
  {
    hide SyncExisting, CreatePolicy, Proper, Later, Wf, AllIdsOk, IdsInOrderAt, AtPolicy, Recorded;
    var t := Log(s, PolicyQuery(p.spec.accountId, p.status.policyId));
    LogInStep(s, PolicyQuery(p.spec.accountId, p.status.policyId));
    InStepMeans(s, t);
    SameConditionsLater(s, t);
    LocatedElsewhere(p.status, s, t, AccountAccessDenied);
    if p.status.policyId in s.policies {
      PolicyIsReachable(p, s);
      ExistingKeeps(p, t, p.status.policyId, f);
      KeptIsKept(p, s, t, SyncExisting(p, t, p.status.policyId, s.policies[p.status.policyId], f), f);
    } else {
      var q := ForgetPolicy(p);
      ForgottenIsRecorded(p.status, t);
      ForgottenConditions(p, t, f.conditions);
      CreateKeeps(q, t, f);
      var r := CreatePolicy(q, t, f);
      LaterStill(s, t, r.store);
      if f.createFails {
        CreateFailsIsLog(q, t, f);
        LocatedElsewhere(q.status, t, r.store, Synced);
      } else {
        AtPolicyLocated(r.policy, r.store);
        AnyReason(r.policy, r.store, Synced);
      }
    }
  }

  /** A recorded policy that exists is in the account of the spec, or the sync is blocked at once. */
  lemma PolicyIsReachable(p: Policy, s: Store)
    requires Wf(s) && Located(p.status, s) && p.status.policyId in s.policies && !AccountChanged(p)
    ensures PolicyReachable(s, p.spec.accountId, p.status.policyId)
  {
    hide WellFormed;
  }

  /** Whatever calls fail, and whatever is adopted: a sync keeps the status locating its policy. If names are proper and
      the IDs a user configured are in order wherever a condition call may fail, it also keeps every recorded ID in
      order. */
  lemma SyncKeepsRecords(p: Policy, s: Store, f: Faults)
    requires Wf(s) && Located(p.status, s) && p.spec.accountId > 0
    ensures SyncKeeps(p, s, f, Sync(p, s, f))
  {
    hide SyncByName, CreatePolicy, SyncExisting, Proper, Later, IdsInOrderAt, WellFormed, AllIdsOk;
    if AccountChanged(p) {
      SameConditionsLater(s, s);
      LocatedElsewhere(p.status, s, s, AccountIDChanged);
    } else if p.status.policyId == 0 {
      SyncByNameKeeps(p, s, f);
    } else {
      SyncByIdKeeps(p, s, f);
    }
  }

  /** The same for the status that a reconcile writes. */
  lemma ReconcileKeepsRecords(p: Policy, s: Store, f: Faults)
    requires Wf(s) && Located(p.status, s) && p.spec.accountId > 0
    ensures var (st, t) := ReconcileStatus(p, s, f);
            Wf(t) && Later(s, t) && Located(st, t) &&
            (Recorded(p.status, s) && Proper(p.spec.conditions) && IdsInOrder(p, s, f) ==> Recorded(st, t))
  {
    hide Sync, MatchesApplied, Later, IdsInOrderAt, WellFormed, AllIdsOk;
    SyncKeepsRecords(p, s, f);
    SameConditionsLater(s, s);
    LocatedElsewhere(p.status, s, s, Synced);
    var st := Sync(p, s, f).policy.status;
    assert AllIdsOk([], st.policyId, Sync(p, s, f).store) by { NoIds(st.policyId, Sync(p, s, f).store); }
  }

  lemma NoIds(policy: nat, s: Store)
    ensures AllIdsOk([], policy, s)
  {
  }
}

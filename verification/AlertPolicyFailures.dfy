/** Exactly when the reconciler hides a difference: by an adoption over the snapshot of another policy, or by a status
    that is never written. And an input for every promise about a policy that does not hold. */
module AlertPolicyFailures {
  import opened Options
  import opened Accounts
  import opened Decimals
  import opened NrqlConditions
  import opened AlertStore
  import opened AlertPolicies
  import opened AlertPolicyConditions
  import opened AlertPolicyConvergence
  import opened AlertPolicyDeletes
  import opened AlertPolicyRecords
  import opened AlertPolicySync
  import opened AlertPolicyIdentity
  import opened AlertPolicyQuiescence

  // ----- Concrete objects -----

  function BareCondition(name: string, description: string): ConditionSpec {
    ConditionSpec(description, "", NO_SECRET, 0, "", 0, true, "", name, NrqlQuery("", None, None), "", [], STATIC,
                  "", 0, None, None, None, None)
  }

  function Fine(): nat -> bool { i => false }

  function Only(k: nat): nat -> bool { i => i == k }

  function WebPolicy(conditions: seq<PolicyCondition>): PolicySpec {
    PolicySpec("web", PER_POLICY, "US", 1, "", NO_SECRET, conditions)
  }

  function WebFaults(conditions: ConditionFaults): Faults {
    Faults(QueryFault.Answered, SearchFault.Answered, false, false, false, conditions)
  }

  // ----- Adoption by name over conditions recorded for another policy -----

  lemma SameOutlook(job: Job, s: Store, t: Store, spec: ConditionSpec)
    requires t.conditions == s.conditions
    ensures Skipped(job, t, spec) <==> Skipped(job, s, spec)
    ensures Realised(spec, job.policyId, t) <==> Realised(spec, job.policyId, s)
  {
    hide Denote;
    assert Named(s, job.policyId, spec.name) == Named(t, job.policyId, spec.name);
  }

  lemma IfNeededExact(p: Policy, s: Store, f: ConditionFaults, k: nat)
    requires Refreshed(p, s) && ConditionCallsSucceed(f, |p.spec.conditions|) && k < |p.spec.conditions|
    ensures var spec := p.spec.conditions[k].spec;
            Realised(spec, p.status.policyId, ReconcileConditionsIfNeeded(p, s, false, f).store) <==>
            Realised(spec, p.status.policyId, s) || !Skipped(JobOf(p, f), s, spec)
  {
    hide HandleConditions, AllRemoteConditionsMatch, Realised, Skipped, Proper, AllIdsOk, SameSpecs, CanHandle, Wf;
    var spec := p.spec.conditions[k].spec;
    var t := Log(s, ConditionSearch(p.spec.accountId, p.status.policyId));
    SameOutlook(JobOf(p, f), s, t, spec);
    RefreshedLogged(p, s);
    CanHandleWhen(p, s, f);
    CanHandleWhen(p, t, f);
    HandleConditionsExact(p, s, f, k);
    HandleConditionsExact(p, t, f, k);
    if !HaveConditionsChanged(p) && AllRemoteConditionsMatch(p, s) {
      UnchangedSkips(p, s, f, k);
    }
  }

  /** Adoption by name, with every call succeeding: a configured condition is realised afterwards exactly if it was
      already, or the snapshot left from the earlier policy does not take it for up to date. */
  lemma AdoptionExact(p: Policy, s: Store, f: Faults, id: nat, k: nat)
    requires Wf(s) && Recorded(p.status, s) && Configurable(p.spec) && p.status.policyId == 0
    requires f.search == SearchFault.Answered && NameMatches(s, p.spec.accountId, p.spec.name) == {id}
    requires !f.updateFails && !f.compareFails && ConditionCallsSucceed(f.conditions, |p.spec.conditions|)
    requires k < |p.spec.conditions|
    ensures var spec := p.spec.conditions[k].spec;
            Realised(spec, id, Sync(p, s, f).store) <==>
            Realised(spec, id, s) ||
            !Skipped(Job(p.spec.accountId, id, ObservedConditions(p), f.conditions), s, spec)
  {
    hide ReconcileConditionsIfNeeded, Realised, Skipped, Proper, FindApplied, AllIdsOk, WellFormed, Later;
    var spec := p.spec.conditions[k].spec;
    var t := Log(s, PolicySearch(p.spec.accountId));
    assert id in NameMatches(s, p.spec.accountId, p.spec.name);
    RecordedObserved(p, s);
    ObservedAreGone(p, s, id);
    SameConditionsLater(s, t);
    var remote := s.policies[id];
    var q := p.(status := p.status.(policyId := id, applied := Some(BuildApplied(p, remote.name, remote.preference))));
    var job := JobOf(q, f.conditions);
    if remote.preference != p.spec.preference {
      var (u, ok) := UpdatePolicyCall(t, p.spec.accountId, id, p.spec.name, p.spec.preference, false);
      var r := q.(status := q.status.(applied := Some(BuildApplied(q, p.spec.name, p.spec.preference))));
      SameConditionsLater(t, u);
      SameOutlook(job, s, u, spec);
      assert r.status.applied.value.(conditions := []) == r.spec.(conditions := []);
      IfNeededExact(r, u, f.conditions, k);
    } else {
      SameOutlook(job, s, t, spec);
      assert q.status.applied.value.(conditions := []) == q.spec.(conditions := []);
      IfNeededExact(q, t, f.conditions, k);
    }
  }

  /** How such a snapshot comes about: the recorded policy is gone and its replacement cannot be created. */
  lemma FailedRecreateKeepsSnapshot(p: Policy, s: Store, f: Faults)
    requires p.status.policyId != 0 && !AccountChanged(p) && !PolicyReachable(s, p.spec.accountId, p.status.policyId)
    requires f.query == QueryFault.Answered && f.createFails
    ensures var r := Sync(p, s, f); r.failed && r.policy.status == p.status.(policyId := 0)
  {
  }

  /** The recorded policy is gone and its replacement cannot be created; later there is a policy of the same name, whose
      condition differs. It is adopted, and its condition stays different although the resource is reported in sync for
      good. */
  lemma StaleAdoptionHidesDifference()
    ensures exists before: Policy, s0: Store, g: Faults, p: Policy, s: Store, f: Faults ::
              Wf(s0) && Sound(before.status, s0) && p == Policy(before.spec, Sync(before, s0, g).policy.status) &&
              Wf(s) && Sound(p.status, s) && Configurable(p.spec) && p.spec.conditions != [] &&
              ConditionCallsSucceed(f.conditions, |p.spec.conditions|) &&
              var r := Sync(p, s, f);
              !r.blocked && !r.failed && MatchesApplied(Policy(p.spec, r.policy.status)) &&
              r.policy.status.policyId in r.store.policies &&
              !Realised(p.spec.conditions[0].spec, r.policy.status.policyId, r.store)
  {
    hide Denote, Sync, Realised;
    var want, have := BareCondition("latency", "mine"), BareCondition("latency", "theirs");
    var applied := PolicySpec("web", PER_POLICY, "US", 1, "", NO_SECRET, [PolicyCondition("latency", 5, want)]);
    var p := Policy(applied.(conditions := [PolicyCondition("latency", 0, want)]), Status(0, Some(applied), Synced));
    var s := Store(map[10 := RemotePolicy(1, "web", PER_POLICY)], map[11 := RemoteCondition(10, Denote(have))], 12, []);
    var fine := i => false;
    var f := Faults(QueryFault.Answered, SearchFault.Answered, false, false, false,
                    ConditionFaults(fine, fine, false, fine));
    var before, s0 := p.(status := p.status.(policyId := 9)), Store(map[], map[], 10, []);
    var g := f.(createFails := true);
    FailedRecreateKeepsSnapshot(before, s0, g);
    assert Sound(before.status, s0);
    DenoteWellFormed(have);
    assert NameMatches(s, 1, "web") == {10};
    assert Named(s, 10, "latency") == {11};
    OnlyNamed(s, 10, "latency", 11);
    assert !Realised(want, 10, s) by { DifferentIsNotRealised(s, want, have); }
    assert AllPresent(p.spec.conditions, 10, s);
    AdoptionExact(p, s, f, 10, 0);
    AdoptionSucceeds(p, s, f, 10);
    DoneSettles(p, s, f);
  }

  lemma DifferentIsNotRealised(s: Store, want: ConditionSpec, have: ConditionSpec)
    requires 11 in s.conditions && s.conditions[11].content == Denote(have) && want.description != have.description
    requires FirstNamed(s, 10, want.name) == Some(11)
    ensures !Realised(want, 10, s)
  {
  }

  /** Adopting a policy whose conditions all bear applied names, under the applied specs, only reads. */
  lemma AdoptionSucceeds(p: Policy, s: Store, f: Faults, id: nat)
    requires p.status.policyId == 0 && NameMatches(s, p.spec.accountId, p.spec.name) == {id}
    requires f.search == SearchFault.Answered && PolicyIs(s, id, p.spec) && id != 0 && !f.compareFails
    requires Proper(ObservedConditions(p)) && SameSpecs(p.spec.conditions, ObservedConditions(p))
    requires AllPresent(p.spec.conditions, id, s) && SearchesSucceed(f.conditions, |p.spec.conditions|)
    requires !f.conditions.list
    ensures var r := Sync(p, s, f);
            !r.blocked && !r.failed && r.policy.status.policyId == id && r.store.policies == s.policies
  {
    hide HandleConditions, AllRemoteConditionsMatch, Proper, AllPresent, SameSpecs;
    var t := Log(s, PolicySearch(p.spec.accountId));
    var u := Log(t, ConditionSearch(p.spec.accountId, id));
    var q := p.(status := p.status.(policyId := id, applied := Some(BuildApplied(p, p.spec.name, p.spec.preference))));
    assert id in NameMatches(s, p.spec.accountId, p.spec.name);
    SamePresent(p.spec.conditions, id, s, u);
    HandleReads(q, u, f.conditions);
    HandleConditionsSnapshot(q, u, f.conditions);
    ReadsKeepRemote(u, HandleConditions(q, u, f.conditions).store);
  }

  // ----- Inputs for which the other promises fail -----

  /** A policy whose one condition was edited, recorded without an ID as a failed update leaves it: its search fails,
      the rest works. The condition is deleted although it is configured, and the object passes the cache check from
      then on. */
  lemma FailedSearchLosesCondition()
    ensures exists p: Policy, s: Store, f: Faults ::
              Wf(s) && Sound(p.status, s) && Configurable(p.spec) && p.spec.conditions != [] &&
              var r := Sync(p, s, f);
              var name := p.spec.conditions[0].spec.name;
              FirstNamed(s, p.status.policyId, name) == Some(11) && 11 !in r.store.conditions &&
              MatchesApplied(Policy(p.spec, r.policy.status))
  {
    hide Denote, Realised, Sync, HandleConditions;
    var had, want := BareCondition("latency", "old"), BareCondition("latency", "new");
    var p := Policy(WebPolicy([PolicyCondition("latency", 0, want)]),
                    Status(10, Some(WebPolicy([PolicyCondition("latency", 0, had)])), Synced));
    var s := Store(map[10 := RemotePolicy(1, "web", PER_POLICY)], map[11 := RemoteCondition(10, Denote(had))], 12, []);
    var f := WebFaults(ConditionFaults(Only(0), Fine(), false, Fine()));
    DenoteWellFormed(had);
    assert Named(s, 10, "latency") == {11};
    OnlyNamed(s, 10, "latency", 11);
    assert Realised(had, 10, s) by { RealisedWhen(had, 10, s); }
    var t := Log(s, PolicyQuery(1, 10));
    var q := p.(status := p.status.(applied := Some(BuildApplied(p, "web", PER_POLICY))));
    assert Named(t, 10, "latency") == {11};
    OnlyNamed(t, 10, "latency", 11);
    CanHandleWhen(q, t, f.conditions);
    FailedSearchDeletesIff(q, t, f.conditions, 0, 0, 11);
    HandleConditionsSnapshot(q, t, f.conditions);
    SyncHandles(p, s, f);
  }

  /** A changed resource whose policy is as recorded goes straight to its conditions. */
  lemma SyncHandles(p: Policy, s: Store, f: Faults)
    requires p.status.policyId != 0 && !AccountChanged(p) && PolicyIs(s, p.status.policyId, p.spec)
    requires f.query == QueryFault.Answered && HaveConditionsChanged(p)
    ensures var q := p.(status := p.status.(applied := Some(BuildApplied(p, p.spec.name, p.spec.preference))));
            var h := HandleConditions(q, Log(s, PolicyQuery(p.spec.accountId, p.status.policyId)), f.conditions);
            Sync(p, s, f).store == h.store &&
            Sync(p, s, f).policy.status.policyId == h.policy.status.policyId &&
            Sync(p, s, f).policy.status.applied == h.policy.status.applied
  {
    hide HandleConditions;
  }

  /** A new resource: the policy is created, the create of its one condition fails. The condition is missing, and the
      object passes the cache check from then on. */
  lemma FailedCreateLosesCondition()
    ensures exists p: Policy, s: Store, f: Faults ::
              Wf(s) && Sound(p.status, s) && Configurable(p.spec) && p.spec.conditions != [] &&
              var r := Sync(p, s, f);
              r.policy.status.policyId in r.store.policies &&
              !Realised(p.spec.conditions[0].spec, r.policy.status.policyId, r.store) &&
              MatchesApplied(Policy(p.spec, r.policy.status))
  {
    hide Realised, CreatePolicy;
    var p := Policy(WebPolicy([PolicyCondition("latency", 0, BareCondition("latency", ""))]), Status(0, None, Unset));
    var s := Store(map[], map[], 10, []);
    var f := WebFaults(ConditionFaults(Fine(), Only(0), false, Fine()));
    var t := Log(s, PolicySearch(1));
    assert NameMatches(s, 1, "web") == {};
    FailedCreateIsNotRetried(p, t, f, f, 0);
    CreateShape(p, t, f);
    var c := CreatePolicy(p, t, f);
    SettlesAnyReason(p.spec, c.policy.status, Synced);
    assert Sync(p, s, f) == Finish(c);
    assert !Realised(p.spec.conditions[0].spec, 10, c.store);
    assert Settles(p.spec, Sync(p, s, f).policy.status);
    assert Sound(p.status, s);
  }

  /** A resource whose policy exists without conditions: the search for its one condition fails. It is never created,
      and the object passes the cache check from then on. */
  lemma FailedSearchNeverCreates()
    ensures exists p: Policy, s: Store, f: Faults ::
              Wf(s) && Sound(p.status, s) && Configurable(p.spec) && p.spec.conditions != [] &&
              MutationsSucceed(f.conditions, |p.spec.conditions|) &&
              var r := Sync(p, s, f);
              !Realised(p.spec.conditions[0].spec, p.status.policyId, r.store) &&
              MatchesApplied(Policy(p.spec, r.policy.status))
  {
    hide Denote, Realised, Sync, HandleConditions;
    var p := Policy(WebPolicy([PolicyCondition("latency", 0, BareCondition("latency", ""))]),
                    Status(10, Some(WebPolicy([])), Synced));
    var s := Store(map[10 := RemotePolicy(1, "web", PER_POLICY)], map[], 11, []);
    var f := WebFaults(ConditionFaults(Only(0), Fine(), false, Fine()));
    var t := Log(s, PolicyQuery(1, 10));
    var q := p.(status := p.status.(applied := Some(BuildApplied(p, "web", PER_POLICY))));
    assert Named(t, 10, "latency") == {};
    assert !Realised(p.spec.conditions[0].spec, 10, t) by { RealisedWhen(p.spec.conditions[0].spec, 10, t); }
    CanHandleWhen(q, t, f.conditions);
    FailedConditionIsNotRetried(q, t, f.conditions, f, 0);
    HandleConditionsSnapshot(q, t, f.conditions);
    SyncHandles(p, s, f);
  }

  const LATENCY := BareCondition("latency", "")

  /** "latency" is live as 21, and the user configures "errors" with ID 21. */
  function WrittenPolicy(): Policy {
    Policy(WebPolicy([PolicyCondition("latency", 0, LATENCY), PolicyCondition("", 21, BareCondition("errors", ""))]),
           Status(10, Some(WebPolicy([PolicyCondition("latency", 21, LATENCY)])), Synced))
  }

  function WrittenStore(): Store {
    Store(map[10 := RemotePolicy(1, "web", PER_POLICY)], map[21 := RemoteCondition(10, Denote(LATENCY))], 22, [])
  }

  lemma WrittenIsSound()
    ensures var p, s := WrittenPolicy(), WrittenStore();
            Wf(s) && Sound(p.status, s) && Named(s, 10, "latency") == {21} && Named(s, 10, "errors") == {} &&
            forall f: ConditionFaults :: CanHandle(p, s, f)
  {
    hide Denote, Realised, Initial;
    var p, s := WrittenPolicy(), WrittenStore();
    DenoteWellFormed(LATENCY);
    assert Named(s, 10, "latency") == {21} && Named(s, 10, "errors") == {};
    OnlyNamed(s, 10, "latency", 21);
    assert Realised(LATENCY, 10, s) by { RealisedWhen(LATENCY, 10, s); }
    forall f: ConditionFaults
      ensures CanHandle(p, s, f)
    {
      CanHandleWhen(p, s, f);
    }
  }

  lemma FirstPassKeepsLatency(f: ConditionFaults)
    requires !f.search(0)
    ensures var t := HandleConditions(WrittenPolicy(), WrittenStore(), f).store;
            21 in t.conditions && t.conditions[21].policy == 10 && t.conditions[21].content.name == "latency" &&
            ConditionReachable(t, 1, 21)
  {
    hide Denote, HandleConditions, Initial, CanHandle, Sound, Wf;
    var p, s := WrittenPolicy(), WrittenStore();
    WrittenIsSound();
    assert 21 in Named(s, 10, "latency");
    ReachedAt(p, s, f, 0);
    HandleConditionsDeleteSafe(p, s, f, 21);
    SurvivorsKeepNames(p, s, f, 21);
    HandleConditionsFrame(p, s, f, 21);
  }

  /** The create of "errors" fails; the user removes it again; and nothing fails any more. Then "latency" is deleted. */
  lemma WrittenIdLosesCondition()
    ensures exists p: Policy, s: Store, f: ConditionFaults, k: nat, g: ConditionFaults, x: nat ::
              Wf(s) && Sound(p.status, s) && CanHandle(p, s, f) && k < |p.spec.conditions| &&
              NothingFails(g, |p.spec.conditions|, |p.spec.conditions|) &&
              var t := HandleConditions(p, s, f).store;
              x in t.conditions && t.conditions[x].policy == p.status.policyId &&
              t.conditions[x].content.name in Names(Without(p.spec.conditions, k), |Without(p.spec.conditions, k)|) &&
              x !in HandleConditions(Removed(p, s, f, k), t, g).store.conditions
  {
    hide Denote, HandleConditions, CanHandle, CanStart, Sound, Wf, Removed;
    var p, s := WrittenPolicy(), WrittenStore();
    var f := ConditionFaults(Fine(), Only(1), false, Fine());
    var g := ConditionFaults(Fine(), Fine(), false, Fine());
    WrittenIsSound();
    FirstPassKeepsLatency(f);
    assert CanHandle(p, s, f);
    HandleMeansStart(p, s, f);
    assert NeedsCall(JobOf(p, f), s, p.spec.conditions[1].spec);
    assert Without(p.spec.conditions, 1)[0].spec.name in Names(Without(p.spec.conditions, 1), 1);
    RemovalDeletesIff(p, s, f, 1, g, 21);
  }

  lemma HandleMeansStart(p: Policy, s: Store, f: ConditionFaults)
    requires CanHandle(p, s, f)
    ensures CanStart(p, s, f)
  {
  }

  // ----- A status that is never written -----

  /** The edited spec asks for the same policy and for every condition that was asked for. */
  predicate StillAsksFor(edited: PolicySpec, a: PolicySpec) {
    edited.name == a.name && edited.preference == a.preference &&
    forall j :: 0 <= j < |a.conditions| ==> Configures(edited, a.conditions[j].spec)
  }

  /** A condition of this name is configured, with settings that denote the same. */
  predicate Configures(edited: PolicySpec, spec: ConditionSpec) {
    exists k :: 0 <= k < |edited.conditions| && edited.conditions[k].spec.name == spec.name &&
                Denote(edited.conditions[k].spec) == Denote(spec)
  }

  /** What is left for the applied conditions once the configured ones are dealt with: all configured ones are
      realised, and of applied names that are not configured nothing is there. */
  ghost predicate CarriedOut(p: Policy, policy: nat, t: Store) {
    AllRealised(p.spec.conditions, policy, t) &&
    forall j :: 0 <= j < |ObservedConditions(p)| &&
                ObservedConditions(p)[j].spec.name !in Names(p.spec.conditions, |p.spec.conditions|) ==>
      Named(t, policy, ObservedConditions(p)[j].spec.name) == {}
  }

  /** What the applied conditions are before: all realised, and of each name that is configured no more there is one. */
  ghost predicate Replaceable(p: Policy, policy: nat, s: Store) {
    AllRealised(ObservedConditions(p), policy, s) &&
    forall j :: 0 <= j < |ObservedConditions(p)| &&
                ObservedConditions(p)[j].spec.name !in Names(p.spec.conditions, |p.spec.conditions|) ==>
      Single(s, policy, ObservedConditions(p)[j].spec.name)
  }

  lemma HandleCarriesOut(p: Policy, s: Store, f: ConditionFaults)
    requires CanHandle(p, s, f) && Replaceable(p, p.status.policyId, s) && !HandleConditions(p, s, f).failed
    ensures CarriedOut(p, p.status.policyId, HandleConditions(p, s, f).store)
  {
    hide HandleConditions, CanHandle, Names, Single, Realised, Skipped;
    TrueSnapshotSkips(JobOf(p, f), s, p.spec.conditions);
    forall k | 0 <= k < |p.spec.conditions|
      ensures Realised(p.spec.conditions[k].spec, p.status.policyId, HandleConditions(p, s, f).store)
    {
      HandledWithoutError(p, s, f, k);
    }
    forall j | 0 <= j < |ObservedConditions(p)| &&
               ObservedConditions(p)[j].spec.name !in Names(p.spec.conditions, |p.spec.conditions|)
      ensures Named(HandleConditions(p, s, f).store, p.status.policyId, ObservedConditions(p)[j].spec.name) == {}
    {
      NothingStaleLeft(p, s, f, j);
    }
  }

  lemma UnchangedIsCarriedOut(p: Policy, policy: nat, s: Store)
    requires Replaceable(p, policy, s) && !HaveConditionsChanged(p)
    ensures CarriedOut(p, policy, s)
  {
    hide Realised, Single;
    SameSpecsRealised(p.spec.conditions, ObservedConditions(p), policy, s);
    forall j | 0 <= j < |ObservedConditions(p)|
      ensures ObservedConditions(p)[j].spec.name in Names(p.spec.conditions, |p.spec.conditions|)
    {
      SameSpecsSameNames(p.spec.conditions, ObservedConditions(p), j);
    }
  }

  lemma IfNeededCarriesOut(p: Policy, s: Store, compareFails: bool, f: ConditionFaults)
    requires Refreshed(p, s) && Replaceable(p, p.status.policyId, s)
    ensures var r := ReconcileConditionsIfNeeded(p, s, compareFails, f);
            !r.failed ==> CarriedOut(p, p.status.policyId, r.store)
  {
    hide HandleConditions, AllRemoteConditionsMatch, Proper, Wf, IdOk, CarriedOut, Replaceable, SameSpecs;
    var t := Log(s, ConditionSearch(p.spec.accountId, p.status.policyId));
    RefreshedLogged(p, s);
    CanHandleWhen(p, s, f);
    CanHandleWhen(p, t, f);
    SameReplaceable(p, p.status.policyId, s, t);
    NothingIsUnchanged(p);
    if !HaveConditionsChanged(p) {
      UnchangedIsCarriedOut(p, p.status.policyId, s);
      UnchangedIsCarriedOut(p, p.status.policyId, t);
    }
    if !HandleConditions(p, s, f).failed {
      HandleCarriesOut(p, s, f);
    }
    if !HandleConditions(p, t, f).failed {
      HandleCarriesOut(p, t, f);
    }
  }

  lemma NothingIsUnchanged(p: Policy)
    ensures !ShouldReconcileConditions(p) ==> !HaveConditionsChanged(p)
  {
  }

  lemma SameReplaceable(p: Policy, policy: nat, s: Store, t: Store)
    requires t.conditions == s.conditions
    ensures Replaceable(p, policy, t) <==> Replaceable(p, policy, s)
  {
    hide Realised, Single;
    SameRealised(ObservedConditions(p), policy, s, t);
    forall name
      ensures Single(t, policy, name) <==> Single(s, policy, name)
    {
      SameSingle(s, t, policy, name);
    }
  }

  lemma SameSpecsSameNames(a: seq<PolicyCondition>, b: seq<PolicyCondition>, j: nat)
    requires j < |b|
    ensures SameSpecs(a, b) ==> b[j].spec.name in Names(a, |a|)
  {
  }

  lemma SameSingle(s: Store, t: Store, policy: nat, name: string)
    requires t.conditions == s.conditions
    ensures Single(t, policy, name) <==> Single(s, policy, name)
  {
    assert Named(t, policy, name) == Named(s, policy, name);
  }

  /** The spec and the applied conditions decide. */
  lemma SameTask(p: Policy, q: Policy, policy: nat, s: Store)
    requires q.spec == p.spec && ObservedConditions(q) == ObservedConditions(p)
    ensures Replaceable(q, policy, s) <==> Replaceable(p, policy, s)
    ensures CarriedOut(q, policy, s) <==> CarriedOut(p, policy, s)
  {
  }

  lemma ExistingCarriesOut(p: Policy, s: Store, id: nat, f: Faults)
    requires Locatable(p, s, id) && Replaceable(p, id, s)
    ensures var r := SyncExisting(p, s, id, s.policies[id], f);
            !r.blocked && !r.failed ==> CarriedOut(p, id, r.store)
  {
    hide ReconcileConditionsIfNeeded, Proper, AllIdsOk, Later, WellFormed, CarriedOut, Replaceable;
    var remote := s.policies[id];
    var q := p.(status := p.status.(policyId := id, applied := Some(BuildApplied(p, remote.name, remote.preference))));
    if remote.name != p.spec.name || remote.preference != p.spec.preference {
      var (t, ok) := UpdatePolicyCall(s, p.spec.accountId, id, p.spec.name, p.spec.preference, f.updateFails);
      if ok {
        var u := q.(status := q.status.(applied := Some(BuildApplied(q, p.spec.name, p.spec.preference))));
        SameConditionsLater(s, t);
        SameReplaceable(p, id, s, t);
        SameTask(p, u, id, t);
        assert u.status.applied.value.(conditions := []) == u.spec.(conditions := []);
        IfNeededCarriesOut(u, t, f.compareFails, f.conditions);
        SameTask(p, u, id, ReconcileConditionsIfNeeded(u, t, f.compareFails, f.conditions).store);
      }
    } else {
      assert q.status.applied.value.(conditions := []) == q.spec.(conditions := []);
      SameTask(p, q, id, s);
      IfNeededCarriesOut(q, s, f.compareFails, f.conditions);
      SameTask(p, q, id, ReconcileConditionsIfNeeded(q, s, f.compareFails, f.conditions).store);
    }
  }

  lemma SyncCarriesOut(p: Policy, s: Store, f: Faults)
    requires Wf(s) && Recorded(p.status, s) && Configurable(p.spec) && Replaceable(p, p.status.policyId, s)
    requires PolicyReachable(s, p.spec.accountId, p.status.policyId)
    ensures var r := Sync(p, s, f);
            !r.blocked && !r.failed ==> CarriedOut(p, p.status.policyId, r.store)
  {
    hide SyncExisting, CreatePolicy, Proper, WellFormed, AllIdsOk, Later, CarriedOut, Replaceable;
    var t := Log(s, PolicyQuery(p.spec.accountId, p.status.policyId));
    assert p.status.policyId != 0;
    RecordedObserved(p, s);
    SameConditionsLater(s, t);
    SameReplaceable(p, p.status.policyId, s, t);
    ExistingCarriesOut(p, t, p.status.policyId, f);
  }

  /** An edit is carried out by a sync that is neither blocked nor failed, and then the status is lost. What the old
      status says is still true exactly if the edited spec asks for the same policy and for every condition that was
      asked for. */
  lemma LostStatusTrueIff(p: Policy, edited: PolicySpec, s: Store, f: Faults)
    requires Wf(s) && Sound(p.status, s) && p.status.policyId in s.policies && Configurable(edited)
    requires p.status.applied.Some? && edited.accountId == p.status.applied.value.accountId
    requires forall j :: 0 <= j < |ObservedConditions(p)| &&
                         ObservedConditions(p)[j].spec.name !in Names(edited.conditions, |edited.conditions|) ==>
                           Single(s, p.status.policyId, ObservedConditions(p)[j].spec.name)
    requires var r := Sync(p.(spec := edited), s, f); !r.blocked && !r.failed
    ensures Truthful(p.status, Sync(p.(spec := edited), s, f).store) <==> StillAsksFor(edited, p.status.applied.value)
  {
    hide Sync, Denote, Recorded, WellFormed, Proper, QueryPolicyCall, NameMatches, Single, Names, Settles, AllPresent;
    var q, a, id := p.(spec := edited), p.status.applied.value, p.status.policyId;
    var r := Sync(q, s, f);
    assert 0 < id < s.next;
    PolicyIsReachable(q, s);
    RecordedIdStands(q, s, f);
    assert r.policy.status.policyId == id;
    SyncIsDone(q, s, f);
    assert ObservedConditions(q) == ObservedConditions(p) == a.conditions;
    assert Replaceable(q, id, s);
    SyncCarriesOut(q, s, f);
    forall j | 0 <= j < |a.conditions|
      ensures Realised(a.conditions[j].spec, id, r.store) <==> Configures(edited, a.conditions[j].spec)
    {
      ConfiguredIff(q, a.conditions[j].spec.name);
      assert ObservedConditions(q)[j] == a.conditions[j];
      assert forall i :: 0 <= i < |edited.conditions| &&
                         edited.conditions[i].spec.name == a.conditions[j].spec.name ==>
                           Realised(edited.conditions[i].spec, id, r.store);
    }
  }

  /** A status that is never written: the preference of a policy in sync is edited and sent, but five further edits in a
      row lose the status. When the last of them takes the preference back, the object passes the cache check although
      New Relic has the other preference. */
  lemma LostStatusHidesDifference()
    ensures exists p: Policy, edited: PolicySpec, s: Store, f: Faults ::
              Wf(s) && Sound(p.status, s) && MatchesApplied(p) && Configurable(edited) &&
              !PolicyIs(ReconcileStatus(p.(spec := edited), s, f).1, p.status.policyId, p.spec)
  {
    hide Realised;
    var spec := WebPolicy([]);
    var edited := spec.(preference := PER_CONDITION);
    var p := Policy(spec, Status(10, Some(spec), Synced));
    var s := Store(map[10 := RemotePolicy(1, "web", PER_POLICY)], map[], 11, []);
    var f := WebFaults(ConditionFaults(Fine(), Fine(), false, Fine()));
    assert Sound(p.status, s);
    assert PolicyIs(ReconcileStatus(p.(spec := edited), s, f).1, 10, edited);
  }

  /** The same for a condition: an edit removes the only one, "latency", and its status is lost. When the condition is
      taken back, the object passes the cache check although the condition is gone. */
  lemma LostStatusLosesCondition()
    ensures exists p: Policy, edited: PolicySpec, s: Store, f: Faults ::
              Wf(s) && Sound(p.status, s) && MatchesApplied(p) && Configurable(edited) &&
              var t := ReconcileStatus(p.(spec := edited), s, f).1;
              p.status.policyId in t.policies && !Truthful(p.status, t)
  {
    hide Denote, Realised, Sync, HandleConditions;
    var spec := WebPolicy([PolicyCondition("latency", 11, LATENCY)]);
    var p := Policy(spec, Status(10, Some(spec), Synced));
    var q := p.(spec := WebPolicy([]));
    var s := Store(map[10 := RemotePolicy(1, "web", PER_POLICY)], map[11 := RemoteCondition(10, Denote(LATENCY))], 12,
                   []);
    var f := WebFaults(ConditionFaults(Fine(), Fine(), false, Fine()));
    DenoteWellFormed(LATENCY);
    assert Named(s, 10, "latency") == {11};
    OnlyNamed(s, 10, "latency", 11);
    assert Realised(LATENCY, 10, s) by { RealisedWhen(LATENCY, 10, s); }
    var t := Log(s, PolicyQuery(1, 10));
    var u := q.(status := q.status.(applied := Some(BuildApplied(q, "web", PER_POLICY))));
    SyncHandles(q, s, f);
    CanHandleWhen(u, t, f.conditions);
    OnlyOneIsRemoved(u, t, f.conditions);
    assert !Realised(LATENCY, 10, HandleConditions(u, t, f.conditions).store) by {
      RealisedWhen(LATENCY, 10, HandleConditions(u, t, f.conditions).store);
    }
    assert LATENCY == p.status.applied.value.conditions[0].spec;
    assert Sound(p.status, s);
    assert !Truthful(p.status, ReconcileStatus(q, s, f).1);
  }

  lemma OnlyOneIsRemoved(p: Policy, s: Store, f: ConditionFaults)
    requires CanHandle(p, s, f) && p.spec.conditions == [] && ObservedConditions(p) != [] && !f.list && !f.delete(0)
    requires ObservedConditions(p)[0].id != 0
    requires Named(s, p.status.policyId, ObservedConditions(p)[0].spec.name) == {ObservedConditions(p)[0].id}
    ensures var t := HandleConditions(p, s, f).store;
            t.policies == s.policies && Named(t, p.status.policyId, ObservedConditions(p)[0].spec.name) == {}
  {
    hide HandleConditions, CanHandle;
    var t, o := HandleConditions(p, s, f).store, ObservedConditions(p)[0];
    assert o.id in Named(s, p.status.policyId, o.spec.name);
    StaleNameExact(p, s, f, 0, o.id);
    HandleConditionsFrame(p, s, f, 0);
    forall c | c in Named(t, p.status.policyId, o.spec.name)
      ensures c in Named(s, p.status.policyId, o.spec.name)
    {
      UnconfiguredWasThere(p, s, f, c);
    }
  }

  // ----- Two conditions of one name -----

  /** A policy with two conditions "latency" of which one is recorded: nothing fails, and both stay. */
  lemma DuplicateStays()
    ensures exists p: Policy, s: Store, f: ConditionFaults ::
              Wf(s) && Undisturbed(p, s, f) && !forall c :: ConvergedAt(p, s, f, c)
  {
    hide Denote, ConvergedAt, HandleConditions, Initial;
    var latency := BareCondition("latency", "");
    var rc := RemoteCondition(10, Denote(latency));
    var p := Policy(WebPolicy([PolicyCondition("latency", 0, latency)]),
                    Status(10, Some(WebPolicy([PolicyCondition("latency", 11, latency)])), Synced));
    var s := Store(map[10 := RemotePolicy(1, "web", PER_POLICY)], map[11 := rc, 12 := rc], 13, []);
    var f := ConditionFaults(Fine(), Fine(), false, Fine());
    DenoteWellFormed(latency);
    assert 11 in Named(s, 10, "latency") && 12 in Named(s, 10, "latency");
    assert FirstNamed(s, 10, "latency") == Some(11);
    CanHandleWhen(p, s, f);
    ManagedName(p, "latency");
    assert p.spec.conditions[0].spec.name == "latency" && !Single(s, 10, "latency");
    assert Undisturbed(p, s, f);
    assert !ManagedSingle(p, s);
    HandleConditionsConvergesIff(p, s, f);
  }
}

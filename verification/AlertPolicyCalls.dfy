/** Exactly which calls on policies a sync makes, what a reconcile reports, and when the finalizer goes. */
module AlertPolicyCalls {
  import opened Options
  import opened Accounts
  import opened NrqlConditions
  import opened AlertStore
  import opened AlertPolicies
  import opened AlertPolicyConditions
  import opened AlertPolicyIdentity
  import opened AlertPolicyQuiescence

  // ----- Which policy-level calls a sync makes -----

  /** The account was changed under a recorded policy. */
  predicate RecordedElsewhere(p: Policy) {
    p.status.policyId != 0 && p.status.applied.Some? && p.status.applied.value.accountId > 0 &&
    p.status.applied.value.accountId != p.spec.accountId
  }

  /** What the lookup by a recorded ID brings. */
  function Looked(p: Policy, s: Store, f: Faults): QueryResult {
    QueryPolicyCall(s, p.spec.accountId, p.status.policyId, f.query).1
  }

  /** The policy is not there: none was recorded and none has the name, or New Relic says that the recorded one is
      gone. */
  ghost predicate Missing(p: Policy, s: Store, f: Faults) {
    if p.status.policyId == 0 then f.search.Answered? && NameMatches(s, p.spec.accountId, p.spec.name) == {}
    else Looked(p, s, f).NotFound?
  }

  /** This policy is the recorded one, or the only one of the name, and it is in the account or in none. */
  ghost predicate Finds(p: Policy, s: Store, f: Faults, id: nat) {
    id in s.policies &&
    (if p.status.policyId == 0 then f.search.Answered? && NameMatches(s, p.spec.accountId, p.spec.name) == {id}
     else p.status.policyId == id && Looked(p, s, f).Found?) &&
    s.policies[id].account in {0, p.spec.accountId}
  }

  predicate HeadDiffers(remote: RemotePolicy, spec: PolicySpec) {
    remote.name != spec.name || remote.preference != spec.preference
  }

  function Lookup(p: Policy): Call {
    if p.status.policyId == 0 then PolicySearch(p.spec.accountId) else PolicyQuery(p.spec.accountId, p.status.policyId)
  }

  /** The calls on policies: one lookup; then a create if the policy is missing, or an update if it is there under
      another name or with another preference. */
  ghost function PolicyCalls(p: Policy, s: Store, f: Faults): seq<Call> {
    if RecordedElsewhere(p) then []
    else if Missing(p, s, f) then [Lookup(p), PolicyCreate(p.spec.accountId)]
    else if exists id: nat :: Finds(p, s, f, id) && HeadDiffers(s.policies[id], p.spec) then
      var id: nat :| Finds(p, s, f, id) && HeadDiffers(s.policies[id], p.spec);
      [Lookup(p), PolicyUpdate(p.spec.accountId, id)]
    else [Lookup(p)]
  }

  /** The log grew by these calls, and then only by calls on conditions of the account. */
  ghost predicate CallsThenConditions(s: Store, t: Store, calls: seq<Call>, account: int) {
    s.calls + calls <= t.calls &&
    forall i :: |s.calls| + |calls| <= i < |t.calls| ==> ConditionCall(t.calls[i], account)
  }

  lemma WorkThenConditions(s: Store, t: Store, u: Store, calls: seq<Call>, account: int)
    requires t.calls == s.calls + calls && ConditionWork(t, u, account)
    ensures CallsThenConditions(s, u, calls, account)
  {
  }

  lemma NoConditionCalls(s: Store, t: Store, calls: seq<Call>, account: int)
    requires t.calls == s.calls + calls
    ensures CallsThenConditions(s, t, calls, account)
  {
  }

  lemma CreateCallsExact(p: Policy, s: Store, f: Faults)
    ensures CallsThenConditions(s, CreatePolicy(p, s, f).store, [PolicyCreate(p.spec.accountId)], p.spec.accountId)
  {
    hide CreatePolicyConditions, CallsThenConditions, ConditionWork;
    var preference := PreferenceSent(p.spec.preference);
    var (t, id) := CreatePolicyCall(s, p.spec.accountId, p.spec.name, preference, f.createFails);
    if id.Some? {
      var w0 := Work(t, p.spec.conditions, [], []);
      CreateConditionsWork(w0, p.spec.accountId, s.next, |p.spec.conditions|, f.conditions);
      WorkThenConditions(s, t, CreatePolicy(p, s, f).store, [PolicyCreate(p.spec.accountId)], p.spec.accountId);
    } else {
      NoConditionCalls(s, t, [PolicyCreate(p.spec.accountId)], p.spec.accountId);
    }
  }

  function UpdateCalls(p: Policy, id: nat, remote: RemotePolicy): seq<Call> {
    if remote.account in {0, p.spec.accountId} && HeadDiffers(remote, p.spec) then [PolicyUpdate(p.spec.accountId, id)]
    else []
  }

  lemma ExistingCallsExact(p: Policy, s: Store, id: nat, remote: RemotePolicy, f: Faults)
    ensures CallsThenConditions(s, SyncExisting(p, s, id, remote, f).store, UpdateCalls(p, id, remote),
                                p.spec.accountId)
  {
    hide ReconcileConditionsIfNeeded, CallsThenConditions, ConditionWork;
    var q := p.(status := p.status.(policyId := id, applied := Some(BuildApplied(p, remote.name, remote.preference))));
    var account, preference := p.spec.accountId, PreferenceSent(p.spec.preference);
    var r := SyncExisting(p, s, id, remote, f);
    if !(remote.account in {0, account}) {
      NoConditionCalls(s, s, [], account);
    } else if HeadDiffers(remote, p.spec) {
      var (t, ok) := UpdatePolicyCall(s, account, id, p.spec.name, preference, f.updateFails);
      if ok {
        var u := q.(status := q.status.(applied := Some(BuildApplied(q, p.spec.name, preference))));
        IfNeededWorks(u, t, f.compareFails, f.conditions);
        WorkThenConditions(s, t, r.store, [PolicyUpdate(account, id)], account);
      } else {
        NoConditionCalls(s, t, [PolicyUpdate(account, id)], account);
      }
    } else {
      IfNeededWorks(q, s, f.compareFails, f.conditions);
      WorkThenConditions(s, s, r.store, [], account);
    }
  }

  lemma AfterLookup(s: Store, lookup: Call, t: Store, calls: seq<Call>, account: int)
    requires CallsThenConditions(Log(s, lookup), t, calls, account)
    ensures CallsThenConditions(s, t, [lookup] + calls, account)
  {
    assert s.calls + ([lookup] + calls) == s.calls + [lookup] + calls;
  }

  lemma OneFinds(p: Policy, s: Store, f: Faults, id: nat)
    requires Finds(p, s, f, id) && !RecordedElsewhere(p) && !Missing(p, s, f)
    ensures PolicyCalls(p, s, f) == [Lookup(p)] + UpdateCalls(p, id, s.policies[id])
  {
    hide HeadDiffers;
    forall x: nat | Finds(p, s, f, x)
      ensures x == id
    {
      assert id in NameMatches(s, p.spec.accountId, p.spec.name) ==> id in {x} || p.status.policyId != 0;
    }
  }

  lemma NoneFinds(p: Policy, s: Store, f: Faults)
    requires !RecordedElsewhere(p) && !Missing(p, s, f) && forall x: nat :: !Finds(p, s, f, x)
    ensures PolicyCalls(p, s, f) == [Lookup(p)]
  {
  }

  lemma SyncByNameCalls(p: Policy, s: Store, f: Faults)
    requires p.status.policyId == 0
    ensures CallsThenConditions(s, SyncByName(p, s, f).store, PolicyCalls(p, s, f), p.spec.accountId)
  {
    hide SyncExisting, CreatePolicy, CallsThenConditions, PolicyCalls, UpdateCalls;
    var account, lookup, t := p.spec.accountId, Lookup(p), Log(s, Lookup(p));
    var matches := NameMatches(s, account, p.spec.name);
    NoConditionCalls(s, t, [lookup], account);
    if f.search.Answered? && matches == {} {
      CreateCallsExact(p, t, f);
      AfterLookup(s, lookup, CreatePolicy(p, t, f).store, [PolicyCreate(account)], account);
      MissingCalls(p, s, f);
      assert [lookup] + [PolicyCreate(account)] == [lookup, PolicyCreate(account)];
    } else if f.search.Answered? && |matches| == 1 {
      var id := Least(matches);
      OnlyMatch(matches, id);
      ExistingCallsExact(p, t, id, s.policies[id], f);
      AfterLookup(s, lookup, SyncExisting(p, t, id, s.policies[id], f).store, UpdateCalls(p, id, s.policies[id]),
                  account);
      OneFinds(p, s, f, id);
    } else {
      forall x: nat
        ensures !Finds(p, s, f, x)
      {
        assert |{x}| == 1;
      }
      NoneFinds(p, s, f);
    }
  }

  lemma MissingCalls(p: Policy, s: Store, f: Faults)
    requires !RecordedElsewhere(p) && Missing(p, s, f)
    ensures PolicyCalls(p, s, f) == [Lookup(p), PolicyCreate(p.spec.accountId)]
  {
  }

  lemma SyncByIdCalls(p: Policy, s: Store, f: Faults)
    requires p.status.policyId != 0
    ensures CallsThenConditions(s, Sync(p, s, f).store, PolicyCalls(p, s, f), p.spec.accountId)
  {
    hide SyncExisting, CreatePolicy, CallsThenConditions, PolicyCalls, UpdateCalls;
    var account, id, lookup, t := p.spec.accountId, p.status.policyId, Lookup(p), Log(s, Lookup(p));
    NoConditionCalls(s, t, [lookup], account);
    if RecordedElsewhere(p) {
      NoConditionCalls(s, s, [], account);
      ElsewhereCalls(p, s, f);
    } else if Missing(p, s, f) {
      MissingCalls(p, s, f);
      assert [lookup] + [PolicyCreate(account)] == [lookup, PolicyCreate(account)];
      CreateCallsExact(ForgetPolicy(p), t, f);
      AfterLookup(s, lookup, CreatePolicy(ForgetPolicy(p), t, f).store, [PolicyCreate(account)], account);
    } else if Looked(p, s, f).Found? {
      ExistingCallsExact(p, t, id, s.policies[id], f);
      AfterLookup(s, lookup, SyncExisting(p, t, id, s.policies[id], f).store, UpdateCalls(p, id, s.policies[id]),
                  account);
      if Finds(p, s, f, id) {
        OneFinds(p, s, f, id);
      } else {
        NoneFinds(p, s, f);
        ForeignCalls(p, id, s.policies[id]);
        assert [lookup] + [] == [lookup];
      }
    } else {
      NoneFinds(p, s, f);
    }
  }

  lemma ElsewhereCalls(p: Policy, s: Store, f: Faults)
    requires RecordedElsewhere(p)
    ensures PolicyCalls(p, s, f) == []
  {
  }

  lemma ForeignCalls(p: Policy, id: nat, remote: RemotePolicy)
    requires remote.account !in {0, p.spec.accountId}
    ensures UpdateCalls(p, id, remote) == []
  {
  }

  /** Whatever fails: after exactly these calls on policies, a sync calls only for conditions of the account. */
  lemma SyncCallsExact(p: Policy, s: Store, f: Faults)
    ensures CallsThenConditions(s, Sync(p, s, f).store, PolicyCalls(p, s, f), p.spec.accountId)
  {
    hide SyncByName, CallsThenConditions, PolicyCalls;
    if p.status.policyId == 0 {
      SyncByNameCalls(p, s, f);
    } else {
      SyncByIdCalls(p, s, f);
    }
  }

  lemma OnlyMatch(matches: set<nat>, id: nat)
    requires id in matches
    ensures |matches| == 1 <==> matches == {id}
    ensures |matches| == 1 <==> forall x, y :: x in matches && y in matches ==> x == y
  {
    assert |matches - {id}| == |matches| - 1;
    assert |matches| == 1 ==> matches - {id} == {};
    if forall x, y :: x in matches && y in matches ==> x == y {
      assert forall x :: x in matches ==> x == id;
      assert matches == {id};
    }
  }

  // ----- What is reported -----

  /** Why a sync is blocked, or none. */
  ghost function BlockedBy(p: Policy, s: Store, f: Faults): Option<Reason> {
    if RecordedElsewhere(p) then Some(AccountIDChanged)
    else if p.status.policyId != 0 then
      if f.query.QueryDenied? then Some(AccountAccessDenied)
      else if Looked(p, s, f).Found? && s.policies[p.status.policyId].account !in {0, p.spec.accountId} then
        Some(AccountMismatch)
      else None
    else if f.search.SearchDenied? then Some(AccountAccessDenied)
    else if f.search.Answered? && exists x, y: nat :: x != y && x in NameMatches(s, p.spec.accountId, p.spec.name) &&
                                                y in NameMatches(s, p.spec.accountId, p.spec.name)
    then Some(AmbiguousPolicyName)
    else None
  }

  lemma IfNeededKeepsReport(p: Policy, s: Store, compareFails: bool, f: ConditionFaults)
    ensures ReconcileConditionsIfNeeded(p, s, compareFails, f).policy.status.ready == p.status.ready
  {
    hide HandleConditions, AllRemoteConditionsMatch;
    HandleConditionsSnapshot(p, s, f);
    HandleConditionsSnapshot(p, Log(s, ConditionSearch(p.spec.accountId, p.status.policyId)), f);
  }

  lemma ExistingReports(p: Policy, s: Store, id: nat, remote: RemotePolicy, f: Faults)
    ensures var r := SyncExisting(p, s, id, remote, f);
            if remote.account in {0, p.spec.accountId} then
              !r.blocked && r.policy.status.ready == if r.failed then p.status.ready else Synced
            else r.blocked && !r.failed && r.policy == p.(status := p.status.(ready := AccountMismatch))
  {
    hide ReconcileConditionsIfNeeded;
    var q := p.(status := p.status.(policyId := id, applied := Some(BuildApplied(p, remote.name, remote.preference))));
    IfNeededKeepsReport(q, s, f.compareFails, f.conditions);
    var preference := PreferenceSent(p.spec.preference);
    var (t, ok) := UpdatePolicyCall(s, p.spec.accountId, id, p.spec.name, preference, f.updateFails);
    var u := q.(status := q.status.(applied := Some(BuildApplied(q, p.spec.name, preference))));
    IfNeededKeepsReport(u, t, f.compareFails, f.conditions);
  }

  /** What a sync reports: the reason that blocks it and nothing else; if none does, success exactly if nothing
      failed. */
  ghost predicate Reports(p: Policy, r: SyncResult, blockedBy: Option<Reason>) {
    match blockedBy
    case Some(reason) => r.blocked && !r.failed && r.policy == p.(status := p.status.(ready := reason))
    case None => !r.blocked && r.policy.status.ready == if r.failed then p.status.ready else Synced
  }

  lemma ReportsByName(p: Policy, s: Store, f: Faults)
    requires p.status.policyId == 0
    ensures Reports(p, Sync(p, s, f), BlockedBy(p, s, f))
  {
    hide SyncExisting, CreatePolicyConditions;
    var search, matches := Log(s, PolicySearch(p.spec.accountId)), NameMatches(s, p.spec.accountId, p.spec.name);
    if matches != {} {
      var id := Least(matches);
      ExistingReports(p, search, id, s.policies[id], f);
      OnlyMatch(matches, id);
    }
  }

  /** Whatever fails, and for each reason exactly when it applies. */
  lemma ReportedExact(p: Policy, s: Store, f: Faults)
    ensures Reports(p, Sync(p, s, f), BlockedBy(p, s, f))
  {
    hide SyncExisting, CreatePolicyConditions, SyncByName;
    if p.status.policyId == 0 {
      ReportsByName(p, s, f);
    } else if p.status.policyId in s.policies {
      var query := Log(s, PolicyQuery(p.spec.accountId, p.status.policyId));
      ExistingReports(p, query, p.status.policyId, s.policies[p.status.policyId], f);
    }
  }

  /** The status that a reconcile computes: for an object that is settled all stays and success is reported; otherwise
      the status is that of the sync, where a snapshot that is still missing becomes a blank one. */
  lemma ReconcileReportsExact(p: Policy, s: Store, f: Faults)
    ensures var (st, t) := ReconcileStatus(p, s, f);
            var r := Sync(p, s, f);
            if Settles(p.spec, p.status) then st == p.status.(ready := Synced) && t == s
            else t == r.store && st.policyId == r.policy.status.policyId && st.ready == r.policy.status.ready &&
                 st.applied == if r.policy.status.applied.Some? then r.policy.status.applied
                               else Some(PolicySpec("", "", "", 0, "", NO_SECRET, []))
  {
    hide Sync, MatchesApplied;
    assert Policy(p.spec, p.status) == p;
  }

  // ----- The finalizer -----

  /** Deletes go to the account in which the policy was applied, if one is recorded. The finalizer may go at once if no
      policy is recorded or the delete is confirmed, which it is for a policy that is not there; otherwise exactly if a
      lookup then says that the policy is not found. */
  lemma FinalizerExact(p: Policy, s: Store, d: DeleteFault, q: QueryFault)
    ensures var (released, t) := DeletePolicy(p, s, d, q);
            var a, id := p.status.applied, p.status.policyId;
            var account := if a.Some? && a.value.accountId > 0 then a.value.accountId else p.spec.accountId;
            var confirmed := !d.Refused? && (d.Works? || !PolicyReachable(s, account, id));
            if id == 0 then released && t == s
            else
              t.calls ==
              s.calls + [PolicyDelete(account, id)] + (if confirmed then [] else [PolicyQuery(account, id)]) &&
              (released <==> confirmed || (q.Answered? && !PolicyReachable(t, account, id)) ||
                             (q.Misdirected? && id !in t.policies)) &&
              (id in t.policies <==> id in s.policies && (d.Refused? || !PolicyReachable(s, account, id)))
  {
  }

  // ----- A preference that New Relic does not know -----

  predicate PreferencesKnown(s: Store) {
    forall id :: id in s.policies ==> PreferenceKnown(s.policies[id].preference)
  }

  lemma CreateSendsDefault(p: Policy, s: Store, f: Faults)
    requires !PreferenceKnown(p.spec.preference) && !CreatePolicy(p, s, f).failed
    ensures var r := CreatePolicy(p, s, f);
            r.policy.status.policyId in r.store.policies &&
            r.store.policies[r.policy.status.policyId] == RemotePolicy(p.spec.accountId, p.spec.name, PER_CONDITION)
  {
    hide CreatePolicyConditions;
    var (t, id) := CreatePolicyCall(s, p.spec.accountId, p.spec.name, PER_CONDITION, f.createFails);
    CreateConditionsWork(Work(t, p.spec.conditions, [], []), p.spec.accountId, s.next, |p.spec.conditions|,
                         f.conditions);
  }

  lemma ExistingSendsDefault(p: Policy, s: Store, id: nat, remote: RemotePolicy, f: Faults)
    requires !PreferenceKnown(p.spec.preference) && PreferenceKnown(remote.preference)
    ensures var r := SyncExisting(p, s, id, remote, f);
            !r.blocked && !r.failed ==>
              r.policy.status.policyId == id && id in r.store.policies &&
              r.store.policies[id] == RemotePolicy(p.spec.accountId, p.spec.name, PER_CONDITION)
  {
    hide ReconcileConditionsIfNeeded;
    var q := p.(status := p.status.(policyId := id, applied := Some(BuildApplied(p, remote.name, remote.preference))));
    var (t, ok) := UpdatePolicyCall(s, p.spec.accountId, id, p.spec.name, PER_CONDITION, f.updateFails);
    var u := q.(status := q.status.(applied := Some(BuildApplied(q, p.spec.name, PER_CONDITION))));
    IfNeededWorks(u, t, f.compareFails, f.conditions);
  }

  /** An object that bypassed admission: whatever preference it has that is not known, a sync that succeeds leaves the
      policy with the default one. */
  lemma UnknownPreferenceIsDefault(p: Policy, s: Store, f: Faults)
    requires !PreferenceKnown(p.spec.preference) && PreferencesKnown(s)
    ensures var r := Sync(p, s, f);
            !r.blocked && !r.failed ==>
              r.policy.status.policyId in r.store.policies &&
              r.store.policies[r.policy.status.policyId] ==
              RemotePolicy(p.spec.accountId, p.spec.name, PER_CONDITION)
  {
    hide SyncExisting, CreatePolicy, PreferenceKnown;
    var search, matches := Log(s, PolicySearch(p.spec.accountId)), NameMatches(s, p.spec.accountId, p.spec.name);
    var query, id := Log(s, PolicyQuery(p.spec.accountId, p.status.policyId)), p.status.policyId;
    if id == 0 {
      if matches == {} {
        if !CreatePolicy(p, search, f).failed {
          CreateSendsDefault(p, search, f);
        }
      } else {
        ExistingSendsDefault(p, search, Least(matches), s.policies[Least(matches)], f);
      }
    } else {
      if id in s.policies {
        ExistingSendsDefault(p, query, id, s.policies[id], f);
      }
      if !CreatePolicy(ForgetPolicy(p), query, f).failed {
        CreateSendsDefault(ForgetPolicy(p), query, f);
      }
    }
  }
}

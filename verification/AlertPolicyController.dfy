/** The AlertPolicy reconciler as methods that update the object and New Relic in place, each tied to its function. */
module AlertPolicyController {
  import opened Options
  import opened NrqlConditions
  import opened AlertStore
  import A = AlertPolicies
  import K = AlertPolicyConditions
  import Q = AlertPolicyQuiescence
  import opened AlertPolicyWebhook

  /** New Relic, one method a call. Faults are chosen by the environment and passed in. */
  class AlertsApi {
    var store: Store

    constructor (store: Store)
      ensures this.store == store
    {
      this.store := store;
    }

    ghost predicate Lists(ids: seq<nat>, account: int, policy: nat)
      reads this
    {
      (forall i, j :: 0 <= i < j < |ids| ==> ids[i] < ids[j]) &&
      forall c: nat ::
        c in ids <==>
        (c in store.conditions && store.conditions[c].policy == policy && PolicyReachable(store, account, policy))
    }

    /** The conditions of a policy in order of creation. */
    method SearchConditions(account: int, policy: nat) returns (ids: seq<nat>)
      modifies this
      ensures store == Log(old(store), ConditionSearch(account, policy)) && Lists(ids, account, policy)
    {
      store := Log(store, ConditionSearch(account, policy));
      ids := [];
      if !PolicyReachable(store, account, policy) {
        return;
      }
      var end := Bound(store.conditions.Keys);
      for c := 0 to end
        invariant forall i, j :: 0 <= i < j < |ids| ==> ids[i] < ids[j]
        invariant forall i :: 0 <= i < |ids| ==> ids[i] < c
        invariant forall x: nat :: x in ids <==> x < c && x in store.conditions && store.conditions[x].policy == policy
      {
        if c in store.conditions && store.conditions[c].policy == policy {
          ids := ids + [c];
        }
      }
    }

    method CreateCondition(account: int, policy: nat, content: Content, fails: bool) returns (id: Option<nat>)
      modifies this
      ensures (store, id) == CreateConditionCall(old(store), account, policy, content, fails)
    {
      var (s, created) := CreateConditionCall(store, account, policy, content, fails);
      store, id := s, created;
    }

    method UpdateCondition(account: int, id: nat, content: Content, fails: bool) returns (ok: bool)
      modifies this
      ensures (store, ok) == UpdateConditionCall(old(store), account, id, content, fails)
    {
      var (s, updated) := UpdateConditionCall(store, account, id, content, fails);
      store, ok := s, updated;
    }

    method QueryPolicy(account: int, id: nat, f: QueryFault) returns (r: QueryResult)
      modifies this
      ensures (store, r) == QueryPolicyCall(old(store), account, id, f)
    {
      var (s, found) := QueryPolicyCall(store, account, id, f);
      store, r := s, found;
    }

    /** All policies the key can see; an account shows only its own. */
    method SearchPolicies(account: int, f: SearchFault) returns (ids: seq<nat>)
      modifies this
      ensures store == Log(old(store), PolicySearch(account))
      ensures f.Answered? ==> (forall i, j :: 0 <= i < j < |ids| ==> ids[i] < ids[j]) &&
                              forall p: nat ::
                                p in ids <==> (p in store.policies && store.policies[p].account == account)
    {
      store := Log(store, PolicySearch(account));
      ids := [];
      if !f.Answered? {
        return;
      }
      var end := Bound(store.policies.Keys);
      for p := 0 to end
        invariant forall i, j :: 0 <= i < j < |ids| ==> ids[i] < ids[j]
        invariant forall i :: 0 <= i < |ids| ==> ids[i] < p
        invariant forall x: nat :: x in ids <==> (x < p && x in store.policies && store.policies[x].account == account)
      {
        if p in store.policies && store.policies[p].account == account {
          ids := ids + [p];
        }
      }
    }

    method CreatePolicy(account: int, name: string, preference: string, fails: bool) returns (id: Option<nat>)
      modifies this
      ensures (store, id) == CreatePolicyCall(old(store), account, name, preference, fails)
    {
      var (s, created) := CreatePolicyCall(store, account, name, preference, fails);
      store, id := s, created;
    }

    method UpdatePolicy(account: int, id: nat, name: string, preference: string, fails: bool) returns (ok: bool)
      modifies this
      ensures (store, ok) == UpdatePolicyCall(old(store), account, id, name, preference, fails)
    {
      var (s, updated) := UpdatePolicyCall(store, account, id, name, preference, fails);
      store, ok := s, updated;
    }

    method DeletePolicy(account: int, id: nat, f: DeleteFault) returns (r: DeleteResult)
      modifies this
      ensures (store, r) == DeletePolicyCall(old(store), account, id, f)
    {
      var (s, deleted) := DeletePolicyCall(store, account, id, f);
      store, r := s, deleted;
    }

    method DeleteCondition(account: int, id: nat, fails: bool) returns (ok: bool)
      modifies this
      ensures (store, ok) == DeleteConditionCall(old(store), account, id, fails)
    {
      var (s, deleted) := DeleteConditionCall(store, account, id, fails);
      store, ok := s, deleted;
    }
  }

  /** A number above every element. */
  method Bound(ids: set<nat>) returns (n: nat)
    ensures forall x :: x in ids ==> x < n
  {
    n := 0;
    var rest := ids;
    while rest != {}
      invariant rest <= ids && forall x :: x in ids && x !in rest ==> x < n
    {
      var x :| x in rest;
      n := if x < n then n else x + 1;
      rest := rest - {x};
    }
  }

  /** What handleConditions remembers of an applied condition. */
  datatype Processed = Processed(id: nat, name: string, processed: bool)

  function Flags(ps: seq<Processed>): (r: seq<bool>)
    ensures |r| == |ps| && forall j :: 0 <= j < |ps| ==> r[j] == ps[j].processed
  {
    seq(|ps|, j requires 0 <= j < |ps| => ps[j].processed)
  }

  predicate Remembers(ps: seq<Processed>, observed: seq<A.PolicyCondition>) {
    |ps| == |observed| &&
    forall j :: 0 <= j < |ps| ==> ps[j].id == observed[j].id && ps[j].name == A.Identity(observed[j])
  }

  predicate AllDispatchable(cs: seq<A.PolicyCondition>) {
    forall i :: 0 <= i < |cs| ==> Dispatchable(cs[i].spec)
  }

  /** The entries of a map over an ascending listing: the last ID of each nonblank name. */
  predicate Indexes(byName: map<string, nat>, conditions: map<nat, RemoteCondition>, ids: seq<nat>) {
    (forall c :: c in ids ==> c in conditions) &&
    (forall n :: n in byName ==> n != "" && byName[n] in ids && conditions[byName[n]].content.name == n) &&
    forall c :: c in ids && conditions[c].content.name != "" ==>
                  conditions[c].content.name in byName && c <= byName[conditions[c].content.name]
  }

  method IndexByName(conditions: map<nat, RemoteCondition>, ids: seq<nat>) returns (byName: map<string, nat>)
    requires forall c :: c in ids ==> c in conditions
    requires forall i, j :: 0 <= i < j < |ids| ==> ids[i] < ids[j]
    ensures Indexes(byName, conditions, ids)
  {
    byName := map[];
    for k := 0 to |ids|
      invariant Indexes(byName, conditions, ids[..k])
    {
      var name := conditions[ids[k]].content.name;
      assert forall c :: c in ids[..k + 1] <==> c in ids[..k] || c == ids[k];
      assert forall c :: c in ids[..k] ==> c < ids[k];
      if name != "" {
        byName := byName[name := ids[k]];
      }
    }
    assert ids[..|ids|] == ids;
  }

  lemma IndexIsLast(s: Store, account: int, policy: nat, ids: seq<nat>, byName: map<string, nat>, name: string)
    requires Indexes(byName, s.conditions, ids)
    requires forall c: nat ::
               c in ids <==>
               (c in s.conditions && s.conditions[c].policy == policy && PolicyReachable(s, account, policy))
    ensures Lookup(byName, name) == A.LastListed(s, account, policy, name)
  {
    var named := Named(s, policy, name);
    if PolicyReachable(s, account, policy) && name != "" {
      assert forall c :: c in named <==> c in ids && s.conditions[c].content.name == name;
      assert name in byName <==> named != {};
    }
  }

  method RememberApplied(observed: seq<A.PolicyCondition>) returns (processed: seq<Processed>)
    ensures Remembers(processed, observed) && forall j :: 0 <= j < |processed| ==> !processed[j].processed
  {
    processed := [];
    for j := 0 to |observed|
      invariant Remembers(processed, observed[..j]) && forall k :: 0 <= k < j ==> !processed[k].processed
    {
      processed := processed + [Processed(observed[j].id, A.Identity(observed[j]), false)];
    }
    assert observed[..|observed|] == observed;
  }

  lemma ExistingIsListed(s: Store, account: int, policy: nat, name: string, id: nat)
    requires A.FirstListed(s, account, policy, name) == Some(id)
    ensures id in s.conditions
  {
  }

  lemma TurnKeepsDispatchable(job: A.Job, w: A.Work, i: nat)
    requires i < |w.conditions| && |w.processed| == |job.observed| && AllDispatchable(w.conditions)
    ensures AllDispatchable(A.ProcessOne(job, w, i).conditions)
  {
    K.TurnKeepsSpecs(job, w, i);
  }

  method FindAppliedConditionIndex(conditions: seq<A.PolicyCondition>, name: string) returns (index: int)
    ensures var k := A.FindApplied(conditions, name); index == if k < |conditions| then k else -1
  {
    for i := 0 to |conditions|
      invariant forall j :: 0 <= j < i ==> A.Identity(conditions[j]) != name
    {
      if A.Identity(conditions[i]) == name {
        return i;
      }
    }
    index := -1;
  }

  method HaveConditionsChanged(policy: AlertPolicy) returns (changed: bool)
    ensures changed == A.HaveConditionsChanged(policy.Value())
  {
    var configured := policy.spec.conditions;
    var observed := if policy.status.applied.Some? then policy.status.applied.value.conditions else [];
    if |configured| != |observed| {
      return true;
    }
    for i := 0 to |configured|
      invariant forall k :: 0 <= k < i ==> configured[k].spec == observed[k].spec
    {
      if configured[i].spec != observed[i].spec {
        return true;
      }
    }
    changed := false;
  }

  /** Attempts of a status write before a conflict is given up on. */
  const RETRY_STEPS := 5

  /** The object in the API server, with its resource version. */
  class StoredPolicy {
    var spec: A.PolicySpec
    var status: A.Status
    var version: nat
    var deleting: bool
    var finalizer: bool

    constructor (spec: A.PolicySpec)
      ensures this.spec == spec && status == A.Status(0, None, A.Unset) && !deleting && !finalizer
    {
      this.spec, status, version, deleting, finalizer := spec, A.Status(0, None, A.Unset), 0, false, false;
    }
  }

  class AlertPolicyReconciler {
    const api: AlertsApi

    constructor (api: AlertsApi)
      ensures this.api == api
    {
      this.api := api;
    }

    method GetExistingNrqlCondition(policy: AlertPolicy, name: string, fails: bool)
      returns (failed: bool, id: Option<nat>)
      modifies api
      ensures api.store == Log(old(api.store), ConditionSearch(policy.spec.accountId, policy.status.policyId))
      ensures failed == fails
      ensures !failed ==> id == A.FirstListed(api.store, policy.spec.accountId, policy.status.policyId, name)
    {
      var ids := api.SearchConditions(policy.spec.accountId, policy.status.policyId);
      failed, id := fails, None;
      if failed {
        return;
      }
      ghost var named := Named(api.store, policy.status.policyId, name);
      for k := 0 to |ids|
        invariant forall j :: 0 <= j < k ==> ids[j] !in named
      {
        if api.store.conditions[ids[k]].content.name == name {
          assert ids[k] in named;
          assert forall c :: c in named ==> c in ids;
          return false, Some(ids[k]);
        }
      }
      assert forall c :: c in named && c in ids ==> false;
    }

    /** A map over the listing keeps the last condition of a name. */
    method GetExistingNrqlConditionsByName(policy: AlertPolicy, fails: bool)
      returns (failed: bool, byName: map<string, nat>)
      modifies api
      ensures api.store == Log(old(api.store), ConditionSearch(policy.spec.accountId, policy.status.policyId))
      ensures failed == fails
      ensures !failed ==> forall n :: Lookup(byName, n) ==
                                      A.LastListed(api.store, policy.spec.accountId, policy.status.policyId, n)
    {
      var ids := api.SearchConditions(policy.spec.accountId, policy.status.policyId);
      failed, byName := fails, map[];
      if failed {
        return;
      }
      byName := IndexByName(api.store.conditions, ids);
      forall n
        ensures Lookup(byName, n) == A.LastListed(api.store, policy.spec.accountId, policy.status.policyId, n)
      {
        IndexIsLast(api.store, policy.spec.accountId, policy.status.policyId, ids, byName, n);
      }
    }

    // ----- Single conditions -----

    /** The condition with its new ID, or None on failure. */
    method CreateCondition(policy: AlertPolicy, c: A.PolicyCondition, fails: bool)
      returns (created: Option<A.PolicyCondition>)
      requires Dispatchable(c.spec)
      modifies api
      ensures var (s, id) := CreateConditionCall(old(api.store), policy.spec.accountId, policy.status.policyId,
                                                 Denote(c.spec), fails);
              api.store == s &&
              created == if id.None? then None else Some(c.(name := c.spec.name, id := id.value))
    {
      hide Denote;
      var input := FetchNrqlCreateInput(c.spec);
      var id := None;
      if c.spec.kind == STATIC {
        id := api.CreateCondition(policy.spec.accountId, policy.status.policyId, Created(input, STATIC), fails);
      } else if c.spec.baselineDirection.Some? {
        id := api.CreateCondition(policy.spec.accountId, policy.status.policyId, Created(input, BASELINE), fails);
      }
      created := if id.None? then None else Some(c.(name := Created(input, STATIC).name, id := id.value));
      assert Created(input, KindSent(c.spec)).name == c.spec.name;
    }

    method UpdateCondition(policy: AlertPolicy, c: A.PolicyCondition, fails: bool)
      returns (updated: Option<A.PolicyCondition>)
      requires Dispatchable(c.spec) && c.name == c.spec.name
      modifies api
      ensures var (s, ok) := UpdateConditionCall(old(api.store), policy.spec.accountId, c.id, Denote(c.spec), fails);
              api.store == s && updated == if ok then Some(c) else None
    {
      hide Denote;
      var input := FetchNrqlUpdateInput(c.spec);
      var ok := false;
      if c.spec.kind == STATIC {
        ok := api.UpdateCondition(policy.spec.accountId, c.id, Updated(input, STATIC), fails);
      } else if c.spec.baselineDirection.Some? {
        ok := api.UpdateCondition(policy.spec.accountId, c.id, Updated(input, BASELINE), fails);
      }
      updated := if ok then Some(c.(name := Updated(input, STATIC).name)) else None;
      assert Updated(input, KindSent(c.spec)).name == c.spec.name;
    }

    // ----- handleConditions -----

    /** One turn of the loop over the configured conditions. */
    method ProcessCondition(policy: AlertPolicy, i: nat, observed: seq<A.PolicyCondition>, before: seq<Processed>,
                            earlier: seq<string>, f: A.ConditionFaults)
      returns (processed: seq<Processed>, errors: seq<string>)
      requires i < |policy.spec.conditions| && Remembers(before, observed) &&
              Dispatchable(policy.spec.conditions[i].spec)
      modifies policy`spec, api
      ensures var job := A.Job(policy.spec.accountId, policy.status.policyId, observed, f);
              var w := A.Work(old(api.store), old(policy.spec.conditions), Flags(before), earlier);
              var r := A.ProcessOne(job, w, i);
              api.store == r.store && policy.spec == old(policy.spec).(conditions := r.conditions) &&
              Flags(processed) == r.processed && errors == r.errors
      ensures Remembers(processed, observed)
    {
      hide Denote, Project, A.FirstListed;
      processed, errors := before, earlier;
      var c := policy.spec.conditions[i];
      var failed, existing := GetExistingNrqlCondition(policy, c.spec.name, f.search(i));
      if failed {
        errors := errors + [c.spec.name];
        return;
      }
      var k := FindAppliedConditionIndex(observed, c.spec.name);
      if existing.None? {
        var created := CreateCondition(policy, c, f.mutate(i));
        if created.None? {
          errors := errors + [c.spec.name];
          return;
        }
        if k >= 0 {
          processed := processed[k := processed[k].(processed := true)];
        }
        policy.spec := policy.spec.(conditions := policy.spec.conditions[i := created.value]);
        return;
      }
      c := c.(name := c.spec.name, id := existing.value);
      var current := false;
      if k >= 0 {
        processed := processed[k := processed[k].(processed := true)];
        current := c.spec == observed[k].spec;
      } else {
        ExistingIsListed(api.store, policy.spec.accountId, policy.status.policyId, c.spec.name, existing.value);
        var remote := BuildPolicyConditionSpecFromRemote(api.store.conditions[existing.value].content);
        current := remote == c.spec;
      }
      if current {
        policy.spec := policy.spec.(conditions := policy.spec.conditions[i := c]);
        return;
      }
      var updated := UpdateCondition(policy, c, f.mutate(i));
      if updated.None? {
        errors := errors + [c.spec.name];
        return;
      }
      policy.spec := policy.spec.(conditions := policy.spec.conditions[i := updated.value]);
    }

    /** One turn of the loop that deletes what was not processed. */
    method DeleteUnprocessed(policy: AlertPolicy, entry: Processed, byName: map<string, nat>, fails: bool)
      returns (ok: bool)
      requires !entry.processed
      modifies api
      ensures var id := if entry.id != 0 then entry.id else if entry.name in byName then byName[entry.name] else 0;
              (api.store, ok) == DeleteConditionCall(old(api.store), policy.spec.accountId, id, fails)
    {
      var id := entry.id;
      if id == 0 && entry.name in byName {
        id := byName[entry.name];
      }
      ok := api.DeleteCondition(policy.spec.accountId, id, fails);
    }

    method HandleConditions(policy: AlertPolicy, f: A.ConditionFaults) returns (failed: bool)
      requires AllDispatchable(policy.spec.conditions)
      modifies policy, api
      ensures A.Result(policy.Value(), api.store, failed) == A.HandleConditions(old(policy.Value()), old(api.store), f)
    {
      hide A.ProcessOne, A.DeleteOne, Denote, Project;
      var observed := if policy.status.applied.Some? then policy.status.applied.value.conditions else [];
      ghost var job := A.JobOf(policy.Value(), f);
      ghost var w := A.WorkOf(policy.Value(), api.store);
      var processed := RememberApplied(observed);
      var errors := [];
      var n := |policy.spec.conditions|;
      assert Flags(processed) == w.processed;
      for i := 0 to n
        invariant |policy.spec.conditions| == n && AllDispatchable(policy.spec.conditions)
        invariant policy.spec == old(policy.spec).(conditions := policy.spec.conditions)
        invariant policy.status == old(policy.status)
        invariant Remembers(processed, observed)
        invariant A.Work(api.store, policy.spec.conditions, Flags(processed), errors) == A.ProcessUpTo(job, w, i)
      {
        ghost var before := policy.spec.conditions;
        processed, errors := ProcessCondition(policy, i, observed, processed, errors, f);
        TurnKeepsDispatchable(job, A.ProcessUpTo(job, w, i), i);
      }
      errors := DeleteStale(policy, observed, processed, errors, f);
      policy.status := policy.status.(applied := Some(policy.spec));
      failed := |errors| > 0;
    }

    method DeleteStale(policy: AlertPolicy, observed: seq<A.PolicyCondition>, processed: seq<Processed>,
                       earlier: seq<string>, f: A.ConditionFaults)
      returns (errors: seq<string>)
      requires Remembers(processed, observed)
      modifies api
      ensures var job := A.Job(policy.spec.accountId, policy.status.policyId, observed, f);
              var w := A.Work(old(api.store), policy.spec.conditions, Flags(processed), earlier);
              A.Work(api.store, policy.spec.conditions, Flags(processed), errors) == A.DeletePhase(job, w)
    {
      hide A.LastListed, DeleteConditionCall;
      errors := earlier;
      ghost var job := A.Job(policy.spec.accountId, policy.status.policyId, observed, f);
      ghost var w := A.Work(api.store, policy.spec.conditions, Flags(processed), earlier);
      if |processed| == 0 {
        return;
      }
      var failed, byName := GetExistingNrqlConditionsByName(policy, f.list);
      if failed {
        errors := errors + [""];
        return;
      }
      ghost var v := w.(store := api.store);
      for j := 0 to |processed|
        invariant A.Work(api.store, policy.spec.conditions, Flags(processed), errors) ==
                  A.DeleteUpTo(job, v.store, v, j)
      {
        var entry := processed[j];
        if !entry.processed {
          assert Lookup(byName, entry.name) == A.LastListed(v.store, job.account, job.policyId, entry.name);
          var ok := DeleteUnprocessed(policy, entry, byName, f.delete(j));
          if !ok {
            errors := errors + [entry.name];
          }
        }
      }
    }

    // ----- Deciding whether conditions need work -----

    method NeedsConditionReconcile(policy: AlertPolicy, fails: bool) returns (failed: bool, needed: bool)
      modifies api
      ensures var p := policy.Value();
              if A.HaveConditionsChanged(p) then !failed && needed && api.store == old(api.store)
              else if p.spec.conditions == [] then !failed && !needed && api.store == old(api.store)
              else api.store == Log(old(api.store), ConditionSearch(p.spec.accountId, p.status.policyId)) &&
                   failed == fails && (!failed ==> needed == !A.AllRemoteConditionsMatch(p, old(api.store)))
    {
      hide Project, A.LastListed;
      var changed := HaveConditionsChanged(policy);
      if changed || |policy.spec.conditions| == 0 {
        return false, changed;
      }
      var byName;
      failed, byName := GetExistingNrqlConditionsByName(policy, fails);
      needed := false;
      if failed {
        return;
      }
      SearchShowsSame(policy.Value(), old(api.store), api.store);
      ghost var listing := api.store;
      for i := 0 to |policy.spec.conditions|
        invariant api.store == listing
        invariant forall k :: 0 <= k < i ==> A.RemoteConditionMatches(policy.Value(), api.store, k)
      {
        var c := policy.spec.conditions[i];
        var name := A.Identity(c);
        assert Lookup(byName, name) == A.LastListed(listing, policy.spec.accountId, policy.status.policyId, name);
        if name !in byName {
          needed := true;
          assert !A.RemoteConditionMatches(policy.Value(), listing, i);
          return;
        }
        LastIsListed(api.store, policy.spec.accountId, policy.status.policyId, name, byName[name]);
        var remote := BuildPolicyConditionSpecFromRemote(api.store.conditions[byName[name]].content);
        if remote != c.spec {
          needed := true;
          assert !A.RemoteConditionMatches(policy.Value(), listing, i);
          return;
        }
      }
    }

    method ReconcileConditionsIfNeeded(policy: AlertPolicy, compareFails: bool, f: A.ConditionFaults)
      returns (failed: bool)
      requires AllDispatchable(policy.spec.conditions)
      modifies policy, api
      ensures A.Result(policy.Value(), api.store, failed) ==
              A.ReconcileConditionsIfNeeded(old(policy.Value()), old(api.store), compareFails, f)
    {
      hide A.HandleConditions, A.AllRemoteConditionsMatch, A.HaveConditionsChanged;
      var observed := if policy.status.applied.Some? then |policy.status.applied.value.conditions| else 0;
      if |policy.spec.conditions| == 0 && observed == 0 {
        return false;
      }
      var needed;
      failed, needed := NeedsConditionReconcile(policy, compareFails);
      if failed || !needed {
        return;
      }
      failed := HandleConditions(policy, f);
    }

    // ----- The policy -----

    method CreatePolicyConditions(policy: AlertPolicy, f: A.ConditionFaults) returns (failed: bool)
      requires AllDispatchable(policy.spec.conditions)
      requires policy.status.applied.Some? && policy.status.applied.value.conditions == policy.spec.conditions
      modifies policy, api
      ensures var w0 := A.Work(old(api.store), old(policy.spec.conditions), [], []);
              var w := A.CreatePolicyConditions(w0, old(policy.spec.accountId), old(policy.status.policyId),
                                                |old(policy.spec.conditions)|, f);
              api.store == w.store && failed == (w.errors != []) &&
              policy.spec == old(policy.spec).(conditions := w.conditions) &&
              policy.status == old(policy.status).(
                applied := Some(old(policy.status.applied.value).(conditions := w.conditions)))
    {
      hide Denote;
      var errors := [];
      var n := |policy.spec.conditions|;
      ghost var w0 := A.Work(api.store, policy.spec.conditions, [], []);
      ghost var account, id := policy.spec.accountId, policy.status.policyId;
      for i := 0 to n
        invariant A.Work(api.store, policy.spec.conditions, [], errors) ==
                  A.CreatePolicyConditions(w0, account, id, i, f)
        invariant |policy.spec.conditions| == n && AllDispatchable(policy.spec.conditions)
        invariant policy.spec == old(policy.spec).(conditions := policy.spec.conditions)
        invariant policy.status == old(policy.status).(
                    applied := Some(old(policy.status.applied.value).(conditions := policy.spec.conditions)))
      {
        var created := CreateCondition(policy, policy.spec.conditions[i], f.mutate(i));
        if created.None? {
          errors := errors + [policy.spec.conditions[i].name];
        } else {
          policy.spec := policy.spec.(conditions := policy.spec.conditions[i := created.value]);
          var applied := policy.status.applied.value;
          policy.status := policy.status.(
            applied := Some(applied.(conditions := applied.conditions[i := created.value])));
        }
      }
      failed := |errors| > 0;
    }

    method CreatePolicy(policy: AlertPolicy, f: A.Faults) returns (failed: bool)
      requires AllDispatchable(policy.spec.conditions)
      modifies policy, api
      ensures A.Result(policy.Value(), api.store, failed) == A.CreatePolicy(old(policy.Value()), old(api.store), f)
    {
      hide A.CreatePolicyConditions;
      var preference := A.PreferenceSent(policy.spec.preference);
      var id := api.CreatePolicy(policy.spec.accountId, policy.spec.name, preference, f.createFails);
      if id.None? {
        return true;
      }
      policy.status := policy.status.(policyId := id.value, applied := None);
      var applied := A.BuildApplied(A.Policy(policy.spec, policy.status), policy.spec.name, preference);
      policy.status := policy.status.(applied := Some(applied.(conditions := policy.spec.conditions)));
      failed := CreatePolicyConditions(policy, f.conditions);
    }

    method UpdatePolicy(policy: AlertPolicy, f: A.Faults) returns (failed: bool)
      requires AllDispatchable(policy.spec.conditions)
      modifies policy, api
      ensures A.Result(policy.Value(), api.store, failed) == A.UpdatePolicy(old(policy.Value()), old(api.store), f)
    {
      hide A.ReconcileConditionsIfNeeded;
      var preference := A.PreferenceSent(policy.spec.preference);
      var ok := api.UpdatePolicy(policy.spec.accountId, policy.status.policyId, policy.spec.name, preference,
          f.updateFails);
      if !ok {
        return true;
      }
      var applied := A.BuildApplied(A.Policy(policy.spec, policy.status), policy.spec.name, preference);
      policy.status := policy.status.(applied := Some(applied));
      failed := ReconcileConditionsIfNeeded(policy, f.compareFails, f.conditions);
    }

    /** The policies of the account with exactly this name. */
    method FindPolicyByName(account: int, name: string, f: SearchFault) returns (matches: seq<nat>)
      modifies api
      ensures api.store == Log(old(api.store), PolicySearch(account))
      ensures f.Answered? ==>
                (forall p: nat :: p in matches <==> p in NameMatches(api.store, account, name)) &&
                |matches| == |NameMatches(api.store, account, name)|
    {
      var ids := api.SearchPolicies(account, f);
      matches := [];
      if !f.Answered? {
        return;
      }
      for k := 0 to |ids|
        invariant forall i, j :: 0 <= i < j < |matches| ==> matches[i] < matches[j]
        invariant forall i :: 0 <= i < |matches| ==> matches[i] in ids[..k]
        invariant forall p: nat :: p in matches <==> (p in ids[..k] && api.store.policies[p].name == name)
      {
        assert forall p: nat :: p in ids[..k + 1] <==> p in ids[..k] || p == ids[k];
        var candidate := api.store.policies[ids[k]];
        if candidate.name == name && !(candidate.account != 0 && candidate.account != account) {
          matches := matches + [ids[k]];
        }
      }
      AscendingSize(matches, NameMatches(api.store, account, name));
    }

    method SyncRemotePolicy(policy: AlertPolicy, f: A.Faults) returns (blocked: bool, failed: bool)
      requires AllDispatchable(policy.spec.conditions)
      modifies policy, api
      ensures A.SyncResult(policy.Value(), api.store, blocked, failed) == A.Sync(old(policy.Value()), old(api.store), f)
    {
      hide A.SyncExisting, A.CreatePolicy, QueryPolicyCall;
      var account := policy.spec.accountId;
      var status := policy.status;
      if status.policyId != 0 && status.applied.Some? && status.applied.value.accountId > 0 &&
         status.applied.value.accountId != account {
        policy.status := status.(ready := A.AccountIDChanged);
        return true, false;
      }
      if status.policyId != 0 {
        var r := api.QueryPolicy(account, status.policyId, f.query);
        match r
        case Found(remoteAccount, name, preference) =>
          blocked, failed := SyncExisting(policy, status.policyId, RemotePolicy(remoteAccount, name, preference), f);
        case NoPolicy =>
          blocked, failed := false, true;
        case NotFound =>
          Forget(policy);
          blocked, failed := SyncNew(policy, f);
        case AccessDenied =>
          policy.status := status.(ready := A.AccountAccessDenied);
          blocked, failed := true, false;
        case OtherError =>
          blocked, failed := false, true;
      } else {
        blocked, failed := SyncByName(policy, f);
      }
    }

    method SyncByName(policy: AlertPolicy, f: A.Faults) returns (blocked: bool, failed: bool)
      requires AllDispatchable(policy.spec.conditions)
      modifies policy, api
      ensures A.SyncResult(policy.Value(), api.store, blocked, failed) ==
              A.SyncByName(old(policy.Value()), old(api.store), f)
    {
      hide A.SyncExisting, A.CreatePolicy;
      var matches := FindPolicyByName(policy.spec.accountId, policy.spec.name, f.search);
      match f.search
      case SearchDenied =>
        policy.status := policy.status.(ready := A.AccountAccessDenied);
        blocked, failed := true, false;
      case SearchBroken =>
        blocked, failed := false, true;
      case Answered =>
        assert NameMatches(api.store, policy.spec.accountId, policy.spec.name) ==
               NameMatches(old(api.store), policy.spec.accountId, policy.spec.name);
        if |matches| == 0 {
          blocked, failed := SyncNew(policy, f);
        } else if |matches| == 1 {
          assert matches[0] in NameMatches(api.store, policy.spec.accountId, policy.spec.name);
          blocked, failed := SyncExisting(policy, matches[0], api.store.policies[matches[0]], f);
        } else {
          policy.status := policy.status.(ready := A.AmbiguousPolicyName);
          blocked, failed := true, false;
        }
    }

    method Forget(policy: AlertPolicy)
      modifies policy
      ensures policy.Value() == A.ForgetPolicy(old(policy.Value()))
      ensures AllDispatchable(old(policy.spec.conditions)) ==> AllDispatchable(policy.spec.conditions)
    {
      policy.status := policy.status.(policyId := 0);
      ghost var cs := policy.spec.conditions;
      for i := 0 to |policy.spec.conditions|
        invariant policy.status == old(policy.status).(policyId := 0)
        invariant policy.spec == old(policy.spec).(conditions := policy.spec.conditions)
        invariant |policy.spec.conditions| == |cs|
        invariant forall k :: 0 <= k < |cs| ==> policy.spec.conditions[k] == if k < i then cs[k].(id := 0) else cs[k]
      {
        var c := policy.spec.conditions[i];
        policy.spec := policy.spec.(conditions := policy.spec.conditions[i := c.(id := 0)]);
      }
      assert policy.spec.conditions == A.ForgetPolicy(old(policy.Value())).spec.conditions;
    }

    method SyncNew(policy: AlertPolicy, f: A.Faults) returns (blocked: bool, failed: bool)
      requires AllDispatchable(policy.spec.conditions)
      modifies policy, api
      ensures A.SyncResult(policy.Value(), api.store, blocked, failed) ==
              A.Finish(A.CreatePolicy(old(policy.Value()), old(api.store), f))
    {
      hide A.CreatePolicy;
      blocked := false;
      failed := CreatePolicy(policy, f);
      if !failed {
        policy.status := policy.status.(ready := A.Synced);
      }
    }

    method SyncExisting(policy: AlertPolicy, id: nat, remote: RemotePolicy, f: A.Faults)
      returns (blocked: bool, failed: bool)
      requires AllDispatchable(policy.spec.conditions)
      modifies policy, api
      ensures A.SyncResult(policy.Value(), api.store, blocked, failed) ==
              A.SyncExisting(old(policy.Value()), old(api.store), id, remote, f)
    {
      hide A.UpdatePolicy, A.ReconcileConditionsIfNeeded;
      if remote.account != 0 && remote.account != policy.spec.accountId {
        policy.status := policy.status.(ready := A.AccountMismatch);
        return true, false;
      }
      blocked := false;
      var applied := A.BuildApplied(A.Policy(policy.spec, policy.status), remote.name, remote.preference);
      policy.status := policy.status.(policyId := id, applied := Some(applied));
      if remote.name != policy.spec.name || remote.preference != policy.spec.preference {
        failed := UpdatePolicy(policy, f);
      } else {
        failed := ReconcileConditionsIfNeeded(policy, f.compareFails, f.conditions);
      }
      if !failed {
        policy.status := policy.status.(ready := A.Synced);
      }
    }

    /** Whether the finalizer may go. */
    method DeletePolicy(policy: AlertPolicy, d: DeleteFault, q: QueryFault) returns (released: bool)
      modifies api
      ensures (released, api.store) == A.DeletePolicy(policy.Value(), old(api.store), d, q)
    {
      if policy.status.policyId == 0 {
        return true;
      }
      var account := A.AccountForDelete(A.Policy(policy.spec, policy.status));
      var r := api.DeletePolicy(account, policy.status.policyId, d);
      if !r.DeleteError? {
        return true;
      }
      var found := api.QueryPolicy(account, policy.status.policyId, q);
      released := found.NotFound?;
    }

    // ----- The stored object -----

    /** Writes the status, starting over when someone else wrote first; each attempt meets one of the edits as long as
        there are any left. Edits are never overwritten, and five in a row make the write fail. */
    method UpdateStatusIfChanged(stored: StoredPolicy, policy: AlertPolicy, edits: seq<A.PolicySpec>) returns (ok: bool)
      modifies stored
      ensures var same := old(stored.status) == policy.status;
              (ok <==> same || |edits| < RETRY_STEPS) &&
              stored.status == (if ok then policy.status else old(stored.status)) &&
              stored.spec == if same then old(stored.spec) else Latest(old(stored.spec), edits, RETRY_STEPS)
      ensures stored.finalizer == old(stored.finalizer) && stored.deleting == old(stored.deleting)
    {
      for attempt := 0 to RETRY_STEPS
        invariant stored.status == old(stored.status) && (attempt > 0 ==> stored.status != policy.status)
        invariant attempt <= |edits| && stored.spec == Latest(old(stored.spec), edits, attempt)
        invariant stored.finalizer == old(stored.finalizer) && stored.deleting == old(stored.deleting)
      {
        var current, version := stored.status, stored.version;
        if current == policy.status {
          return true;
        }
        if attempt < |edits| {
          stored.spec, stored.version := edits[attempt], stored.version + 1;
        }
        if stored.version == version {
          stored.status, stored.version := policy.status, stored.version + 1;
          return true;
        }
      }
      ok := false;
    }

    /** One reconcile of the stored object; the edits arrive while the status is being written. Five edits in a row lose
        the new status, but not what was done in New Relic. */
    method Reconcile(stored: StoredPolicy, edits: seq<A.PolicySpec>, f: A.Faults, d: DeleteFault, q: QueryFault)
      requires AllDispatchable(stored.spec.conditions)
      modifies stored, api
      ensures stored.deleting == old(stored.deleting)
      ensures !stored.deleting ==>
                var (status, store) := A.ReconcileStatus(A.Policy(old(stored.spec), old(stored.status)),
                    old(api.store), f);
                var same := status == old(stored.status);
                stored.finalizer && api.store == store &&
                stored.status == (if |edits| < RETRY_STEPS then status else old(stored.status)) &&
                stored.spec == if same then old(stored.spec) else Latest(old(stored.spec), edits, RETRY_STEPS)
      ensures stored.deleting ==> stored.spec == old(stored.spec) && stored.status == old(stored.status)
      ensures stored.deleting && old(stored.finalizer) ==>
                (!stored.finalizer, api.store) ==
                A.DeletePolicy(A.Policy(old(stored.spec), old(stored.status)), old(api.store), d, q)
      ensures stored.deleting && !old(stored.finalizer) ==> api.store == old(api.store) && !stored.finalizer
    {
      hide A.Sync, A.HaveConditionsChanged, A.DeletePolicy;
      var policy := new AlertPolicy(stored.spec, stored.status);
      if stored.deleting {
        if stored.finalizer {
          var released := DeletePolicy(policy, d, q);
          if released {
            stored.finalizer, stored.version := false, stored.version + 1;
          }
        }
        return;
      }
      if !stored.finalizer {
        stored.finalizer, stored.version := true, stored.version + 1;
      }
      var matches := MatchesAppliedPolicyState(policy);
      if matches {
        if policy.status.ready != A.Synced {
          policy.status := policy.status.(ready := A.Synced);
          var _ := UpdateStatusIfChanged(stored, policy, edits);
        }
        return;
      }
      var blocked, failed := SyncRemotePolicy(policy, f);
      if policy.status.applied.None? {
        policy.status := policy.status.(applied := Some(A.EMPTY_SPEC));
      }
      var _ := UpdateStatusIfChanged(stored, policy, edits);
    }

    method MatchesAppliedPolicyState(policy: AlertPolicy) returns (matches: bool)
      ensures matches == A.MatchesApplied(policy.Value())
      ensures matches <==> policy.status.policyId != 0 && policy.status.applied.Some? &&
                           Q.SameButMetadata(policy.spec, policy.status.applied.value)
    {
      hide A.HaveConditionsChanged;
      assert policy.Value() == A.Policy(policy.spec, policy.status);
      Q.SettlesIff(policy.spec, policy.status);
      if policy.status.policyId == 0 || policy.status.applied.None? {
        return false;
      }
      var spec, applied := policy.spec, policy.status.applied.value;
      if spec.name != applied.name || spec.preference != applied.preference || spec.region != applied.region ||
         spec.accountId != applied.accountId || spec.apiKey != applied.apiKey ||
         spec.apiKeySecret != applied.apiKeySecret {
        return false;
      }
      var changed := HaveConditionsChanged(policy);
      matches := !changed;
    }
  }

  /** The spec after some of the edits. */
  function Latest(spec: A.PolicySpec, edits: seq<A.PolicySpec>, n: nat): A.PolicySpec {
    if n == 0 || edits == [] then spec else if n <= |edits| then edits[n - 1] else edits[|edits| - 1]
  }

  function Lookup(m: map<string, nat>, name: string): Option<nat> {
    if name in m then Some(m[name]) else None
  }

  lemma SearchShowsSame(p: A.Policy, s: Store, t: Store)
    requires t.policies == s.policies && t.conditions == s.conditions
    ensures A.AllRemoteConditionsMatch(p, t) <==> A.AllRemoteConditionsMatch(p, s)
  {
    hide Project;
    assert forall n :: Named(t, p.status.policyId, n) == Named(s, p.status.policyId, n);
    assert forall i :: 0 <= i < |p.spec.conditions| ==>
        (A.RemoteConditionMatches(p, t, i) <==> A.RemoteConditionMatches(p, s, i));
  }

  lemma LastIsListed(s: Store, account: int, policy: nat, name: string, id: nat)
    requires A.LastListed(s, account, policy, name) == Some(id)
    ensures id in s.conditions
  {
  }

  lemma {:induction false} AscendingSize(ids: seq<nat>, members: set<nat>)
    requires forall i, j :: 0 <= i < j < |ids| ==> ids[i] < ids[j]
    requires forall p: nat :: p in ids <==> p in members
    ensures |ids| == |members|
  {
    if ids == [] {
      assert members == {};
    } else {
      var last := ids[|ids| - 1];
      var rest := ids[..|ids| - 1];
      assert forall p: nat :: p in ids <==> p in rest || p == last;
      assert forall p: nat :: p in rest ==> p < last;
      AscendingSize(rest, members - {last});
    }
  }
}

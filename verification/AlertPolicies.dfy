/** The AlertPolicy reconciler as functions on values. The reconciler's own methods are proved equal to these. */
module AlertPolicies {
  import opened Options
  import opened Accounts
  import opened NrqlConditions
  import opened AlertStore

  // ----- The custom resource -----

  datatype PolicyCondition = PolicyCondition(name: string, id: nat, spec: ConditionSpec)

  datatype PolicySpec = PolicySpec(
    name: string, preference: string, region: string, accountId: int, apiKey: string, apiKeySecret: Secret,
    conditions: seq<PolicyCondition>)

  const EMPTY_SPEC := PolicySpec("", "", "", 0, "", NO_SECRET, [])

  /** The reason of the Ready condition. */
  datatype Reason = Unset | Synced | AccountAccessDenied | AccountMismatch | AccountIDChanged | AmbiguousPolicyName

  /** A policyId of 0 means that no remote policy is recorded. */
  datatype Status = Status(policyId: nat, applied: Option<PolicySpec>, ready: Reason)

  datatype Policy = Policy(spec: PolicySpec, status: Status)

  const PER_POLICY := "PER_POLICY"
  const PER_CONDITION := "PER_CONDITION"
  const PER_CONDITION_AND_TARGET := "PER_CONDITION_AND_TARGET"

  predicate PreferenceKnown(preference: string) {
    preference in {PER_POLICY, PER_CONDITION, PER_CONDITION_AND_TARGET}
  }

  function PreferenceSent(preference: string): string {
    if PreferenceKnown(preference) then preference else PER_CONDITION
  }

  function Identity(c: PolicyCondition): string { if c.name != "" then c.name else c.spec.name }

  /** Position of the first applied condition with a name, or the length. */
  function FindApplied(conditions: seq<PolicyCondition>, name: string): (k: nat)
    ensures k <= |conditions|
    ensures k < |conditions| ==> Identity(conditions[k]) == name
    ensures forall j :: 0 <= j < k ==> Identity(conditions[j]) != name
  {
    if conditions == [] || Identity(conditions[0]) == name then 0
    else
      var k := 1 + FindApplied(conditions[1..], name);
      assert forall j :: 1 <= j < k ==> conditions[j] == conditions[1..][j - 1];
      k
  }

  function ObservedConditions(p: Policy): seq<PolicyCondition> {
    if p.status.applied.Some? then p.status.applied.value.conditions else []
  }

  predicate SameSpecs(a: seq<PolicyCondition>, b: seq<PolicyCondition>) {
    |a| == |b| && forall i :: 0 <= i < |a| ==> a[i].spec == b[i].spec
  }

  predicate HaveConditionsChanged(p: Policy) { !SameSpecs(p.spec.conditions, ObservedConditions(p)) }

  /** The cache check: the stored object says that nothing is left to do. */
  predicate MatchesApplied(p: Policy) {
    p.status.policyId != 0 && p.status.applied.Some? &&
    (var a := p.status.applied.value;
     p.spec.(conditions := []) == a.(conditions := []) && !HaveConditionsChanged(p))
  }

  // ----- handleConditions -----

  /** Which condition calls of one reconcile fail; the indices are those of the loops. */
  datatype ConditionFaults = ConditionFaults(search: nat -> bool, mutate: nat -> bool, list: bool, delete: nat -> bool)

  datatype Job = Job(account: int, policyId: nat, observed: seq<PolicyCondition>, f: ConditionFaults)

  datatype Work = Work(store: Store, conditions: seq<PolicyCondition>, processed: seq<bool>, errors: seq<string>)

  /** The first condition of a name in the listing of a policy. */
  ghost function FirstListed(s: Store, account: int, policy: nat, name: string): Option<nat> {
    if PolicyReachable(s, account, policy) then FirstNamed(s, policy, name) else None
  }

  /** The condition that a map by name over the listing keeps; blank names are left out of the map. */
  ghost function LastListed(s: Store, account: int, policy: nat, name: string): Option<nat> {
    if PolicyReachable(s, account, policy) && name != "" then LastNamed(s, policy, name) else None
  }

  predicate Fits(job: Job, w: Work, n: nat) { |w.conditions| == n && |w.processed| == |job.observed| }

  function Fail(w: Work, name: string): Work { w.(errors := w.errors + [name]) }

  function UpdateOne(job: Job, w: Work, i: nat, c: PolicyCondition): Work
    requires i < |w.conditions|
  {
    var (s, ok) := UpdateConditionCall(w.store, job.account, c.id, Denote(c.spec), job.f.mutate(i));
    if ok then w.(store := s, conditions := w.conditions[i := c]) else Fail(w.(store := s), c.spec.name)
  }

  function CreateOne(job: Job, w: Work, i: nat, c: PolicyCondition): Work
    requires i < |w.conditions| && |w.processed| == |job.observed|
  {
    var (s, id) := CreateConditionCall(w.store, job.account, job.policyId, Denote(c.spec), job.f.mutate(i));
    if id.None? then Fail(w.(store := s), c.spec.name)
    else
      var k := FindApplied(job.observed, c.spec.name);
      w.(store := s, conditions := w.conditions[i := c.(name := c.spec.name, id := id.value)],
         processed := if k < |job.observed| then w.processed[k := true] else w.processed)
  }

  /** One turn of the loop over the configured conditions. */
  ghost function ProcessOne(job: Job, w: Work, i: nat): (r: Work)
    requires i < |w.conditions| && |w.processed| == |job.observed|
    ensures Fits(job, r, |w.conditions|)
  {
    var c := w.conditions[i];
    var s := Log(w.store, ConditionSearch(job.account, job.policyId));
    var v := w.(store := s);
    var existing := FirstListed(s, job.account, job.policyId, c.spec.name);
    if job.f.search(i) then Fail(v, c.spec.name)
    else if existing.None? then CreateOne(job, v, i, c)
    else
      var found := c.(name := c.spec.name, id := existing.value);
      var k := FindApplied(job.observed, c.spec.name);
      if k < |job.observed| then
        var u := v.(processed := v.processed[k := true]);
        if c.spec != job.observed[k].spec then UpdateOne(job, u, i, found)
        else u.(conditions := u.conditions[i := found])
      else if Project(s.conditions[existing.value].content) == c.spec then
        v.(conditions := v.conditions[i := found])
      else UpdateOne(job, v, i, found)
  }

  ghost function ProcessUpTo(job: Job, w: Work, i: nat): (r: Work)
    requires i <= |w.conditions| && |w.processed| == |job.observed|
    ensures Fits(job, r, |w.conditions|)
  {
    if i == 0 then w else ProcessOne(job, ProcessUpTo(job, w, i - 1), i - 1)
  }

  /** The ID to delete for an applied condition that was not processed: the recorded one, or that of the last
      listed condition of its name; blank if there is none. */
  ghost function DeleteTarget(job: Job, listing: Store, j: nat): nat
    requires j < |job.observed|
  {
    var o := job.observed[j];
    if o.id != 0 then o.id
    else
      var last := LastListed(listing, job.account, job.policyId, Identity(o));
      if last.Some? then last.value else 0
  }

  /** One turn of the loop that deletes what was not processed. */
  ghost function DeleteOne(job: Job, listing: Store, w: Work, j: nat): (r: Work)
    requires j < |job.observed| == |w.processed|
    ensures r.conditions == w.conditions && r.processed == w.processed
  {
    if w.processed[j] then w
    else
      var (s, ok) := DeleteConditionCall(w.store, job.account, DeleteTarget(job, listing, j), job.f.delete(j));
      if ok then w.(store := s) else Fail(w.(store := s), Identity(job.observed[j]))
  }

  ghost function DeleteUpTo(job: Job, listing: Store, w: Work, j: nat): (r: Work)
    requires j <= |job.observed| == |w.processed|
    ensures r.conditions == w.conditions && r.processed == w.processed
  {
    if j == 0 then w else DeleteOne(job, listing, DeleteUpTo(job, listing, w, j - 1), j - 1)
  }

  ghost function DeletePhase(job: Job, w: Work): (r: Work)
    requires |job.observed| == |w.processed|
    ensures r.conditions == w.conditions
  {
    if job.observed == [] then w
    else
      var v := w.(store := Log(w.store, ConditionSearch(job.account, job.policyId)));
      if job.f.list then Fail(v, "") else DeleteUpTo(job, v.store, v, |job.observed|)
  }

  function JobOf(p: Policy, f: ConditionFaults): Job {
    Job(p.spec.accountId, p.status.policyId, ObservedConditions(p), f)
  }

  function WorkOf(p: Policy, s: Store): Work {
    Work(s, p.spec.conditions, seq(|ObservedConditions(p)|, _ => false), [])
  }

  /** Result of a part of the reconciler: the object, the store, and whether an error is returned. */
  datatype Result = Result(policy: Policy, store: Store, failed: bool)

  ghost function HandleConditions(p: Policy, s: Store, f: ConditionFaults): Result {
    var job := JobOf(p, f);
    var w := DeletePhase(job, ProcessUpTo(job, WorkOf(p, s), |p.spec.conditions|));
    var spec := p.spec.(conditions := w.conditions);
    Result(Policy(spec, p.status.(applied := Some(spec))), w.store, w.errors != [])
  }

  // ----- Deciding whether conditions need work -----

  predicate ShouldReconcileConditions(p: Policy) {
    p.spec.conditions != [] || ObservedConditions(p) != []
  }

  ghost predicate RemoteConditionMatches(p: Policy, s: Store, i: nat)
    requires i < |p.spec.conditions|
  {
    var c := p.spec.conditions[i];
    var last := LastListed(s, p.spec.accountId, p.status.policyId, Identity(c));
    last.Some? && Project(s.conditions[last.value].content) == c.spec
  }

  ghost predicate AllRemoteConditionsMatch(p: Policy, s: Store) {
    forall i :: 0 <= i < |p.spec.conditions| ==> RemoteConditionMatches(p, s, i)
  }

  ghost function ReconcileConditionsIfNeeded(p: Policy, s: Store, compareFails: bool, f: ConditionFaults): Result {
    if !ShouldReconcileConditions(p) then Result(p, s, false)
    else if HaveConditionsChanged(p) then HandleConditions(p, s, f)
    else if p.spec.conditions == [] then Result(p, s, false)
    else
      var t := Log(s, ConditionSearch(p.spec.accountId, p.status.policyId));
      if compareFails then Result(p, t, true)
      else if AllRemoteConditionsMatch(p, s) then Result(p, t, false)
      else HandleConditions(p, t, f)
  }

  // ----- syncRemotePolicy -----

  datatype Faults = Faults(
    query: QueryFault, search: SearchFault, createFails: bool, updateFails: bool, compareFails: bool,
    conditions: ConditionFaults)

  function BuildApplied(p: Policy, name: string, preference: string): PolicySpec {
    p.spec.(name := name, preference := preference, conditions := ObservedConditions(p))
  }

  function CreatePolicyCondition(w: Work, account: int, policyId: nat, i: nat, f: ConditionFaults): Work
    requires i < |w.conditions|
  {
    var c := w.conditions[i];
    var (s, id) := CreateConditionCall(w.store, account, policyId, Denote(c.spec), f.mutate(i));
    if id.None? then Fail(w.(store := s), c.name)
    else w.(store := s, conditions := w.conditions[i := c.(name := c.spec.name, id := id.value)])
  }

  function CreatePolicyConditions(w: Work, account: int, policyId: nat, i: nat, f: ConditionFaults): (r: Work)
    requires i <= |w.conditions|
    ensures |r.conditions| == |w.conditions|
  {
    if i == 0 then w
    else CreatePolicyCondition(CreatePolicyConditions(w, account, policyId, i - 1, f), account, policyId, i - 1, f)
  }

  /** A new policy starts from an empty snapshot; all its conditions are copied into it before they are created. */
  function CreatePolicy(p: Policy, s: Store, f: Faults): Result {
    var preference := PreferenceSent(p.spec.preference);
    var (t, id) := CreatePolicyCall(s, p.spec.accountId, p.spec.name, preference, f.createFails);
    if id.None? then Result(p, t, true)
    else
      var w := CreatePolicyConditions(Work(t, p.spec.conditions, [], []), p.spec.accountId, id.value,
                                      |p.spec.conditions|, f.conditions);
      var spec := p.spec.(conditions := w.conditions);
      Result(Policy(spec, p.status.(policyId := id.value, applied := Some(spec.(preference := preference)))),
             w.store, w.errors != [])
  }

  ghost function UpdatePolicy(p: Policy, s: Store, f: Faults): Result {
    var preference := PreferenceSent(p.spec.preference);
    var (t, ok) := UpdatePolicyCall(s, p.spec.accountId, p.status.policyId, p.spec.name, preference, f.updateFails);
    if !ok then Result(p, t, true)
    else
      var applied := BuildApplied(p, p.spec.name, preference);
      ReconcileConditionsIfNeeded(p.(status := p.status.(applied := Some(applied))), t, f.compareFails, f.conditions)
  }

  datatype SyncResult = SyncResult(policy: Policy, store: Store, blocked: bool, failed: bool)

  function Blocked(p: Policy, s: Store, reason: Reason): SyncResult {
    SyncResult(p.(status := p.status.(ready := reason)), s, true, false)
  }

  function Broken(p: Policy, s: Store): SyncResult { SyncResult(p, s, false, true) }

  function Finish(r: Result): SyncResult {
    if r.failed then Broken(r.policy, r.store)
    else SyncResult(r.policy.(status := r.policy.status.(ready := Synced)), r.store, false, false)
  }

  /** The remote policy was located: adopt its ID and name, then update it or its conditions. */
  ghost function SyncExisting(p: Policy, s: Store, id: nat, remote: RemotePolicy, f: Faults): SyncResult {
    if remote.account != 0 && remote.account != p.spec.accountId then Blocked(p, s, AccountMismatch)
    else
      var applied := BuildApplied(p, remote.name, remote.preference);
      var q := p.(status := p.status.(policyId := id, applied := Some(applied)));
      if remote.name != p.spec.name || remote.preference != p.spec.preference then Finish(UpdatePolicy(q, s, f))
      else Finish(ReconcileConditionsIfNeeded(q, s, f.compareFails, f.conditions))
  }

  function ForgetPolicy(p: Policy): Policy {
    Policy(p.spec.(conditions := seq(|p.spec.conditions|, i requires 0 <= i < |p.spec.conditions| =>
                                       p.spec.conditions[i].(id := 0))),
           p.status.(policyId := 0))
  }

  ghost function SyncByName(p: Policy, s: Store, f: Faults): SyncResult {
    var t := Log(s, PolicySearch(p.spec.accountId));
    match f.search
    case SearchDenied => Blocked(p, t, AccountAccessDenied)
    case SearchBroken => Broken(p, t)
    case Answered =>
      var matches := NameMatches(s, p.spec.accountId, p.spec.name);
      if matches == {} then Finish(CreatePolicy(p, t, f))
      else if |matches| == 1 then
        var id := Least(matches);
        SyncExisting(p, t, id, s.policies[id], f)
      else Blocked(p, t, AmbiguousPolicyName)
  }

  predicate AccountChanged(p: Policy) {
    p.status.policyId != 0 && p.status.applied.Some? && p.status.applied.value.accountId > 0 &&
    p.status.applied.value.accountId != p.spec.accountId
  }

  ghost function Sync(p: Policy, s: Store, f: Faults): SyncResult {
    if AccountChanged(p) then Blocked(p, s, AccountIDChanged)
    else if p.status.policyId == 0 then SyncByName(p, s, f)
    else
      var (t, r) := QueryPolicyCall(s, p.spec.accountId, p.status.policyId, f.query);
      match r
      case Found(account, name, preference) =>
        SyncExisting(p, t, p.status.policyId, RemotePolicy(account, name, preference), f)
      case NoPolicy => Broken(p, t)
      case NotFound => Finish(CreatePolicy(ForgetPolicy(p), t, f))
      case AccessDenied => Blocked(p, t, AccountAccessDenied)
      case OtherError => Broken(p, t)
  }

  /** The status that a reconcile of an object it read leaves behind, and the store. */
  ghost function ReconcileStatus(p: Policy, s: Store, f: Faults): (Status, Store) {
    if MatchesApplied(p) then (p.status.(ready := Synced), s)
    else
      var r := Sync(p, s, f);
      var applied := if r.policy.status.applied.None? then Some(EMPTY_SPEC) else r.policy.status.applied;
      (r.policy.status.(applied := applied), r.store)
  }

  // ----- deletePolicy -----

  function AccountForDelete(p: Policy): int {
    if p.status.applied.Some? && p.status.applied.value.accountId > 0 then p.status.applied.value.accountId
    else p.spec.accountId
  }

  /** The flag says that the finalizer may go. */
  function DeletePolicy(p: Policy, s: Store, d: DeleteFault, q: QueryFault): (bool, Store) {
    if p.status.policyId == 0 then (true, s)
    else
      var account := AccountForDelete(p);
      var (t, r) := DeletePolicyCall(s, account, p.status.policyId, d);
      if !r.DeleteError? then (true, t)
      else
        var (u, found) := QueryPolicyCall(t, account, p.status.policyId, q);
        (found.NotFound?, u)
  }
}

/** Exactly which conditions handleConditions deletes, whatever calls fail and whatever IDs are recorded, and what that
    means for a failed search and for IDs that a user writes. */
module AlertPolicyDeletes {
  import opened Options
  import opened Accounts
  import opened NrqlConditions
  import opened AlertStore
  import opened AlertPolicies
  import opened AlertPolicyConditions
  import opened AlertPolicyRecords
  import opened AlertPolicySync

  // ----- One delete loop -----

  ghost predicate Hit(job: Job, listing: Store, processed: seq<bool>, n: nat, x: nat)
    requires n <= |job.observed| == |processed|
  {
    exists j :: 0 <= j < n && !processed[j] && DeleteTarget(job, listing, j) == x && !job.f.delete(j)
  }

  /** The loop deletes a condition exactly if it can be reached and some unprocessed entry aims at it with a call
      that works. */
  lemma {:induction false} DeletedIff(job: Job, listing: Store, w: Work, n: nat, x: nat)
    requires n <= |job.observed| == |w.processed| && x in w.store.conditions
    ensures var r := DeleteUpTo(job, listing, w, n);
            r.store.policies == w.store.policies &&
            (x in r.store.conditions ==> r.store.conditions[x] == w.store.conditions[x]) &&
            (x in r.store.conditions <==>
               !(ConditionReachable(w.store, job.account, x) && Hit(job, listing, w.processed, n, x)))
  {
    hide DeleteTarget;
    if n > 0 {
      DeletedIff(job, listing, w, n - 1, x);
      HitStep(job, listing, w.processed, n, x);
    }
  }

  lemma HitStep(job: Job, listing: Store, processed: seq<bool>, n: nat, x: nat)
    requires 0 < n <= |job.observed| == |processed|
    ensures Hit(job, listing, processed, n, x) <==>
            Hit(job, listing, processed, n - 1, x) ||
            (!processed[n - 1] && DeleteTarget(job, listing, n - 1) == x && !job.f.delete(n - 1))
  {
    hide DeleteTarget;
  }

  // ----- handleConditions -----

  function ManagedNames(p: Policy): set<string> {
    Names(p.spec.conditions, |p.spec.conditions|) + Names(ObservedConditions(p), |ObservedConditions(p)|)
  }

  lemma ManagedName(p: Policy, name: string)
    ensures name in ManagedNames(p) <==>
            (exists k :: 0 <= k < |p.spec.conditions| && p.spec.conditions[k].spec.name == name) ||
            exists j :: 0 <= j < |ObservedConditions(p)| && ObservedConditions(p)[j].spec.name == name
  {
  }

  lemma ConfiguredIff(p: Policy, name: string)
    ensures name in Names(p.spec.conditions, |p.spec.conditions|) <==>
            exists k :: 0 <= k < |p.spec.conditions| && p.spec.conditions[k].spec.name == name
  {
  }

  /** The applied entry is left unprocessed: its name is not configured, or the search for it fails, or its condition is
      missing and the create fails. */
  ghost predicate Unwanted(p: Policy, s: Store, f: ConditionFaults, j: nat)
    requires j < |ObservedConditions(p)|
  {
    var name := ObservedConditions(p)[j].spec.name;
    forall k :: 0 <= k < |p.spec.conditions| && p.spec.conditions[k].spec.name == name ==>
      f.search(k) || (FirstNamed(s, p.status.policyId, name).None? && f.mutate(k))
  }

  /** What an unwanted entry aims at: the recorded ID, or the last condition of its name. */
  ghost function StaleTarget(p: Policy, s: Store, j: nat): nat
    requires j < |ObservedConditions(p)|
  {
    var o := ObservedConditions(p)[j];
    var last := LastNamed(s, p.status.policyId, o.spec.name);
    if o.id != 0 then o.id else if last.Some? then last.value else 0
  }

  /** An unwanted entry aims at the condition, and its delete works. */
  ghost predicate Aimed(p: Policy, s: Store, f: ConditionFaults, x: nat) {
    !f.list &&
    exists j :: 0 <= j < |ObservedConditions(p)| && Unwanted(p, s, f, j) && StaleTarget(p, s, j) == x && !f.delete(j)
  }

  lemma UnprocessedIsUnwanted(p: Policy, s: Store, f: ConditionFaults, j: nat)
    requires CanStart(p, s, f) && j < |ObservedConditions(p)|
    ensures var w := AfterLoop(p, s, f);
            |w.processed| == |ObservedConditions(p)| && (!w.processed[j] <==> Unwanted(p, s, f, j))
  {
    hide Realised, Touches, Wf, FirstNamed, ProcessUpTo, Proper;
    var job, w0, w := JobOf(p, f), WorkOf(p, s), AfterLoop(p, s, f);
    LoopProgress(job, w0, |p.spec.conditions|);
    var name := job.observed[j].spec.name;
    forall k | 0 <= k < |p.spec.conditions| && p.spec.conditions[k].spec.name == name
      ensures FirstNamed(w.store, job.policyId, name).Some? <==>
              FirstNamed(s, job.policyId, name).Some? || !FailsAt(f, k)
    {
      assert Settled(job, w0, w, k);
      SomeNamed(s, job.policyId, name);
      SomeNamed(w.store, job.policyId, name);
    }
  }

  lemma LoopTouches(p: Policy, s: Store, f: ConditionFaults)
    requires CanStart(p, s, f)
    ensures var w := AfterLoop(p, s, f);
            |w.processed| == |ObservedConditions(p)| && Wf(w.store) &&
            Touches(s, w.store, p.status.policyId, Names(p.spec.conditions, |p.spec.conditions|))
  {
    hide Realised, ProcessUpTo, Settled, Touches, Wf;
    LoopProgress(JobOf(p, f), WorkOf(p, s), |p.spec.conditions|);
  }

  /** The name of an unwanted entry has the conditions it had. */
  lemma UnwantedNamed(p: Policy, s: Store, f: ConditionFaults, j: nat)
    requires CanStart(p, s, f) && j < |ObservedConditions(p)| && Unwanted(p, s, f, j)
    ensures var name := ObservedConditions(p)[j].spec.name;
            Named(AfterLoop(p, s, f).store, p.status.policyId, name) == Named(s, p.status.policyId, name)
  {
    hide Realised, Touches, Wf, ProcessUpTo, Proper;
    var job, w0, w := JobOf(p, f), WorkOf(p, s), AfterLoop(p, s, f);
    var name := ObservedConditions(p)[j].spec.name;
    LoopProgress(job, w0, |p.spec.conditions|);
    SomeNamed(s, job.policyId, name);
    if k :| 0 <= k < |p.spec.conditions| && p.spec.conditions[k].spec.name == name {
      assert Settled(job, w0, w, k);
    } else {
      TouchesOther(s, w.store, job.policyId, Names(w0.conditions, |w0.conditions|), name);
    }
  }

  lemma UnwantedAims(p: Policy, s: Store, f: ConditionFaults, listing: Store, j: nat)
    requires CanStart(p, s, f) && j < |ObservedConditions(p)| && Unwanted(p, s, f, j)
    requires listing == Log(AfterLoop(p, s, f).store, ConditionSearch(p.spec.accountId, p.status.policyId))
    ensures DeleteTarget(JobOf(p, f), listing, j) == StaleTarget(p, s, j)
  {
    hide Realised, ProcessUpTo, Wf, Proper, CanStart, AfterLoop;
    var name := ObservedConditions(p)[j].spec.name;
    LoopTouches(p, s, f);
    UnwantedNamed(p, s, f, j);
    StartMeans(p, s, f);
    ProperIdentity(p, s, f, j);
    assert Named(listing, p.status.policyId, name) == Named(AfterLoop(p, s, f).store, p.status.policyId, name);
  }

  lemma StartMeans(p: Policy, s: Store, f: ConditionFaults)
    requires CanStart(p, s, f)
    ensures Wf(s) && PolicyReachable(s, p.spec.accountId, p.status.policyId)
    ensures Proper(p.spec.conditions) && Proper(ObservedConditions(p))
  {
  }

  lemma ProperIdentity(p: Policy, s: Store, f: ConditionFaults, j: nat)
    requires CanStart(p, s, f) && j < |ObservedConditions(p)|
    ensures Identity(ObservedConditions(p)[j]) == ObservedConditions(p)[j].spec.name != ""
    ensures 0 !in s.conditions
  {
  }

  /** Whatever searches, creates, updates and deletes fail, and whatever IDs are recorded: a condition is deleted
      exactly if it can be reached and an unwanted entry aims at it with a delete that works. */
  lemma HandleConditionsDeletesIff(p: Policy, s: Store, f: ConditionFaults, x: nat)
    requires CanStart(p, s, f) && x in s.conditions
    ensures x in HandleConditions(p, s, f).store.conditions <==>
            !(ConditionReachable(s, p.spec.accountId, x) && Aimed(p, s, f, x))
  {
    hide ProcessUpTo, DeleteUpTo, Unwanted, WellFormed, DeleteTarget, StaleTarget, CanStart, AfterLoop;
    var job, w := JobOf(p, f), AfterLoop(p, s, f);
    LoopTouches(p, s, f);
    assert w == ProcessUpTo(job, WorkOf(p, s), |p.spec.conditions|) by { AfterLoopIs(p, s, f); }
    var v := w.(store := Log(w.store, ConditionSearch(job.account, job.policyId)));
    if job.observed != [] && !f.list {
      DeletedIff(job, v.store, v, |job.observed|, x);
      forall j | 0 <= j < |job.observed|
        ensures (!w.processed[j] && DeleteTarget(job, v.store, j) == x) <==>
                (Unwanted(p, s, f, j) && StaleTarget(p, s, j) == x)
      {
        UnprocessedIsUnwanted(p, s, f, j);
        if Unwanted(p, s, f, j) {
          UnwantedAims(p, s, f, v.store, j);
        }
      }
      HitIsAimed(p, s, f, v.store, w.processed, x);
    }
  }

  lemma AfterLoopIs(p: Policy, s: Store, f: ConditionFaults)
    ensures AfterLoop(p, s, f) == ProcessUpTo(JobOf(p, f), WorkOf(p, s), |p.spec.conditions|)
  {
  }

  lemma HitIsAimed(p: Policy, s: Store, f: ConditionFaults, listing: Store, processed: seq<bool>, x: nat)
    requires |processed| == |ObservedConditions(p)| && !f.list
    requires forall j :: 0 <= j < |processed| ==>
                           ((!processed[j] && DeleteTarget(JobOf(p, f), listing, j) == x) <==>
                            (Unwanted(p, s, f, j) && StaleTarget(p, s, j) == x))
    ensures Hit(JobOf(p, f), listing, processed, |processed|, x) <==> Aimed(p, s, f, x)
  {
    hide Unwanted, DeleteTarget, StaleTarget;
    if j :| 0 <= j < |processed| && !processed[j] && DeleteTarget(JobOf(p, f), listing, j) == x && !f.delete(j) {
      assert Unwanted(p, s, f, j) && StaleTarget(p, s, j) == x;
    }
    if j :|
      0 <= j < |ObservedConditions(p)| && Unwanted(p, s, f, j) && StaleTarget(p, s, j) == x && !f.delete(j)
    {
      assert !processed[j] && DeleteTarget(JobOf(p, f), listing, j) == x;
    }
  }

  // ----- The conditions of an applied name -----

  /** With recorded IDs in order, an entry aims at conditions of its own name only. */
  lemma AimsAtOwnName(p: Policy, s: Store, f: ConditionFaults, i: nat, j: nat, c: nat)
    requires CanHandle(p, s, f) && i < |ObservedConditions(p)| && j < |ObservedConditions(p)|
    requires c in Named(s, p.status.policyId, ObservedConditions(p)[j].spec.name) && StaleTarget(p, s, i) == c
    ensures i == j
  {
    var o := ObservedConditions(p)[i];
    assert IdOk(o, p.status.policyId, s);
    ProperIdentity(p, s, f, j);
    SomeNamed(s, p.status.policyId, o.spec.name);
  }

  lemma NamedIsReachable(p: Policy, s: Store, f: ConditionFaults, name: string, c: nat)
    requires CanStart(p, s, f) && c in Named(s, p.status.policyId, name)
    ensures ConditionReachable(s, p.spec.accountId, c)
  {
  }

  /** With recorded IDs in order, whatever fails: of the conditions with an applied name the one that the entry aims at
      is deleted, and no other, exactly if the entry is unwanted and the listing and its delete work. */
  lemma AppliedNameExact(p: Policy, s: Store, f: ConditionFaults, j: nat, c: nat)
    requires CanHandle(p, s, f) && j < |ObservedConditions(p)|
    requires c in Named(s, p.status.policyId, ObservedConditions(p)[j].spec.name)
    ensures c in HandleConditions(p, s, f).store.conditions <==>
            !(Unwanted(p, s, f, j) && !f.list && !f.delete(j) && c == StaleTarget(p, s, j))
  {
    hide HandleConditions, Unwanted, StaleTarget, Initial, IdOk;
    HandleConditionsDeletesIff(p, s, f, c);
    NamedIsReachable(p, s, f, ObservedConditions(p)[j].spec.name, c);
    if i :| 0 <= i < |ObservedConditions(p)| && StaleTarget(p, s, i) == c && Unwanted(p, s, f, i) && !f.delete(i) {
      AimsAtOwnName(p, s, f, i, j, c);
    }
  }

  /** Of the conditions with an applied name that is no longer configured exactly one is deleted: that of the recorded
      ID, or the last if no ID is recorded. */
  lemma StaleNameExact(p: Policy, s: Store, f: ConditionFaults, j: nat, c: nat)
    requires CanHandle(p, s, f) && j < |ObservedConditions(p)| && !f.list && !f.delete(j)
    requires ObservedConditions(p)[j].spec.name !in Names(p.spec.conditions, |p.spec.conditions|)
    requires c in Named(s, p.status.policyId, ObservedConditions(p)[j].spec.name)
    ensures c in HandleConditions(p, s, f).store.conditions <==> c != StaleTarget(p, s, j)
  {
    hide HandleConditions, StaleTarget, Initial, IdOk, CanHandle;
    AppliedNameExact(p, s, f, j, c);
    ConfiguredIff(p, ObservedConditions(p)[j].spec.name);
  }

  /** A configured condition that is also applied: of the conditions of its name the one that the applied entry aims at
      is deleted, and no other, exactly if its own search failed and the listing and the delete worked. */
  lemma FailedSearchDeletesIff(p: Policy, s: Store, f: ConditionFaults, k: nat, j: nat, c: nat)
    requires CanHandle(p, s, f) && k < |p.spec.conditions| && j < |ObservedConditions(p)|
    requires p.spec.conditions[k].spec.name == ObservedConditions(p)[j].spec.name
    requires c in Named(s, p.status.policyId, p.spec.conditions[k].spec.name)
    ensures c in HandleConditions(p, s, f).store.conditions <==>
            !(f.search(k) && !f.list && !f.delete(j) && c == StaleTarget(p, s, j))
  {
    hide HandleConditions, StaleTarget, IdOk;
    AppliedNameExact(p, s, f, j, c);
    SomeNamed(s, p.status.policyId, p.spec.conditions[k].spec.name);
    assert forall i :: 0 <= i < |p.spec.conditions| && i != k ==>
                         p.spec.conditions[i].spec.name != p.spec.conditions[k].spec.name;
  }

  // ----- A condition whose search fails -----

  /** What is deleted of a configured name whose search fails. */
  ghost function LostToSearch(p: Policy, s: Store, f: ConditionFaults, name: string): set<nat> {
    set c | c in Named(s, p.status.policyId, name) && Aimed(p, s, f, c)
  }

  /** A condition whose own search fails is neither created nor updated: what was there of its name stays as it was, but
      for what the delete loop takes. */
  lemma FailedSearchLeaves(p: Policy, s: Store, f: ConditionFaults, k: nat)
    requires CanHandle(p, s, f) && k < |p.spec.conditions| && f.search(k)
    ensures var t, name := HandleConditions(p, s, f).store, p.spec.conditions[k].spec.name;
            Named(t, p.status.policyId, name) == Named(s, p.status.policyId, name) - LostToSearch(p, s, f, name) &&
            forall c :: c in Named(t, p.status.policyId, name) ==> t.conditions[c] == s.conditions[c]
  {
    hide HandleConditions, ProcessUpTo, Realised, Touches, Wf, Aimed, Proper, IdOk;
    var name, t := p.spec.conditions[k].spec.name, HandleConditions(p, s, f).store;
    var w := AfterLoop(p, s, f);
    HandleStages(p, s, f);
    assert Settled(JobOf(p, f), WorkOf(p, s), w, k);
    SomeNamed(s, p.status.policyId, name);
    assert Named(w.store, p.status.policyId, name) == Named(s, p.status.policyId, name);
    forall c | c in Named(s, p.status.policyId, name)
      ensures c in t.conditions <==> !Aimed(p, s, f, c)
    {
      HandleConditionsDeletesIff(p, s, f, c);
      NamedIsReachable(p, s, f, name, c);
    }
    forall c | c in Named(t, p.status.policyId, name)
      ensures c in Named(w.store, p.status.policyId, name) && t.conditions[c] == w.store.conditions[c]
    {
    }
  }

  /** If its name is not applied, nothing is deleted either: the condition is realised exactly if it was before. */
  lemma FailedSearchExact(p: Policy, s: Store, f: ConditionFaults, k: nat)
    requires CanHandle(p, s, f) && k < |p.spec.conditions| && f.search(k)
    requires p.spec.conditions[k].spec.name !in Names(ObservedConditions(p), |ObservedConditions(p)|)
    ensures Realised(p.spec.conditions[k].spec, p.status.policyId, HandleConditions(p, s, f).store) <==>
            Realised(p.spec.conditions[k].spec, p.status.policyId, s)
  {
    hide HandleConditions, ProcessUpTo, Initial, Denote, StaleTarget, Unwanted;
    var spec := p.spec.conditions[k].spec;
    FailedSearchLeaves(p, s, f, k);
    forall c | c in Named(s, p.status.policyId, spec.name)
      ensures !Aimed(p, s, f, c)
    {
      AimedIsApplied(p, s, f, c);
    }
    NamedSame(s, HandleConditions(p, s, f).store, p.status.policyId, spec.name);
  }

  lemma AimedIsApplied(p: Policy, s: Store, f: ConditionFaults, c: nat)
    requires CanHandle(p, s, f) && c in s.conditions
    ensures Aimed(p, s, f, c) ==>
              s.conditions[c].content.name in Names(ObservedConditions(p), |ObservedConditions(p)|)
  {
    hide Unwanted, Proper;
    if j :| 0 <= j < |ObservedConditions(p)| && StaleTarget(p, s, j) == c {
      assert IdOk(ObservedConditions(p)[j], p.status.policyId, s);
      ProperIdentity(p, s, f, j);
      SomeNamed(s, p.status.policyId, ObservedConditions(p)[j].spec.name);
    }
  }

  // ----- IDs that a user writes -----

  /** The loop has to call New Relic for this condition: it is missing, or not taken for up to date. */
  ghost predicate NeedsCall(job: Job, s: Store, spec: ConditionSpec) {
    match FirstNamed(s, job.policyId, spec.name)
    case None => true
    case Some(id) =>
      var k := FindApplied(job.observed, spec.name);
      if k < |job.observed| then job.observed[k].spec != spec
      else id in s.conditions && Project(s.conditions[id].content) != spec
  }

  /** The search for the condition fails, or the create or update that it needs. */
  ghost predicate LeftAsWritten(p: Policy, s: Store, f: ConditionFaults, k: nat)
    requires k < |p.spec.conditions|
  {
    f.search(k) || (f.mutate(k) && NeedsCall(JobOf(p, f), s, p.spec.conditions[k].spec))
  }

  lemma TurnKeepsEntry(job: Job, w: Work, i: nat)
    requires i < |w.conditions| && |w.processed| == |job.observed|
    requires job.f.search(i) || (job.f.mutate(i) && NeedsCall(job, w.store, w.conditions[i].spec))
    ensures ProcessOne(job, w, i).conditions == w.conditions
  {
    hide Denote, Project, FindApplied;
    var name := w.conditions[i].spec.name;
    var s := Log(w.store, ConditionSearch(job.account, job.policyId));
    assert Named(s, job.policyId, name) == Named(w.store, job.policyId, name);
    SomeNamed(w.store, job.policyId, name);
  }

  lemma NeedsCallElsewhere(job: Job, s: Store, t: Store, names: set<string>, spec: ConditionSpec)
    requires Touches(s, t, job.policyId, names) && spec.name !in names
    ensures NeedsCall(job, t, spec) <==> NeedsCall(job, s, spec)
  {
    hide Project, FindApplied, Touches;
    TouchesOther(s, t, job.policyId, names, spec.name);
    SomeNamed(s, job.policyId, spec.name);
  }

  lemma {:induction false} LaterTurnsKeepEntry(job: Job, w: Work, i: nat, k: nat)
    requires k < i <= |w.conditions| && |w.processed| == |job.observed|
    ensures var d, e := ProcessUpTo(job, w, k + 1).conditions, ProcessUpTo(job, w, i).conditions;
            |d| == |e| == |w.conditions| && d[k] == e[k]
  {
    hide ProcessOne;
    if k + 1 < i {
      LaterTurnsKeepEntry(job, w, i - 1, k);
      TurnKeepsSpecs(job, ProcessUpTo(job, w, i - 1), i - 1);
    }
  }

  /** Such a condition is recorded as the user configured it, ID and all. */
  lemma FailedCallKeepsEntry(p: Policy, s: Store, f: ConditionFaults, k: nat)
    requires CanStart(p, s, f) && k < |p.spec.conditions| && LeftAsWritten(p, s, f, k)
    ensures var r := HandleConditions(p, s, f).policy;
            |r.spec.conditions| == |p.spec.conditions| && r.spec.conditions[k] == p.spec.conditions[k] &&
            r.status == p.status.(applied := Some(r.spec))
  {
    hide Realised, Touches, Wf, ProcessOne, Proper, DeletePhase, Initial, NeedsCall, Settled, Wanted;
    var job, w0 := JobOf(p, f), WorkOf(p, s);
    var w := ProcessUpTo(job, w0, k);
    LoopProgress(job, w0, k);
    StartMeans(p, s, f);
    NamesStep(p.spec.conditions, k);
    NeedsCallElsewhere(job, s, w.store, Names(w0.conditions, k), p.spec.conditions[k].spec);
    TurnKeepsEntry(job, w, k);
    LaterTurnsKeepEntry(job, w0, |p.spec.conditions|, k);
  }

  function Without(cs: seq<PolicyCondition>, k: nat): seq<PolicyCondition>
    requires k < |cs|
  {
    cs[..k] + cs[k + 1..]
  }

  lemma WithoutNames(cs: seq<PolicyCondition>, k: nat, i: nat)
    requires Proper(cs) && k < |cs| && i < |cs|
    ensures Proper(Without(cs, k))
    ensures cs[i].spec.name in Names(Without(cs, k), |Without(cs, k)|) <==> i != k
  {
    var rest := Without(cs, k);
    assert forall j :: 0 <= j < |rest| ==> rest[j] == if j < k then cs[j] else cs[j + 1];
    if i < k {
      assert rest[i] == cs[i];
    } else if i > k {
      assert rest[i - 1] == cs[i];
    }
  }

  /** The stored object once the user has removed condition k after this reconcile. */
  ghost function Removed(p: Policy, s: Store, f: ConditionFaults, k: nat): Policy
    requires k < |p.spec.conditions|
  {
    Policy(p.spec.(conditions := Without(p.spec.conditions, k)), HandleConditions(p, s, f).policy.status)
  }

  predicate NothingFails(g: ConditionFaults, n: nat, m: nat) {
    SearchesSucceed(g, n) && MutationsSucceed(g, n) && DeletesSucceed(g, m)
  }

  lemma RemovedCanStart(p: Policy, s: Store, f: ConditionFaults, k: nat, g: ConditionFaults)
    requires CanStart(p, s, f) && k < |p.spec.conditions|
    ensures CanStart(Removed(p, s, f, k), HandleConditions(p, s, f).store, g)
    ensures |ObservedConditions(Removed(p, s, f, k))| == |p.spec.conditions|
    ensures forall j :: 0 <= j < |p.spec.conditions| ==>
                          ObservedConditions(Removed(p, s, f, k))[j].spec == p.spec.conditions[j].spec
  {
    hide Wf, Proper, HandleConditions, Later, IdOk;
    StartMeans(p, s, f);
    HandleRecords(p, s, f);
    HandleInStep(p, s, f);
    InStepMeans(s, HandleConditions(p, s, f).store);
    WithoutNames(p.spec.conditions, k, k);
    HandleConditionsSnapshot(p, s, f);
  }

  /** After the search, create or update of condition k failed, the user removes it from the spec and nothing fails any
      more. Then exactly one condition is deleted, if it can be reached: the one whose ID the user had written for
      condition k, whatever it is; only without a written ID the last one of its name. */
  lemma RemovalDeletesIff(p: Policy, s: Store, f: ConditionFaults, k: nat, g: ConditionFaults, x: nat)
    requires CanStart(p, s, f) && k < |p.spec.conditions| && LeftAsWritten(p, s, f, k)
    requires NothingFails(g, |p.spec.conditions|, |p.spec.conditions|)
    requires var t := HandleConditions(p, s, f).store;
             x in t.conditions && ConditionReachable(t, p.spec.accountId, x)
    ensures var t, id := HandleConditions(p, s, f).store, p.spec.conditions[k].id;
            x in HandleConditions(Removed(p, s, f, k), t, g).store.conditions <==>
            if id != 0 then x != id
            else LastNamed(t, p.status.policyId, p.spec.conditions[k].spec.name) != Some(x)
  {
    hide HandleConditions, CanStart, Names, Proper, LeftAsWritten, LastNamed;
    var q, t := Removed(p, s, f, k), HandleConditions(p, s, f).store;
    StartMeans(p, s, f);
    RemovedCanStart(p, s, f, k, g);
    FailedCallKeepsEntry(p, s, f, k);
    HandleConditionsDeletesIff(q, t, g, x);
    ProperIdentity(q, t, g, k);
    forall j | 0 <= j < |p.spec.conditions|
      ensures Unwanted(q, t, g, j) <==> j == k
    {
      WithoutNames(p.spec.conditions, k, j);
      ConfiguredIff(q, p.spec.conditions[j].spec.name);
      if i :| 0 <= i < |q.spec.conditions| && q.spec.conditions[i].spec.name == p.spec.conditions[j].spec.name {
        assert !g.mutate(i) && !g.search(i);
      }
    }
    assert Aimed(q, t, g, x) <==> StaleTarget(q, t, k) == x;
  }

  // ----- A whole sync -----

  /** Conditions of other policies, and those with unmanaged names, are as they were; those with configured names are
      still there if the search for the name succeeds. */
  ghost predicate Spares(p: Policy, f: ConditionFaults, s: Store, t: Store, policy: nat) {
    forall c :: c in s.conditions ==>
      ((s.conditions[c].policy != policy || s.conditions[c].content.name !in ManagedNames(p)) ==>
         c in t.conditions && t.conditions[c] == s.conditions[c]) &&
      (Reached(p.spec.conditions, f, |p.spec.conditions|, s.conditions[c].content.name) ==> c in t.conditions)
  }

  lemma HandleSpares(p: Policy, s: Store, f: ConditionFaults)
    requires CanHandle(p, s, f)
    ensures Spares(p, f, s, HandleConditions(p, s, f).store, p.status.policyId)
  {
    hide HandleConditions, CanHandle, Names;
    forall c | c in s.conditions
      ensures var t := HandleConditions(p, s, f).store;
              ((s.conditions[c].policy != p.status.policyId || s.conditions[c].content.name !in ManagedNames(p)) ==>
                 c in t.conditions && t.conditions[c] == s.conditions[c]) &&
              (Reached(p.spec.conditions, f, |p.spec.conditions|, s.conditions[c].content.name) ==> c in t.conditions)
    {
      HandleConditionsFrame(p, s, f, c);
      ReachedName(p.spec.conditions, f, s.conditions[c].content.name);
      if s.conditions[c].policy == p.status.policyId &&
         Reached(p.spec.conditions, f, |p.spec.conditions|, s.conditions[c].content.name) {
        HandleConditionsDeleteSafe(p, s, f, c);
      }
    }
  }

  lemma SparesSame(p: Policy, f: ConditionFaults, s: Store, t: Store, policy: nat)
    requires t.conditions == s.conditions
    ensures Spares(p, f, s, t, policy)
  {
  }

  lemma IfNeededSpares(p: Policy, s: Store, compareFails: bool, f: ConditionFaults)
    requires AtPolicy(p, s) && ObservedInOrder(p, s) && Proper(p.spec.conditions)
    ensures Spares(p, f, s, ReconcileConditionsIfNeeded(p, s, compareFails, f).store, p.status.policyId)
  {
    hide HandleConditions, AllRemoteConditionsMatch, HaveConditionsChanged, ShouldReconcileConditions, Proper, AllIdsOk,
      CanHandle, Spares, Later, WellFormed;
    var t := Log(s, ConditionSearch(p.spec.accountId, p.status.policyId));
    SparesSame(p, f, s, s, p.status.policyId);
    SparesSame(p, f, s, t, p.status.policyId);
    SameConditionsLater(s, t);
    LogInStep(s, ConditionSearch(p.spec.accountId, p.status.policyId));
    CanHandleWhen(p, s, f);
    CanHandleWhen(p, t, f);
    HandleSpares(p, s, f);
    HandleSpares(p, t, f);
    SparesFrom(p, f, s, t, HandleConditions(p, t, f).store, p.status.policyId);
  }

  lemma SparesFrom(p: Policy, f: ConditionFaults, s: Store, t: Store, u: Store, policy: nat)
    requires t.conditions == s.conditions
    ensures Spares(p, f, t, u, policy) <==> Spares(p, f, s, u, policy)
  {
  }

  lemma ExistingSpares(p: Policy, s: Store, id: nat, f: Faults)
    requires Wf(s) && PolicyReachable(s, p.spec.accountId, id)
    requires Proper(p.spec.conditions) && Proper(ObservedConditions(p)) && AllIdsOk(ObservedConditions(p), id, s)
    ensures Spares(p, f.conditions, s, SyncExisting(p, s, id, s.policies[id], f).store, id)
  {
    hide ReconcileConditionsIfNeeded, Proper, AllIdsOk, Spares, Later, WellFormed;
    var remote := s.policies[id];
    var q := p.(status := p.status.(policyId := id, applied := Some(BuildApplied(p, remote.name, remote.preference))));
    if remote.name != p.spec.name || remote.preference != p.spec.preference {
      var preference := PreferenceSent(p.spec.preference);
      var (t, ok) := UpdatePolicyCall(s, p.spec.accountId, id, p.spec.name, preference, f.updateFails);
      SparesSame(p, f.conditions, s, t, id);
      if ok {
        var u := q.(status := q.status.(applied := Some(BuildApplied(q, p.spec.name, preference))));
        SameConditionsLater(s, t);
        IfNeededSpares(u, t, f.compareFails, f.conditions);
        SparesFrom(u, f.conditions, s, t, ReconcileConditionsIfNeeded(u, t, f.compareFails, f.conditions).store, id);
        SameManaged(p, u, f.conditions, s, ReconcileConditionsIfNeeded(u, t, f.compareFails, f.conditions).store, id);
      }
    } else {
      IfNeededSpares(q, s, f.compareFails, f.conditions);
      SameManaged(p, q, f.conditions, s, ReconcileConditionsIfNeeded(q, s, f.compareFails, f.conditions).store, id);
    }
  }

  lemma SameManaged(p: Policy, q: Policy, f: ConditionFaults, s: Store, t: Store, policy: nat)
    requires q.spec == p.spec && ObservedConditions(q) == ObservedConditions(p)
    ensures Spares(p, f, s, t, policy) <==> Spares(q, f, s, t, policy)
  {
  }

  lemma CreateSpares(p: Policy, s: Store, f: Faults)
    requires Wf(s) && p.spec.accountId > 0 && Proper(p.spec.conditions)
    ensures var t := CreatePolicy(p, s, f).store;
            forall c :: c in s.conditions ==> c in t.conditions && t.conditions[c] == s.conditions[c]
  {
    hide Realised, Denote, CreatePolicyConditions, Proper, WellFormed;
    var (t, id) := CreatePolicyCall(s, p.spec.accountId, p.spec.name, PreferenceSent(p.spec.preference), f.createFails);
    if id.Some? {
      CreateAll(Work(t, p.spec.conditions, [], []), p.spec.accountId, s.next, |p.spec.conditions|, f.conditions);
    }
  }

  lemma KeptSpares(p: Policy, f: ConditionFaults, s: Store, t: Store, policy: nat)
    requires forall c :: c in s.conditions ==> c in t.conditions && t.conditions[c] == s.conditions[c]
    ensures Spares(p, f, s, t, policy)
  {
  }

  /** Whatever fails: a sync deletes no condition with a configured name whose search succeeds, and leaves unmanaged
      conditions and those of other policies alone. */
  lemma SyncSpares(p: Policy, s: Store, f: Faults)
    requires Wf(s) && Recorded(p.status, s) && p.spec.accountId > 0 && Proper(p.spec.conditions)
    ensures Spares(p, f.conditions, s, Sync(p, s, f).store, WorksOn(p, s))
  {
    hide SyncExisting, CreatePolicy, Proper, Later, WellFormed, AllIdsOk, Spares;
    var search := Log(s, PolicySearch(p.spec.accountId));
    var query := Log(s, PolicyQuery(p.spec.accountId, p.status.policyId));
    SparesSame(p, f.conditions, s, s, WorksOn(p, s));
    SparesSame(p, f.conditions, s, search, WorksOn(p, s));
    SparesSame(p, f.conditions, s, query, WorksOn(p, s));
    RecordedObserved(p, s);
    SameConditionsLater(s, search);
    SameConditionsLater(s, query);
    if AccountChanged(p) {
    } else if p.status.policyId == 0 {
      var matches := NameMatches(s, p.spec.accountId, p.spec.name);
      if matches == {} {
        CreateSpares(p, search, f);
        KeptSpares(p, f.conditions, s, CreatePolicy(p, search, f).store, WorksOn(p, s));
      } else if |matches| == 1 {
        ObservedAreGone(p, s, Least(matches));
        ExistingSpares(p, search, Least(matches), f);
        SparesFrom(p, f.conditions, s, search, SyncExisting(p, search, Least(matches), s.policies[Least(matches)],
            f).store,
            Least(matches));
      }
    } else {
      if p.status.policyId in s.policies {
        PolicyIsReachable(p, s);
        ExistingSpares(p, query, p.status.policyId, f);
        SparesFrom(p, f.conditions, s, query, SyncExisting(p, query, p.status.policyId,
            s.policies[p.status.policyId], f).store,
                   p.status.policyId);
      } else {
        ForgottenConditions(p, query, f.conditions);
        CreateSpares(ForgetPolicy(p), query, f);
        KeptSpares(p, f.conditions, s, CreatePolicy(ForgetPolicy(p), query, f).store, WorksOn(p, s));
      }
    }
  }
}

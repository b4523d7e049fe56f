/** Exactly which calls handleConditions makes and when it fails, said over what is applied and what New Relic lists. */
module AlertPolicyConditionCalls {
  import opened Options
  import opened NrqlConditions
  import opened AlertStore
  import opened AlertPolicies
  import opened AlertPolicyConditions
  import opened AlertPolicyDeletes
  import opened AlertPolicyQuiescence

  // ----- What a configured condition needs -----

  predicate Bears(s: Store, policy: nat, name: string, id: nat) {
    id in s.conditions && s.conditions[id].policy == policy && s.conditions[id].content.name == name
  }

  /** The first remote condition of a name in a policy. */
  ghost predicate IsFirst(s: Store, policy: nat, name: string, id: nat) {
    Bears(s, policy, name, id) && forall x: nat :: Bears(s, policy, name, x) ==> id <= x
  }

  /** The outer name counts, and the name of the spec only if that is blank. */
  predicate GoesBy(o: PolicyCondition, name: string) { if o.name != "" then o.name == name else o.spec.name == name }

  predicate Unapplied(os: seq<PolicyCondition>, name: string) {
    forall j :: 0 <= j < |os| ==> !GoesBy(os[j], name)
  }

  /** The first applied entry with the name of the spec has the spec. */
  predicate AppliedAs(os: seq<PolicyCondition>, spec: ConditionSpec) {
    exists j :: 0 <= j < |os| && GoesBy(os[j], spec.name) && os[j].spec == spec &&
                forall i :: 0 <= i < j ==> !GoesBy(os[i], spec.name)
  }

  /** Nothing has to be sent: a condition of the name exists, and the spec is the applied one; or nothing is applied
      under the name, and the spec is the projection of the first condition of the name. */
  ghost predicate UpToDate(job: Job, s: Store, spec: ConditionSpec) {
    exists id: nat :: IsFirst(s, job.policyId, spec.name, id) &&
                      (AppliedAs(job.observed, spec) ||
                       (Unapplied(job.observed, spec.name) && Project(s.conditions[id].content) == spec))
  }

  lemma FirstNamedExact(s: Store, policy: nat, name: string, id: nat)
    ensures FirstNamed(s, policy, name) == Some(id) <==> IsFirst(s, policy, name, id)
    ensures FirstNamed(s, policy, name) == None <==> forall x: nat :: !Bears(s, policy, name, x)
  {
    assert forall x: nat :: x in Named(s, policy, name) <==> Bears(s, policy, name, x);
  }

  lemma FindAppliedExact(os: seq<PolicyCondition>, spec: ConditionSpec)
    ensures var k := FindApplied(os, spec.name);
            (Unapplied(os, spec.name) <==> k == |os|) && (AppliedAs(os, spec) <==> k < |os| && os[k].spec == spec)
  {
  }

  lemma UpToDateIff(job: Job, s: Store, spec: ConditionSpec)
    ensures UpToDate(job, s, spec) <==> !NeedsCall(job, s, spec)
  {
    hide Project, FindApplied, IsFirst, AppliedAs, Unapplied;
    FindAppliedExact(job.observed, spec);
    forall id: nat
      ensures FirstNamed(s, job.policyId, spec.name) == Some(id) <==> IsFirst(s, job.policyId, spec.name, id)
      ensures IsFirst(s, job.policyId, spec.name, id) ==> id in s.conditions
    {
      FirstNamedExact(s, job.policyId, spec.name, id);
      FirstBears(s, job.policyId, spec.name, id);
    }
  }

  lemma FirstBears(s: Store, policy: nat, name: string, id: nat)
    ensures IsFirst(s, policy, name, id) ==> Bears(s, policy, name, id)
  {
  }

  // ----- One turn of the loop -----

  function Searched(job: Job, w: Work): Store { Log(w.store, ConditionSearch(job.account, job.policyId)) }

  lemma SearchShowsSameFirst(job: Job, w: Work, name: string)
    requires PolicyReachable(w.store, job.account, job.policyId)
    ensures FirstListed(Searched(job, w), job.account, job.policyId, name) == FirstNamed(w.store, job.policyId, name)
    ensures FirstNamed(w.store, job.policyId, name).Some? ==>
              Bears(w.store, job.policyId, name, FirstNamed(w.store, job.policyId, name).value)
  {
    assert Named(Searched(job, w), job.policyId, name) == Named(w.store, job.policyId, name);
    SomeNamed(w.store, job.policyId, name);
  }

  /** After a failed search: an error, and nothing else. */
  lemma FailedSearchTurn(job: Job, w: Work, i: nat)
    requires i < |w.conditions| && |w.processed| == |job.observed| && job.f.search(i)
    ensures ProcessOne(job, w, i) ==
            w.(store := Searched(job, w), errors := w.errors + [w.conditions[i].spec.name])
  {
  }

  /** An up-to-date condition costs the search and nothing else, whatever creates and updates would do, and its entry
      gets the ID and the name of the first condition of the name. */
  lemma UpToDateTurn(job: Job, w: Work, i: nat, id: nat)
    requires i < |w.conditions| && |w.processed| == |job.observed| && !job.f.search(i)
    requires PolicyReachable(w.store, job.account, job.policyId)
    requires UpToDate(job, w.store, w.conditions[i].spec)
    requires IsFirst(w.store, job.policyId, w.conditions[i].spec.name, id)
    ensures var c, r := w.conditions[i], ProcessOne(job, w, i);
            r.store == Searched(job, w) && r.errors == w.errors &&
            r.conditions == w.conditions[i := c.(name := c.spec.name, id := id)]
  {
    hide Denote, Project, FindApplied, UpToDate, IsFirst, FirstListed, UpdateConditionCall;
    var spec := w.conditions[i].spec;
    UpToDateIff(job, w.store, spec);
    SearchShowsSameFirst(job, w, spec.name);
    FirstNamedExact(w.store, job.policyId, spec.name, id);
  }

  /** A missing condition is created. */
  lemma MissingTurn(job: Job, w: Work, i: nat)
    requires i < |w.conditions| && |w.processed| == |job.observed| && !job.f.search(i)
    requires PolicyReachable(w.store, job.account, job.policyId)
    requires forall x: nat :: !Bears(w.store, job.policyId, w.conditions[i].spec.name, x)
    ensures var c, r := w.conditions[i], ProcessOne(job, w, i);
            r.store.calls == Searched(job, w).calls + [ConditionCreate(job.account, job.policyId)] &&
            r.errors == (if job.f.mutate(i) then w.errors + [c.spec.name] else w.errors) &&
            r.conditions == if job.f.mutate(i) then w.conditions
                            else w.conditions[i := c.(name := c.spec.name, id := w.store.next)]
  {
    hide Denote, Project, FindApplied, FirstListed;
    SearchShowsSameFirst(job, w, w.conditions[i].spec.name);
    FirstNamedExact(w.store, job.policyId, w.conditions[i].spec.name, 0);
  }

  /** A condition that is there and not up to date is updated. */
  lemma StaleTurn(job: Job, w: Work, i: nat, id: nat)
    requires i < |w.conditions| && |w.processed| == |job.observed| && !job.f.search(i)
    requires PolicyReachable(w.store, job.account, job.policyId)
    requires !UpToDate(job, w.store, w.conditions[i].spec)
    requires IsFirst(w.store, job.policyId, w.conditions[i].spec.name, id)
    ensures var c, r := w.conditions[i], ProcessOne(job, w, i);
            r.store.calls == Searched(job, w).calls + [ConditionUpdate(job.account, id)] &&
            r.errors == (if job.f.mutate(i) then w.errors + [c.spec.name] else w.errors) &&
            r.conditions == if job.f.mutate(i) then w.conditions
                            else w.conditions[i := c.(name := c.spec.name, id := id)]
  {
    hide Denote, Project, FindApplied, UpToDate, IsFirst, FirstListed;
    var spec := w.conditions[i].spec;
    UpToDateIff(job, w.store, spec);
    SearchShowsSameFirst(job, w, spec.name);
    FirstNamedExact(w.store, job.policyId, spec.name, id);
  }

  // ----- The whole loop -----

  /** The calls of one turn, judged by the store that the loop starts from. */
  ghost function TurnCalls(job: Job, s: Store, spec: ConditionSpec, i: nat): seq<Call> {
    var first := FirstNamed(s, job.policyId, spec.name);
    [ConditionSearch(job.account, job.policyId)] +
    if job.f.search(i) || UpToDate(job, s, spec) then []
    else if first.None? then [ConditionCreate(job.account, job.policyId)]
    else [ConditionUpdate(job.account, first.value)]
  }

  ghost function LoopCalls(job: Job, s: Store, cs: seq<PolicyCondition>, n: nat): seq<Call>
    requires n <= |cs|
  {
    if n == 0 then [] else LoopCalls(job, s, cs, n - 1) + TurnCalls(job, s, cs[n - 1].spec, n - 1)
  }

  /** The search fails, or the create or update that is needed. */
  ghost predicate TurnFails(job: Job, s: Store, spec: ConditionSpec, i: nat) {
    job.f.search(i) || (job.f.mutate(i) && !UpToDate(job, s, spec))
  }

  lemma TurnHere(job: Job, w: Work, i: nat)
    requires i < |w.conditions| && |w.processed| == |job.observed|
    requires PolicyReachable(w.store, job.account, job.policyId)
    ensures var c, r := w.conditions[i], ProcessOne(job, w, i);
            var first := FirstNamed(w.store, job.policyId, c.spec.name);
            r.store.calls == w.store.calls + TurnCalls(job, w.store, c.spec, i) &&
            r.errors == (if TurnFails(job, w.store, c.spec, i) then w.errors + [c.spec.name] else w.errors) &&
            (job.f.search(i) || UpToDate(job, w.store, c.spec) ==> r.store == Searched(job, w)) &&
            (TurnFails(job, w.store, c.spec, i) ==> r.conditions == w.conditions) &&
            (!TurnFails(job, w.store, c.spec, i) && first.Some? ==>
               r.conditions == w.conditions[i := c.(name := c.spec.name, id := first.value)])
  {
    hide ProcessOne, UpToDate, IsFirst, FirstNamed, Bears;
    var name := w.conditions[i].spec.name;
    UpToDateIff(job, w.store, w.conditions[i].spec);
    var first := FirstNamed(w.store, job.policyId, name);
    if job.f.search(i) {
      FailedSearchTurn(job, w, i);
    } else if first.None? {
      FirstNamedExact(w.store, job.policyId, name, 0);
      MissingTurn(job, w, i);
    } else {
      FirstNamedExact(w.store, job.policyId, name, first.value);
      if UpToDate(job, w.store, w.conditions[i].spec) {
        UpToDateTurn(job, w, i, first.value);
      } else {
        StaleTurn(job, w, i, first.value);
      }
    }
  }

  /** Turns do not see each other's work: what was done for other names does not count. */
  lemma SameTurn(job: Job, w0: Work, w: Work, i: nat)
    requires Initial(job, w0) && i < |w0.conditions| && Progress(job, w0, w, i)
    ensures var spec := w0.conditions[i].spec;
            TurnCalls(job, w.store, spec, i) == TurnCalls(job, w0.store, spec, i) &&
            (TurnFails(job, w.store, spec, i) <==> TurnFails(job, w0.store, spec, i)) &&
            FirstNamed(w.store, job.policyId, spec.name) == FirstNamed(w0.store, job.policyId, spec.name)
    ensures w.conditions[i] == w0.conditions[i] && PolicyReachable(w.store, job.account, job.policyId)
  {
    hide UpToDate, NeedsCall, Touches, Settled, Wanted, Wf, Proper, FirstNamed;
    var spec, names := w0.conditions[i].spec, Names(w0.conditions, i);
    ProgressTouches(job, w0, w, i);
    UpToDateIff(job, w0.store, spec);
    UpToDateIff(job, w.store, spec);
    NeedsCallElsewhere(job, w0.store, w.store, names, spec);
    TouchesOther(w0.store, w.store, job.policyId, names, spec.name);
  }

  lemma ProgressTouches(job: Job, w0: Work, w: Work, i: nat)
    requires Initial(job, w0) && i < |w0.conditions| && Progress(job, w0, w, i)
    ensures Touches(w0.store, w.store, job.policyId, Names(w0.conditions, i))
    ensures w0.conditions[i].spec.name !in Names(w0.conditions, i)
    ensures PolicyReachable(w.store, job.account, job.policyId)
  {
    hide Settled, Wanted, Wf;
    NamesStep(w0.conditions, i);
  }

  lemma {:induction false} LoopCallsExact(job: Job, w0: Work, n: nat)
    requires Initial(job, w0) && n <= |w0.conditions|
    ensures ProcessUpTo(job, w0, n).store.calls == w0.store.calls + LoopCalls(job, w0.store, w0.conditions, n)
  {
    hide ProcessOne, Initial, Progress, TurnCalls, TurnFails, UpToDate, FirstNamed, Searched;
    InitialFits(job, w0);
    if n > 0 {
      LoopCallsExact(job, w0, n - 1);
      LoopProgress(job, w0, n - 1);
      var w := ProcessUpTo(job, w0, n - 1);
      SameTurn(job, w0, w, n - 1);
      TurnHere(job, w, n - 1);
    }
  }

  lemma {:induction false} LoopErrorsIff(job: Job, w0: Work, n: nat)
    requires Initial(job, w0) && n <= |w0.conditions| && w0.errors == []
    ensures ProcessUpTo(job, w0, n).errors == [] <==>
            forall k :: 0 <= k < n ==> !TurnFails(job, w0.store, w0.conditions[k].spec, k)
  {
    hide ProcessOne, Initial, Progress, TurnFails, TurnCalls, UpToDate, FirstNamed, Searched;
    InitialFits(job, w0);
    if n > 0 {
      LoopErrorsIff(job, w0, n - 1);
      LoopProgress(job, w0, n - 1);
      var w := ProcessUpTo(job, w0, n - 1);
      SameTurn(job, w0, w, n - 1);
      TurnHere(job, w, n - 1);
    }
  }

  // ----- The delete loop -----

  ghost function DeleteCalls(p: Policy, s: Store, f: ConditionFaults, n: nat): seq<Call>
    requires n <= |ObservedConditions(p)|
  {
    if n == 0 then []
    else
      DeleteCalls(p, s, f, n - 1) +
      if Unwanted(p, s, f, n - 1) then [ConditionDelete(p.spec.accountId, StaleTarget(p, s, n - 1))] else []
  }

  lemma {:induction false} DeleteCallsExact(p: Policy, s: Store, f: ConditionFaults, v: Work, n: nat)
    requires CanStart(p, s, f) && n <= |ObservedConditions(p)|
    requires v == AfterLoop(p, s, f).(store := v.store)
    requires v.store == Log(AfterLoop(p, s, f).store, ConditionSearch(p.spec.accountId, p.status.policyId))
    ensures |v.processed| == |ObservedConditions(p)|
    ensures DeleteUpTo(JobOf(p, f), v.store, v, n).store.calls == v.store.calls + DeleteCalls(p, s, f, n)
  {
    hide Unwanted, StaleTarget, DeleteTarget, CanStart, AfterLoop;
    LoopTouches(p, s, f);
    if n > 0 {
      DeleteCallsExact(p, s, f, v, n - 1);
      UnprocessedIsUnwanted(p, s, f, n - 1);
      if Unwanted(p, s, f, n - 1) {
        UnwantedAims(p, s, f, v.store, n - 1);
      }
    }
  }

  /** The calls of the delete phase. */
  ghost function TrimCalls(p: Policy, s: Store, f: ConditionFaults): seq<Call> {
    if ObservedConditions(p) == [] then []
    else
      [ConditionSearch(p.spec.accountId, p.status.policyId)] +
      if f.list then [] else DeleteCalls(p, s, f, |ObservedConditions(p)|)
  }

  /** Whatever fails and whatever IDs are recorded: handleConditions makes exactly these calls, in this order. Each
      configured condition is searched for; it is created if it is missing, and updated if it is there and not up to
      date. Then each unwanted entry is deleted. */
  lemma HandleCallsExact(p: Policy, s: Store, f: ConditionFaults)
    requires CanStart(p, s, f)
    ensures HandleConditions(p, s, f).store.calls ==
            s.calls + LoopCalls(JobOf(p, f), s, p.spec.conditions, |p.spec.conditions|) + TrimCalls(p, s, f)
  {
    hide ProcessUpTo, DeleteUpTo, LoopCalls, DeleteCalls, CanStart;
    var w := AfterLoop(p, s, f);
    var v := w.(store := Log(w.store, ConditionSearch(p.spec.accountId, p.status.policyId)));
    StartIsInitial(p, s, f);
    LoopCallsExact(JobOf(p, f), WorkOf(p, s), |p.spec.conditions|);
    DeleteCallsExact(p, s, f, v, |ObservedConditions(p)|);
  }

  lemma StartIsInitial(p: Policy, s: Store, f: ConditionFaults)
    requires CanStart(p, s, f)
    ensures Initial(JobOf(p, f), WorkOf(p, s))
  {
  }

  // ----- When it only reads -----

  predicate ReadCalls(cs: seq<Call>) { forall i :: 0 <= i < |cs| ==> !Mutates(cs[i]) }

  lemma ReadBoth(a: seq<Call>, b: seq<Call>)
    ensures ReadCalls(a + b) <==> ReadCalls(a) && ReadCalls(b)
  {
    forall i | 0 <= i < |a|
      ensures (a + b)[i] == a[i]
    {
    }
    forall i | 0 <= i < |b|
      ensures (a + b)[|a| + i] == b[i]
    {
    }
  }

  lemma ReadsIff(s: Store, t: Store, calls: seq<Call>)
    requires t.calls == s.calls + calls
    ensures OnlyReads(s, t) <==> SameRemote(s, t) && ReadCalls(calls)
  {
    forall i: nat | i < |calls|
      ensures t.calls[|s.calls| + i] == calls[i]
    {
    }
    if OnlyReads(s, t) {
      forall i | 0 <= i < |calls|
        ensures !Mutates(calls[i])
      {
        assert !Mutates(t.calls[|s.calls| + i]);
      }
    }
  }

  /** The search for the condition fails, or nothing has to be sent for it. */
  ghost predicate LeftAlone(job: Job, s: Store, spec: ConditionSpec, k: nat) {
    job.f.search(k) || UpToDate(job, s, spec)
  }

  lemma {:induction false} LoopReadsIff(job: Job, w0: Work, n: nat)
    requires Initial(job, w0) && n <= |w0.conditions|
    ensures var alone := forall k :: 0 <= k < n ==> LeftAlone(job, w0.store, w0.conditions[k].spec, k);
            (ReadCalls(LoopCalls(job, w0.store, w0.conditions, n)) <==> alone) &&
            (alone ==> SameRemote(w0.store, ProcessUpTo(job, w0, n).store))
  {
    hide ProcessOne, Initial, Progress, UpToDate, TurnFails, FirstNamed;
    InitialFits(job, w0);
    if n > 0 {
      LoopReadsIff(job, w0, n - 1);
      LoopProgress(job, w0, n - 1);
      var w, spec := ProcessUpTo(job, w0, n - 1), w0.conditions[n - 1].spec;
      SameTurn(job, w0, w, n - 1);
      TurnHere(job, w, n - 1);
      ReadBoth(LoopCalls(job, w0.store, w0.conditions, n - 1), TurnCalls(job, w0.store, spec, n - 1));
      TurnReadsIff(job, w0.store, spec, n - 1);
      TurnReadsIff(job, w.store, spec, n - 1);
    }
  }

  lemma TurnReadsIff(job: Job, s: Store, spec: ConditionSpec, i: nat)
    ensures ReadCalls(TurnCalls(job, s, spec, i)) <==> LeftAlone(job, s, spec, i)
  {
    hide UpToDate, FirstNamed;
    var calls := TurnCalls(job, s, spec, i);
    if !LeftAlone(job, s, spec, i) {
      assert Mutates(calls[1]);
    }
  }

  lemma {:induction false} DeleteReadsIff(p: Policy, s: Store, f: ConditionFaults, n: nat)
    requires n <= |ObservedConditions(p)|
    ensures ReadCalls(DeleteCalls(p, s, f, n)) <==> forall j :: 0 <= j < n ==> !Unwanted(p, s, f, j)
  {
    hide Unwanted, StaleTarget;
    if n > 0 {
      DeleteReadsIff(p, s, f, n - 1);
      var delete := ConditionDelete(p.spec.accountId, StaleTarget(p, s, n - 1));
      var last := if Unwanted(p, s, f, n - 1) then [delete] else [];
      ReadBoth(DeleteCalls(p, s, f, n - 1), last);
      assert Unwanted(p, s, f, n - 1) ==> Mutates(last[0]);
    }
  }

  /** handleConditions only reads exactly if every configured condition whose search succeeds is up to date, and no
      applied entry is unwanted or the listing for the deletes fails. */
  lemma HandleOnlyReadsIff(p: Policy, s: Store, f: ConditionFaults)
    requires CanStart(p, s, f)
    ensures OnlyReads(s, HandleConditions(p, s, f).store) <==>
            (forall k :: 0 <= k < |p.spec.conditions| ==> LeftAlone(JobOf(p, f), s, p.spec.conditions[k].spec, k)) &&
            (f.list || forall j :: 0 <= j < |ObservedConditions(p)| ==> !Unwanted(p, s, f, j))
  {
    hide ProcessUpTo, DeleteUpTo, LoopCalls, DeleteCalls, LeftAlone, CanStart, OnlyReads, Unwanted, ReadCalls;
    var n, m := |p.spec.conditions|, |ObservedConditions(p)|;
    var loop, search := LoopCalls(JobOf(p, f), s, p.spec.conditions, n),
                        [ConditionSearch(p.spec.accountId, p.status.policyId)];
    StartIsInitial(p, s, f);
    HandleCallsExact(p, s, f);
    LoopReadsIff(JobOf(p, f), WorkOf(p, s), n);
    DeleteReadsIff(p, s, f, m);
    ReadsIff(s, HandleConditions(p, s, f).store, loop + TrimCalls(p, s, f));
    ReadBoth(loop, TrimCalls(p, s, f));
    ReadBoth(search, DeleteCalls(p, s, f, m));
    ReadBoth(search, []);
    SearchReads(p.spec.accountId, p.status.policyId);
    if f.list || forall j :: 0 <= j < m ==> !Unwanted(p, s, f, j) {
      TrimKeeps(p, s, f);
    }
  }

  lemma SearchReads(account: int, policy: nat)
    ensures ReadCalls([ConditionSearch(account, policy)]) && ReadCalls([])
  {
  }

  lemma TrimKeeps(p: Policy, s: Store, f: ConditionFaults)
    requires CanStart(p, s, f)
    requires f.list || forall j :: 0 <= j < |ObservedConditions(p)| ==> !Unwanted(p, s, f, j)
    ensures SameRemote(AfterLoop(p, s, f).store, HandleConditions(p, s, f).store)
  {
    hide ProcessUpTo, DeleteUpTo, Unwanted, CanStart;
    var job, w := JobOf(p, f), AfterLoop(p, s, f);
    var v := w.(store := Log(w.store, ConditionSearch(job.account, job.policyId)));
    LoopTouches(p, s, f);
    if !f.list {
      forall j | 0 <= j < |w.processed|
        ensures w.processed[j]
      {
        UnprocessedIsUnwanted(p, s, f, j);
      }
      NothingToDelete(job, v.store, v, |job.observed|);
    }
  }

  // ----- What is recorded -----

  /** The entry of a condition that was there, and whose search and needed update work, gets the ID and the name of the
      first condition of its name; if they fail it is recorded as it was written. */
  lemma EntryExact(p: Policy, s: Store, f: ConditionFaults, k: nat, id: nat)
    requires CanStart(p, s, f) && k < |p.spec.conditions|
    requires IsFirst(s, p.status.policyId, p.spec.conditions[k].spec.name, id)
    ensures var c, r := p.spec.conditions[k], HandleConditions(p, s, f).policy;
            |r.spec.conditions| == |p.spec.conditions| && r.status.applied == Some(r.spec) &&
            r.spec.conditions[k] ==
            if TurnFails(JobOf(p, f), s, c.spec, k) then c else c.(name := c.spec.name, id := id)
  {
    hide ProcessOne, DeletePhase, CanStart, TurnFails, FirstNamed, Progress, TurnCalls;
    var job, w0 := JobOf(p, f), WorkOf(p, s);
    var w := ProcessUpTo(job, w0, k);
    StartIsInitial(p, s, f);
    LoopProgress(job, w0, k);
    SameTurn(job, w0, w, k);
    TurnHere(job, w, k);
    FirstNamedExact(s, p.status.policyId, p.spec.conditions[k].spec.name, id);
    LaterTurnsKeepEntry(job, w0, |p.spec.conditions|, k);
  }

  /** A policy adopted with nothing applied and with conditions that are what the spec asks for: whatever creates and
      updates would do, no mutating call is made, nothing fails, and the IDs found are recorded. */
  lemma AdoptedConditionsAreLeft(p: Policy, s: Store, f: ConditionFaults)
    requires CanStart(p, s, f) && SearchesSucceed(f, |p.spec.conditions|) && ObservedConditions(p) == []
    requires forall k :: 0 <= k < |p.spec.conditions| ==>
               exists id: nat :: IsFirst(s, p.status.policyId, p.spec.conditions[k].spec.name, id) &&
                                 Project(s.conditions[id].content) == p.spec.conditions[k].spec
    ensures var r := HandleConditions(p, s, f);
            OnlyReads(s, r.store) && !r.failed && |r.policy.spec.conditions| == |p.spec.conditions| &&
            forall k, id: nat :: 0 <= k < |p.spec.conditions| &&
                                 IsFirst(s, p.status.policyId, p.spec.conditions[k].spec.name, id) ==>
              r.policy.spec.conditions[k] ==
              p.spec.conditions[k].(name := p.spec.conditions[k].spec.name, id := id)
  {
    hide ProcessUpTo, CanStart, OnlyReads, Project, IsFirst;
    var job := JobOf(p, f);
    forall k | 0 <= k < |p.spec.conditions|
      ensures UpToDate(job, s, p.spec.conditions[k].spec)
    {
      assert Unapplied(job.observed, p.spec.conditions[k].spec.name);
    }
    HandleOnlyReadsIff(p, s, f);
    StartIsInitial(p, s, f);
    LoopErrorsIff(job, WorkOf(p, s), |p.spec.conditions|);
    forall k, id: nat | 0 <= k < |p.spec.conditions| &&
                        IsFirst(s, p.status.policyId, p.spec.conditions[k].spec.name, id)
      ensures HandleConditions(p, s, f).policy.spec.conditions[k] ==
              p.spec.conditions[k].(name := p.spec.conditions[k].spec.name, id := id)
    {
      EntryExact(p, s, f, k, id);
    }
    HandleConditionsSnapshot(p, s, f);
  }

  // ----- When it fails -----

  lemma LiveTargetReached(p: Policy, s: Store, f: ConditionFaults, v: Work, n: nat)
    requires CanHandle(p, s, f) && n < |ObservedConditions(p)| && Unwanted(p, s, f, n)
    requires v == AfterLoop(p, s, f).(store := v.store)
    requires v.store == Log(AfterLoop(p, s, f).store, ConditionSearch(p.spec.accountId, p.status.policyId))
    ensures |v.processed| == |ObservedConditions(p)|
    ensures var before := DeleteUpTo(JobOf(p, f), v.store, v, n).store;
            ConditionReachable(before, p.spec.accountId, StaleTarget(p, s, n)) <==> StaleTarget(p, s, n) in s.conditions
  {
    hide Unwanted, DeleteUpTo, DeleteTarget, AfterLoop, Proper, Wf;
    var job, t, name := JobOf(p, f), StaleTarget(p, s, n), ObservedConditions(p)[n].spec.name;
    LoopTouches(p, s, f);
    ProperIdentity(p, s, f, n);
    SomeNamed(s, p.status.policyId, name);
    assert IdOk(ObservedConditions(p)[n], p.status.policyId, s);
    StartMeans(p, s, f);
    DeleteTrims(job, v.store, v, n);
    if t in s.conditions {
      assert t in Named(s, p.status.policyId, name);
      DeletedIff(job, v.store, v, n, t);
      if j :| 0 <= j < n && !v.processed[j] && DeleteTarget(job, v.store, j) == t && !f.delete(j) {
        UnprocessedIsUnwanted(p, s, f, j);
        UnwantedAims(p, s, f, v.store, j);
        AimsAtOwnName(p, s, f, j, n, t);
      }
    }
  }

  lemma {:induction false} DeleteErrorsIff(p: Policy, s: Store, f: ConditionFaults, v: Work, n: nat)
    requires CanHandle(p, s, f) && n <= |ObservedConditions(p)|
    requires v == AfterLoop(p, s, f).(store := v.store)
    requires v.store == Log(AfterLoop(p, s, f).store, ConditionSearch(p.spec.accountId, p.status.policyId))
    ensures |v.processed| == |ObservedConditions(p)|
    ensures DeleteUpTo(JobOf(p, f), v.store, v, n).errors == [] <==>
            v.errors == [] && forall j :: 0 <= j < n && Unwanted(p, s, f, j) ==>
                                !f.delete(j) && StaleTarget(p, s, j) in s.conditions
  {
    hide Unwanted, StaleTarget, DeleteTarget, CanHandle, AfterLoop, ConditionReachable;
    HandleIsStart(p, s, f);
    LoopTouches(p, s, f);
    if n > 0 {
      DeleteErrorsIff(p, s, f, v, n - 1);
      UnprocessedIsUnwanted(p, s, f, n - 1);
      if Unwanted(p, s, f, n - 1) {
        UnwantedAims(p, s, f, v.store, n - 1);
        LiveTargetReached(p, s, f, v, n - 1);
      }
    }
  }

  lemma HandleIsStart(p: Policy, s: Store, f: ConditionFaults)
    requires CanHandle(p, s, f)
    ensures CanStart(p, s, f)
  {
  }

  /** An applied entry is unwanted, and its delete fails or finds nothing to delete. */
  ghost predicate TrimFails(p: Policy, s: Store, f: ConditionFaults, j: nat)
    requires j < |ObservedConditions(p)|
  {
    Unwanted(p, s, f, j) && (f.delete(j) || StaleTarget(p, s, j) !in s.conditions)
  }

  /** Whatever fails: handleConditions returns an error exactly if a search fails, or a create or update that is needed,
      or the listing for the deletes, or a delete, to which the absence of the condition counts. */
  lemma HandleFailsIff(p: Policy, s: Store, f: ConditionFaults)
    requires CanHandle(p, s, f)
    ensures HandleConditions(p, s, f).failed <==>
            (exists k :: 0 <= k < |p.spec.conditions| && TurnFails(JobOf(p, f), s, p.spec.conditions[k].spec, k)) ||
            (ObservedConditions(p) != [] && f.list) ||
            (!f.list && exists j :: 0 <= j < |ObservedConditions(p)| && TrimFails(p, s, f, j))
  {
    hide ProcessUpTo, DeleteUpTo, TurnFails, Unwanted, StaleTarget, CanHandle, CanStart;
    var w, m := AfterLoop(p, s, f), |ObservedConditions(p)|;
    var v := w.(store := Log(w.store, ConditionSearch(p.spec.accountId, p.status.policyId)));
    HandleIsStart(p, s, f);
    StartIsInitial(p, s, f);
    LoopErrorsIff(JobOf(p, f), WorkOf(p, s), |p.spec.conditions|);
    DeleteErrorsIff(p, s, f, v, m);
    assert (exists j :: 0 <= j < m && TrimFails(p, s, f, j)) <==>
           !forall j :: 0 <= j < m && Unwanted(p, s, f, j) ==> !f.delete(j) && StaleTarget(p, s, j) in s.conditions by {
      if j :| 0 <= j < m && Unwanted(p, s, f, j) && !(!f.delete(j) && StaleTarget(p, s, j) in s.conditions) {
        assert TrimFails(p, s, f, j);
      }
    }
  }

  // ----- Deciding whether conditions need work -----

  ghost predicate IsLast(s: Store, policy: nat, name: string, id: nat) {
    Bears(s, policy, name, id) && forall x: nat :: Bears(s, policy, name, x) ==> x <= id
  }

  /** The last remote condition of the entry's name, which must not be blank, is what the spec asks for. */
  ghost predicate LastIs(s: Store, policy: nat, c: PolicyCondition) {
    exists name, id: nat :: name != "" && GoesBy(c, name) && IsLast(s, policy, name, id) &&
                            Project(s.conditions[id].content) == c.spec
  }

  lemma LastListedExact(s: Store, account: int, policy: nat, name: string, id: nat)
    requires PolicyReachable(s, account, policy)
    ensures LastListed(s, account, policy, name) == Some(id) <==> name != "" && IsLast(s, policy, name, id)
  {
    assert forall x: nat :: x in Named(s, policy, name) <==> Bears(s, policy, name, x);
  }

  lemma MatchesIff(p: Policy, s: Store, i: nat)
    requires PolicyReachable(s, p.spec.accountId, p.status.policyId) && i < |p.spec.conditions|
    ensures RemoteConditionMatches(p, s, i) <==> LastIs(s, p.status.policyId, p.spec.conditions[i])
  {
    hide Project, LastListed;
    forall id: nat
      ensures LastListed(s, p.spec.accountId, p.status.policyId, Identity(p.spec.conditions[i])) == Some(id) <==>
              Identity(p.spec.conditions[i]) != "" &&
              IsLast(s, p.status.policyId, Identity(p.spec.conditions[i]), id)
    {
      LastListedExact(s, p.spec.accountId, p.status.policyId, Identity(p.spec.conditions[i]), id);
    }
  }

  ghost function HandleCalls(p: Policy, s: Store, f: ConditionFaults): seq<Call> {
    LoopCalls(JobOf(p, f), s, p.spec.conditions, |p.spec.conditions|) + TrimCalls(p, s, f)
  }

  /** If the specs differ from the applied ones, the conditions are handled at once. If they do not, and there are any,
      they are listed, and handled exactly if one of them is missing or is not what New Relic has last of its name. */
  lemma IfNeededCallsExact(p: Policy, s: Store, compareFails: bool, f: ConditionFaults)
    requires CanStart(p, s, f)
    ensures var r := ReconcileConditionsIfNeeded(p, s, compareFails, f);
            var listed := Log(s, ConditionSearch(p.spec.accountId, p.status.policyId));
            if !SameSpecs(p.spec.conditions, ObservedConditions(p)) then r.store.calls == s.calls + HandleCalls(p, s, f)
            else if p.spec.conditions == [] then r == Result(p, s, false)
            else if compareFails then r == Result(p, listed, true)
            else if forall i :: 0 <= i < |p.spec.conditions| ==> LastIs(s, p.status.policyId, p.spec.conditions[i]) then
              r == Result(p, listed, false)
            else r.store.calls == listed.calls + HandleCalls(p, listed, f)
  {
    hide LoopCalls, TrimCalls, HandleConditions, RemoteConditionMatches, LastIs, CanStart;
    StartMeans(p, s, f);
    StartLogged(p, s, f);
    HandleCallsExact(p, s, f);
    HandleCallsExact(p, Log(s, ConditionSearch(p.spec.accountId, p.status.policyId)), f);
    forall i | 0 <= i < |p.spec.conditions|
      ensures RemoteConditionMatches(p, s, i) <==> LastIs(s, p.status.policyId, p.spec.conditions[i])
    {
      MatchesIff(p, s, i);
    }
  }

  lemma StartLogged(p: Policy, s: Store, f: ConditionFaults)
    requires CanStart(p, s, f)
    ensures CanStart(p, Log(s, ConditionSearch(p.spec.accountId, p.status.policyId)), f)
  {
    hide Proper, WellFormed;
  }
}

/** What handleConditions does to the remote conditions, whatever creates, updates and deletes fail. */
module AlertPolicyConditions {
  import opened Options
  import opened NrqlConditions
  import opened AlertStore
  import opened AlertPolicies

  // ----- Well-formed lists of conditions -----

  /** Nonblank names, no name twice, and an outer name that is blank or the same. */
  predicate Proper(cs: seq<PolicyCondition>) {
    (forall i :: 0 <= i < |cs| ==> cs[i].spec.name != "" && (cs[i].name == "" || cs[i].name == cs[i].spec.name)) &&
    (forall i, j :: 0 <= i < j < |cs| ==> cs[i].spec.name != cs[j].spec.name)
  }

  function Names(cs: seq<PolicyCondition>, n: nat): set<string>
    requires n <= |cs|
  {
    set i | 0 <= i < n :: cs[i].spec.name
  }

  predicate InSync(s: Store, id: nat, spec: ConditionSpec) {
    id in s.conditions && s.conditions[id].content == Denote(spec)
  }

  /** The first remote condition of the name is exactly what the spec asks for. */
  ghost predicate Realised(spec: ConditionSpec, policy: nat, s: Store) {
    var id := FirstNamed(s, policy, spec.name);
    id.Some? && InSync(s, id.value, spec)
  }

  /** A recorded ID was handed out once; if its condition is live, it is in this policy and bears the entry's name. */
  ghost predicate IdOk(o: PolicyCondition, policy: nat, s: Store) {
    o.id < s.next &&
    (o.id in s.conditions ==> s.conditions[o.id].policy == policy && s.conditions[o.id].content.name == o.spec.name)
  }

  ghost predicate AllIdsOk(os: seq<PolicyCondition>, policy: nat, s: Store) {
    forall j :: 0 <= j < |os| ==> IdOk(os[j], policy, s)
  }

  /** An applied entry is absent remotely, or agrees with the remote condition of its name and ID. */
  ghost predicate Agrees(o: PolicyCondition, policy: nat, s: Store) {
    o.id < s.next &&
    match FirstNamed(s, policy, o.spec.name)
    case None => o.id !in s.conditions
    case Some(id) => InSync(s, id, o.spec) && (o.id == 0 || o.id == id)
  }

  ghost predicate AllAgree(os: seq<PolicyCondition>, policy: nat, s: Store) {
    forall j :: 0 <= j < |os| ==> Agrees(os[j], policy, s)
  }

  predicate SearchesSucceed(f: ConditionFaults, n: nat) { forall i :: 0 <= i < n ==> !f.search(i) }

  /** The search for a configured condition fails, or its create or update would. */
  predicate FailsAt(f: ConditionFaults, k: nat) { f.search(k) || f.mutate(k) }

  /** The name is that of one of the first conditions, and the search for it succeeds. */
  predicate Reached(cs: seq<PolicyCondition>, f: ConditionFaults, n: nat, name: string)
    requires n <= |cs|
  {
    exists k :: 0 <= k < n && cs[k].spec.name == name && !f.search(k)
  }

  ghost predicate Started(job: Job, s: Store) { Wf(s) && PolicyReachable(s, job.account, job.policyId) }

  // ----- Stores that differ only in some names of one policy -----

  /** Nothing is removed or renamed; only conditions of these names in this policy may change or appear. */
  ghost predicate Touches(s: Store, t: Store, policy: nat, names: set<string>) {
    t.policies == s.policies && t.next >= s.next &&
    (forall c :: c in s.conditions ==>
       c in t.conditions && t.conditions[c].policy == s.conditions[c].policy &&
       t.conditions[c].content.name == s.conditions[c].content.name &&
       (t.conditions[c] != s.conditions[c] ==>
          s.conditions[c].policy == policy && s.conditions[c].content.name in names)) &&
    (forall c :: c in t.conditions && c !in s.conditions ==>
       c >= s.next && t.conditions[c].policy == policy && t.conditions[c].content.name in names)
  }

  lemma TouchesCompose(s: Store, t: Store, u: Store, policy: nat, a: set<string>, b: set<string>)
    requires Touches(s, t, policy, a) && Touches(t, u, policy, b)
    ensures Touches(s, u, policy, a + b)
  {
  }

  lemma TouchesOther(s: Store, t: Store, policy: nat, names: set<string>, name: string)
    requires Touches(s, t, policy, names) && name !in names
    ensures Named(s, policy, name) == Named(t, policy, name)
    ensures FirstNamed(s, policy, name) == FirstNamed(t, policy, name)
    ensures forall c :: c in Named(s, policy, name) ==> t.conditions[c] == s.conditions[c]
  {
    NamedSame(s, t, policy, name);
  }

  lemma RealisedElsewhere(s: Store, t: Store, policy: nat, names: set<string>, spec: ConditionSpec)
    requires Touches(s, t, policy, names) && spec.name !in names
    ensures Realised(spec, policy, t) <==> Realised(spec, policy, s)
  {
    hide Denote, Touches;
    TouchesOther(s, t, policy, names, spec.name);
  }

  /** The loop takes an existing condition for up to date because the snapshot has the same spec. */
  ghost predicate Skipped(job: Job, s: Store, spec: ConditionSpec) {
    var k := FindApplied(job.observed, spec.name);
    FirstNamed(s, job.policyId, spec.name).Some? && k < |job.observed| && job.observed[k].spec == spec
  }

  // ----- One turn of the loop -----

  lemma UpdateTouches(s: Store, account: int, id: nat, spec: ConditionSpec, fails: bool)
    requires Wf(s) && ConditionReachable(s, account, id) && s.conditions[id].content.name == spec.name
    ensures var (t, ok) := UpdateConditionCall(s, account, id, Denote(spec), fails);
            Wf(t) && ok == !fails && Touches(s, t, s.conditions[id].policy, {spec.name}) &&
            Named(t, s.conditions[id].policy, spec.name) == Named(s, s.conditions[id].policy, spec.name) &&
            (ok ==> InSync(t, id, spec)) && (!ok ==> t.conditions == s.conditions)
  {
    DenoteWellFormed(spec);
    hide Denote;
  }

  lemma CreateTouches(s: Store, account: int, policy: nat, spec: ConditionSpec, fails: bool)
    requires Wf(s) && PolicyReachable(s, account, policy) && Named(s, policy, spec.name) == {}
    ensures var (t, id) := CreateConditionCall(s, account, policy, Denote(spec), fails);
            Wf(t) && id == (if fails then None else Some(s.next)) && Touches(s, t, policy, {spec.name}) &&
            Named(t, policy, spec.name) == (if fails then {} else {s.next}) &&
            (!fails ==> InSync(t, s.next, spec)) && (fails ==> t.conditions == s.conditions)
  {
    DenoteWellFormed(spec);
    hide Denote;
    var (t, id) := CreateConditionCall(s, account, policy, Denote(spec), fails);
    forall c | c in s.conditions
      ensures c != s.next && !(s.conditions[c].policy == policy && s.conditions[c].content.name == spec.name)
    {
      assert c !in Named(s, policy, spec.name);
    }
  }

  /** What one turn leaves: the condition is realised exactly if it was before, or it was not taken for up to date
      and neither its search nor its mutation failed. */
  ghost predicate Turned(job: Job, w: Work, r: Work, i: nat)
    requires i < |w.conditions| && Fits(job, w, |w.conditions|)
  {
    var c := w.conditions[i];
    var name := c.spec.name;
    var k := FindApplied(job.observed, name);
    var before, after := FirstNamed(w.store, job.policyId, name), FirstNamed(r.store, job.policyId, name);
    Fits(job, r, |w.conditions|) && Wf(r.store) && Touches(w.store, r.store, job.policyId, {name}) &&
    (before.Some? ==> Named(r.store, job.policyId, name) == Named(w.store, job.policyId, name)) &&
    (before.None? ==> Named(r.store, job.policyId, name) == if FailsAt(job.f, i) then {} else {r.conditions[i].id}) &&
    (job.f.search(i) ==> r.store.conditions == w.store.conditions) &&
    (Realised(c.spec, job.policyId, r.store) <==>
       Realised(c.spec, job.policyId, w.store) || (!FailsAt(job.f, i) && !Skipped(job, w.store, c.spec))) &&
    (var d := r.conditions[i];
     r.conditions == w.conditions[i := d] && SameUpToMetadata(c, d) &&
     (!FailsAt(job.f, i) ==> d.name == name && after == Some(d.id))) &&
    (forall j :: 0 <= j < |w.processed| && j != k ==> r.processed[j] == w.processed[j]) &&
    (k < |w.processed| ==> (r.processed[k] <==> w.processed[k] || (!job.f.search(i) && after.Some?)))
  }

  /** The spec stays, and the outer name is filled in at most. */
  predicate SameUpToMetadata(a: PolicyCondition, b: PolicyCondition) {
    b.spec == a.spec && (b.name == a.name || b.name == a.spec.name)
  }

  lemma SearchTurn(job: Job, w: Work, i: nat)
    requires i < |w.conditions| && Fits(job, w, |w.conditions|) && Started(job, w.store) && job.f.search(i)
    ensures Turned(job, w, ProcessOne(job, w, i), i)
  {
    hide Denote, Project, Touches, Wf;
    var name := w.conditions[i].spec.name;
    var s := Log(w.store, ConditionSearch(job.account, job.policyId));
    SearchTouches(w.store, job.account, job.policyId);
    TouchesMore(w.store, s, job.policyId, {}, {name});
    RealisedElsewhere(w.store, s, job.policyId, {}, w.conditions[i].spec);
    SomeNamed(w.store, job.policyId, name);
  }

  lemma SomeNamed(s: Store, policy: nat, name: string)
    ensures FirstNamed(s, policy, name).Some? <==> Named(s, policy, name) != {}
    ensures LastNamed(s, policy, name).Some? <==> Named(s, policy, name) != {}
  {
  }

  lemma CreateTurn(job: Job, w: Work, i: nat)
    requires i < |w.conditions| && Fits(job, w, |w.conditions|) && Started(job, w.store) && !job.f.search(i)
    requires FirstNamed(w.store, job.policyId, w.conditions[i].spec.name) == None
    ensures Turned(job, w, ProcessOne(job, w, i), i)
  {
    hide Denote, Project, Touches, Wf;
    var c := w.conditions[i];
    var s := Log(w.store, ConditionSearch(job.account, job.policyId));
    assert Wf(s) && Touches(w.store, s, job.policyId, {}) by { SearchTouches(w.store, job.account, job.policyId); }
    CreateTouches(s, job.account, job.policyId, c.spec, job.f.mutate(i));
    var r := ProcessOne(job, w, i);
    assert Touches(w.store, r.store, job.policyId, {c.spec.name}) by {
      TouchesCompose(w.store, s, r.store, job.policyId, {}, {c.spec.name});
      assert {} + {c.spec.name} == {c.spec.name};
    }
    if !job.f.mutate(i) {
      OnlyNamed(r.store, job.policyId, c.spec.name, s.next);
    }
  }

  lemma SearchTouches(s: Store, account: int, policy: nat)
    requires Wf(s)
    ensures var t := Log(s, ConditionSearch(account, policy));
            Wf(t) && Touches(s, t, policy, {}) && forall p, n :: Named(t, p, n) == Named(s, p, n)
  {
  }

  lemma UpdateTurn(job: Job, w: Work, i: nat)
    requires i < |w.conditions| && Fits(job, w, |w.conditions|) && Started(job, w.store) && !job.f.search(i)
    requires FirstNamed(w.store, job.policyId, w.conditions[i].spec.name).Some?
    ensures Turned(job, w, ProcessOne(job, w, i), i)
  {
    hide Denote, Project, Touches, Wf;
    var c := w.conditions[i];
    var name := c.spec.name;
    var s := Log(w.store, ConditionSearch(job.account, job.policyId));
    SearchTouches(w.store, job.account, job.policyId);
    var id := FirstNamed(s, job.policyId, name).value;
    assert id in Named(s, job.policyId, name);
    var r := ProcessOne(job, w, i);
    MatchingIsInSync(s, id, c.spec);
    TouchesMore(w.store, s, job.policyId, {}, {name});
    UpdateTouches(s, job.account, id, c.spec, job.f.mutate(i));
    if r.store != s {
      TouchesCompose(w.store, s, r.store, job.policyId, {name}, {name});
      assert {name} + {name} == {name};
    }
  }

  lemma TouchesMore(s: Store, t: Store, policy: nat, a: set<string>, b: set<string>)
    requires Touches(s, t, policy, a) && a <= b
    ensures Touches(s, t, policy, b)
  {
  }

  /** A spec that equals the projection of a remote condition asks for what is there. */
  lemma MatchingIsInSync(s: Store, id: nat, spec: ConditionSpec)
    requires Wf(s) && id in s.conditions
    ensures Project(s.conditions[id].content) == spec ==> InSync(s, id, spec)
  {
    ProjectionDenotes(s.conditions[id].content);
  }

  // ----- The whole loop -----

  /** What became of one configured condition by the end of the loop. */
  ghost predicate Settled(job: Job, w0: Work, w: Work, k: nat)
    requires k < |w0.conditions| == |w.conditions|
  {
    var c := w0.conditions[k];
    var before := FirstNamed(w0.store, job.policyId, c.spec.name);
    var after := FirstNamed(w.store, job.policyId, c.spec.name);
    (before.Some? ==>
       Named(w.store, job.policyId, c.spec.name) == Named(w0.store, job.policyId, c.spec.name)) &&
    (before.None? ==>
       Named(w.store, job.policyId, c.spec.name) == if FailsAt(job.f, k) then {} else {w.conditions[k].id}) &&
    (job.f.search(k) ==>
       forall x :: x in Named(w0.store, job.policyId, c.spec.name) ==>
         x in w.store.conditions && w.store.conditions[x] == w0.store.conditions[x]) &&
    (Realised(c.spec, job.policyId, w.store) <==>
       Realised(c.spec, job.policyId, w0.store) || (!FailsAt(job.f, k) && !Skipped(job, w0.store, c.spec))) &&
    (!FailsAt(job.f, k) ==> w.conditions[k].name == c.spec.name && after == Some(w.conditions[k].id))
  }

  ghost predicate Wanted(job: Job, w0: Work, w: Work, i: nat, j: nat)
    requires i <= |w0.conditions| && j < |job.observed|
  {
    Reached(w0.conditions, job.f, i, job.observed[j].spec.name) &&
    FirstNamed(w.store, job.policyId, job.observed[j].spec.name).Some?
  }

  ghost predicate Progress(job: Job, w0: Work, w: Work, i: nat)
    requires i <= |w0.conditions|
  {
    Fits(job, w, |w0.conditions|) && Wf(w.store) &&
    Touches(w0.store, w.store, job.policyId, Names(w0.conditions, i)) &&
    (forall k :: 0 <= k < |w0.conditions| ==> SameUpToMetadata(w0.conditions[k], w.conditions[k])) &&
    (forall k :: i <= k < |w0.conditions| ==> w.conditions[k] == w0.conditions[k]) &&
    (forall k :: 0 <= k < i ==> Settled(job, w0, w, k)) &&
    (forall j :: 0 <= j < |job.observed| ==> (w.processed[j] <==> Wanted(job, w0, w, i, j)))
  }

  /** The start of handleConditions, with nothing processed. */
  ghost predicate Initial(job: Job, w0: Work) {
    Fits(job, w0, |w0.conditions|) && Started(job, w0.store) &&
    Proper(w0.conditions) && Proper(job.observed) &&
    forall j :: 0 <= j < |w0.processed| ==> !w0.processed[j]
  }

  lemma FindAppliedProper(os: seq<PolicyCondition>, name: string, j: nat)
    requires Proper(os) && j < |os|
    ensures FindApplied(os, name) == j <==> os[j].spec.name == name
  {
  }

  lemma NamesStep(cs: seq<PolicyCondition>, i: nat)
    requires i < |cs|
    ensures Names(cs, i + 1) == Names(cs, i) + {cs[i].spec.name}
    ensures Proper(cs) ==> cs[i].spec.name !in Names(cs, i)
  {
  }

  lemma ReachedStep(cs: seq<PolicyCondition>, f: ConditionFaults, n: nat, name: string)
    requires n < |cs|
    ensures Reached(cs, f, n + 1, name) <==> Reached(cs, f, n, name) || (cs[n].spec.name == name && !f.search(n))
    ensures Proper(cs) && cs[n].spec.name == name ==> !Reached(cs, f, n, name)
  {
  }

  lemma ReachedName(cs: seq<PolicyCondition>, f: ConditionFaults, name: string)
    ensures Reached(cs, f, |cs|, name) ==> name in Names(cs, |cs|)
    ensures SearchesSucceed(f, |cs|) ==> (Reached(cs, f, |cs|, name) <==> name in Names(cs, |cs|))
  {
  }

  lemma SettledStays(job: Job, w0: Work, w: Work, r: Work, k: nat, name: string)
    requires k < |w0.conditions| == |w.conditions| == |r.conditions|
    requires Settled(job, w0, w, k) && r.conditions[k] == w.conditions[k]
    requires Touches(w.store, r.store, job.policyId, {name}) && w0.conditions[k].spec.name != name
    ensures Settled(job, w0, r, k)
  {
    hide Realised, Touches;
    TouchesOther(w.store, r.store, job.policyId, {name}, w0.conditions[k].spec.name);
    RealisedElsewhere(w.store, r.store, job.policyId, {name}, w0.conditions[k].spec);
  }

  lemma TurnKeepsProgress(job: Job, w0: Work, w: Work, i: nat)
    requires Initial(job, w0) && i < |w0.conditions| && Progress(job, w0, w, i)
    ensures Progress(job, w0, ProcessOne(job, w, i), i + 1)
  {
    hide Denote, Touches, Wf, IdOk, Realised, Proper, ProcessOne;
    var name := w.conditions[i].spec.name;
    var r := ProcessOne(job, w, i);
    var names := Names(w0.conditions, i);
    NamesStep(w0.conditions, i);
    assert Turned(job, w, r, i) by { TurnIsPossible(job, w0, w, i); }
    TouchesCompose(w0.store, w.store, r.store, job.policyId, names, {name});
    forall k | 0 <= k < i
      ensures Settled(job, w0, r, k)
    {
      assert w0.conditions[k].spec.name in names;
      SettledStays(job, w0, w, r, k, name);
    }
    TouchesOther(w0.store, w.store, job.policyId, names, name);
    RealisedElsewhere(w0.store, w.store, job.policyId, names, w0.conditions[i].spec);
    forall j | 0 <= j < |job.observed|
      ensures r.processed[j] <==> Wanted(job, w0, r, i + 1, j)
    {
      FindAppliedProper(job.observed, name, j);
      ReachedStep(w0.conditions, job.f, i, job.observed[j].spec.name);
      if job.observed[j].spec.name != name {
        TouchesOther(w.store, r.store, job.policyId, {name}, job.observed[j].spec.name);
      }
    }
  }

  lemma TurnIsPossible(job: Job, w0: Work, w: Work, i: nat)
    requires Initial(job, w0) && i < |w0.conditions| && Progress(job, w0, w, i)
    ensures Turned(job, w, ProcessOne(job, w, i), i)
  {
    hide Denote, Wf, Realised, ProcessOne, Turned;
    var name := w.conditions[i].spec.name;
    if job.f.search(i) {
      SearchTurn(job, w, i);
    } else if FirstNamed(w.store, job.policyId, name).None? {
      CreateTurn(job, w, i);
    } else {
      UpdateTurn(job, w, i);
    }
  }

  lemma {:induction false} LoopProgress(job: Job, w0: Work, i: nat)
    requires Initial(job, w0) && i <= |w0.conditions|
    ensures Progress(job, w0, ProcessUpTo(job, w0, i), i)
  {
    hide Denote, IdOk, Realised, ProcessOne, Proper;
    if i == 0 {
      assert Names(w0.conditions, 0) == {};
    } else {
      LoopProgress(job, w0, i - 1);
      TurnKeepsProgress(job, w0, ProcessUpTo(job, w0, i - 1), i - 1);
    }
  }

  // ----- Deleting what was not processed -----

  /** Only targets of unprocessed entries are removed, and all of those whose call works. */
  ghost predicate Trimmed(job: Job, listing: Store, w: Work, r: Work, n: nat)
    requires n <= |job.observed| == |w.processed|
  {
    r.store.policies == w.store.policies && r.store.next == w.store.next &&
    r.store.conditions.Keys <= w.store.conditions.Keys &&
    (forall c :: c in r.store.conditions ==> r.store.conditions[c] == w.store.conditions[c]) &&
    (forall c :: c in w.store.conditions && c !in r.store.conditions ==>
       exists j :: 0 <= j < n && !w.processed[j] && c == DeleteTarget(job, listing, j)) &&
    (forall j :: 0 <= j < n && !w.processed[j] && !job.f.delete(j) ==>
       DeleteTarget(job, listing, j) !in r.store.conditions ||
       !ConditionReachable(w.store, job.account, DeleteTarget(job, listing, j)))
  }

  lemma {:induction false} DeleteTrims(job: Job, listing: Store, w: Work, n: nat)
    requires n <= |job.observed| == |w.processed|
    ensures Trimmed(job, listing, w, DeleteUpTo(job, listing, w, n), n)
  {
    hide DeleteTarget;
    if n > 0 {
      DeleteTrims(job, listing, w, n - 1);
      var r := DeleteUpTo(job, listing, w, n - 1);
      var t := DeleteTarget(job, listing, n - 1);
      forall c | c in w.store.conditions && c !in DeleteUpTo(job, listing, w, n).store.conditions
        ensures exists j :: 0 <= j < n && !w.processed[j] && c == DeleteTarget(job, listing, j)
      {
        if c in r.store.conditions {
          assert !w.processed[n - 1] && c == DeleteTarget(job, listing, n - 1);
        }
      }
    }
  }

  /** What the delete loop may remove is a condition of this policy whose name is applied and not reached: no longer
      configured, or configured with a search that failed. */
  lemma TargetIsStale(job: Job, w0: Work, w: Work, listing: Store, j: nat)
    requires Initial(job, w0) && Progress(job, w0, w, |w0.conditions|)
    requires AllIdsOk(job.observed, job.policyId, w0.store)
    requires listing == Log(w.store, ConditionSearch(job.account, job.policyId))
    requires j < |job.observed| && !w.processed[j]
    requires DeleteTarget(job, listing, j) in w.store.conditions
    ensures var rc := w.store.conditions[DeleteTarget(job, listing, j)];
            rc.policy == job.policyId && rc.content.name == job.observed[j].spec.name &&
            !Reached(w0.conditions, job.f, |w0.conditions|, rc.content.name)
  {
    hide Denote, Settled;
    var o := job.observed[j];
    var t := DeleteTarget(job, listing, j);
    var name := o.spec.name;
    if o.id != 0 {
      assert IdOk(o, job.policyId, w0.store);
      assert t in Named(w0.store, job.policyId, name);
      assert t in Named(w.store, job.policyId, name);
    } else {
      assert Identity(o) == name;
      assert t in Named(listing, job.policyId, name);
      assert t in Named(w.store, job.policyId, name);
    }
    assert FirstNamed(w.store, job.policyId, name).Some?;
  }

  function ObservedNames(job: Job): set<string> { Names(job.observed, |job.observed|) }

  predicate DeletesSucceed(f: ConditionFaults, n: nat) { !f.list && forall j :: 0 <= j < n ==> !f.delete(j) }

  /** The store after the delete phase: only conditions with applied names that were not reached are gone, and nothing
      else changed. */
  ghost predicate Cleaned(job: Job, w0: Work, s: Store, t: Store) {
    Wf(t) && t.policies == s.policies && t.next == s.next &&
    (forall c :: c in t.conditions ==> c in s.conditions && t.conditions[c] == s.conditions[c]) &&
    (forall c :: c in s.conditions && c !in t.conditions ==>
       s.conditions[c].policy == job.policyId && s.conditions[c].content.name in ObservedNames(job) &&
       !Reached(w0.conditions, job.f, |w0.conditions|, s.conditions[c].content.name))
  }

  lemma DeletePhaseCleans(job: Job, w0: Work, w: Work)
    requires Initial(job, w0) && Progress(job, w0, w, |w0.conditions|)
    requires AllIdsOk(job.observed, job.policyId, w0.store)
    ensures Cleaned(job, w0, w.store, DeletePhase(job, w).store)
  {
    hide Denote, Progress, Initial, DeleteTarget, DeleteUpTo, WellFormed;
    assert Fits(job, w, |w0.conditions|) && Wf(w.store) by { ProgressFits(job, w0, w); }
    if job.observed != [] && !job.f.list {
      var v := w.(store := Log(w.store, ConditionSearch(job.account, job.policyId)));
      var r := DeletePhase(job, w);
      DeleteTrims(job, v.store, v, |job.observed|);
      forall c | c in w.store.conditions && c !in r.store.conditions
        ensures w.store.conditions[c].policy == job.policyId
        ensures w.store.conditions[c].content.name in ObservedNames(job)
        ensures !Reached(w0.conditions, job.f, |w0.conditions|, w.store.conditions[c].content.name)
      {
        var j :| 0 <= j < |job.observed| && !v.processed[j] && c == DeleteTarget(job, v.store, j);
        TargetIsStale(job, w0, w, v.store, j);
      }
    }
  }

  lemma ProgressFits(job: Job, w0: Work, w: Work)
    requires Initial(job, w0) && Progress(job, w0, w, |w0.conditions|)
    ensures Fits(job, w, |w0.conditions|) && Wf(w.store) && PolicyReachable(w.store, job.account, job.policyId)
  {
  }

  lemma CleanedConfigured(job: Job, w0: Work, s: Store, t: Store, spec: ConditionSpec)
    requires Cleaned(job, w0, s, t) && Reached(w0.conditions, job.f, |w0.conditions|, spec.name)
    ensures FirstNamed(t, job.policyId, spec.name) == FirstNamed(s, job.policyId, spec.name)
    ensures Named(t, job.policyId, spec.name) == Named(s, job.policyId, spec.name)
    ensures Realised(spec, job.policyId, t) <==> Realised(spec, job.policyId, s)
  {
    hide Denote;
    NamedSame(s, t, job.policyId, spec.name);
  }

  // ----- handleConditions as a whole -----

  /** handleConditions may start: the policy exists and names are proper. */
  ghost predicate CanStart(p: Policy, s: Store, f: ConditionFaults) {
    Initial(JobOf(p, f), WorkOf(p, s))
  }

  /** Besides, recorded IDs are not those of other conditions. */
  ghost predicate CanHandle(p: Policy, s: Store, f: ConditionFaults) {
    CanStart(p, s, f) && AllIdsOk(ObservedConditions(p), p.status.policyId, s)
  }

  ghost function AfterLoop(p: Policy, s: Store, f: ConditionFaults): Work {
    ProcessUpTo(JobOf(p, f), WorkOf(p, s), |p.spec.conditions|)
  }

  lemma HandleStages(p: Policy, s: Store, f: ConditionFaults)
    requires CanHandle(p, s, f)
    ensures var job, w0, w := JobOf(p, f), WorkOf(p, s), AfterLoop(p, s, f);
            Progress(job, w0, w, |p.spec.conditions|) && Cleaned(job, w0, w.store, HandleConditions(p, s, f).store)
    ensures var r := HandleConditions(p, s, f).policy;
            r.spec == p.spec.(conditions := AfterLoop(p, s, f).conditions) &&
            r.status == p.status.(applied := Some(r.spec))
  {
    hide Progress, Initial, Cleaned, ProcessUpTo, DeletePhase;
    LoopProgress(JobOf(p, f), WorkOf(p, s), |p.spec.conditions|);
    DeletePhaseCleans(JobOf(p, f), WorkOf(p, s), AfterLoop(p, s, f));
  }

  lemma ReachedAt(p: Policy, s: Store, f: ConditionFaults, k: nat)
    requires k < |p.spec.conditions| && !f.search(k)
    ensures Reached(WorkOf(p, s).conditions, f, |WorkOf(p, s).conditions|, p.spec.conditions[k].spec.name)
  {
  }

  /** Whatever other calls fail: a configured condition whose own search succeeds is realised afterwards exactly if it
      was before, or its own create or update did not fail and the loop did not take it for up to date. */
  lemma HandleConditionsExact(p: Policy, s: Store, f: ConditionFaults, k: nat)
    requires CanHandle(p, s, f) && k < |p.spec.conditions| && !f.search(k)
    ensures var spec := p.spec.conditions[k].spec;
            Realised(spec, p.status.policyId, HandleConditions(p, s, f).store) <==>
            Realised(spec, p.status.policyId, s) || (!f.mutate(k) && !Skipped(JobOf(p, f), s, spec))
  {
    hide Realised, Initial, Cleaned, HandleConditions, ProcessUpTo, Touches, Wf, Skipped;
    HandleStages(p, s, f);
    ReachedAt(p, s, f, k);
    CleanedConfigured(JobOf(p, f), WorkOf(p, s), AfterLoop(p, s, f).store, HandleConditions(p, s, f).store,
                      p.spec.conditions[k].spec);
    assert Settled(JobOf(p, f), WorkOf(p, s), AfterLoop(p, s, f), k);
  }

  /** An agreeing snapshot never makes the loop skip a condition that is not realised. */
  lemma AgreeingSkipIsRealised(job: Job, s: Store, spec: ConditionSpec)
    requires AllAgree(job.observed, job.policyId, s) && Proper(job.observed) && Skipped(job, s, spec)
    ensures Realised(spec, job.policyId, s)
  {
    hide Denote;
    var k := FindApplied(job.observed, spec.name);
    assert Agrees(job.observed[k], job.policyId, s);
  }

  /** No live remote condition whose name is still configured is ever deleted if the search for that name succeeds,
      whatever else fails. */
  lemma HandleConditionsDeleteSafe(p: Policy, s: Store, f: ConditionFaults, c: nat)
    requires CanHandle(p, s, f) && c in s.conditions && s.conditions[c].policy == p.status.policyId
    requires Reached(p.spec.conditions, f, |p.spec.conditions|, s.conditions[c].content.name)
    ensures c in HandleConditions(p, s, f).store.conditions
  {
    hide Realised, Initial, HandleConditions, ProcessUpTo, Settled, Reached;
    HandleStages(p, s, f);
  }

  /** Neither configured nor applied: such a condition, and every condition of another policy, is left as it was.
      Whatever is new belongs to this policy and bears a configured name. */
  lemma HandleConditionsFrame(p: Policy, s: Store, f: ConditionFaults, c: nat)
    requires CanHandle(p, s, f)
    ensures var t := HandleConditions(p, s, f).store;
            t.policies == s.policies && t.next >= s.next && Wf(t) &&
            (c in s.conditions &&
             (s.conditions[c].policy != p.status.policyId ||
              (s.conditions[c].content.name !in Names(p.spec.conditions, |p.spec.conditions|) &&
               s.conditions[c].content.name !in ObservedNames(JobOf(p, f)))) ==>
               c in t.conditions && t.conditions[c] == s.conditions[c]) &&
            (c in t.conditions && c !in s.conditions ==>
               t.conditions[c].policy == p.status.policyId &&
               t.conditions[c].content.name in Names(p.spec.conditions, |p.spec.conditions|))
  {
    hide Realised, Initial, HandleConditions, ProcessUpTo, Settled, Names;
    HandleStages(p, s, f);
  }

  /** The applied entry is the first remote condition of its name, by its ID, with its spec. */
  ghost predicate Held(o: PolicyCondition, policy: nat, s: Store) {
    FirstNamed(s, policy, o.spec.name) == Some(o.id) && InSync(s, o.id, o.spec)
  }

  predicate MutationsSucceed(f: ConditionFaults, n: nat) { forall k :: 0 <= k < n ==> !f.mutate(k) }

  lemma TurnKeepsSpecs(job: Job, w: Work, i: nat)
    requires i < |w.conditions| && |w.processed| == |job.observed|
    ensures var d := ProcessOne(job, w, i).conditions;
            |d| == |w.conditions| && d == w.conditions[i := d[i]] && SameUpToMetadata(w.conditions[i], d[i])
  {
    hide Denote, Project, FirstListed, CreateConditionCall, UpdateConditionCall, FindApplied;
  }

  lemma {:induction false} LoopKeepsSpecs(job: Job, w: Work, i: nat)
    requires i <= |w.conditions| && |w.processed| == |job.observed|
    ensures var d := ProcessUpTo(job, w, i).conditions;
            |d| == |w.conditions| && (forall k :: 0 <= k < |d| ==> SameUpToMetadata(w.conditions[k], d[k])) &&
            forall k :: i <= k < |d| ==> d[k] == w.conditions[k]
  {
    hide ProcessOne;
    if i > 0 {
      LoopKeepsSpecs(job, w, i - 1);
      TurnKeepsSpecs(job, ProcessUpTo(job, w, i - 1), i - 1);
    }
  }

  /** The new snapshot is the spec with every condition spec as configured, and keeps proper names, whatever failed. */
  lemma HandleConditionsSnapshot(p: Policy, s: Store, f: ConditionFaults)
    ensures var r := HandleConditions(p, s, f).policy;
            r.spec == p.spec.(conditions := r.spec.conditions) && r.status == p.status.(applied := Some(r.spec)) &&
            SameSpecs(p.spec.conditions, r.spec.conditions) && SameSpecs(r.spec.conditions, p.spec.conditions) &&
            (Proper(p.spec.conditions) ==> Proper(r.spec.conditions))
  {
    hide ProcessUpTo, DeletePhase;
    LoopKeepsSpecs(JobOf(p, f), WorkOf(p, s), |p.spec.conditions|);
  }

  lemma InitialProper(p: Policy, s: Store, f: ConditionFaults)
    requires CanHandle(p, s, f)
    ensures Proper(p.spec.conditions) && Proper(ObservedConditions(p))
  {
  }

  /** An entry of the snapshot none of whose calls failed is true of the store exactly if its spec is realised. */
  lemma SnapshotEntryHeldIff(p: Policy, s: Store, f: ConditionFaults, k: nat)
    requires CanHandle(p, s, f) && k < |p.spec.conditions| && !FailsAt(f, k)
    ensures var r := HandleConditions(p, s, f);
            k < |r.policy.spec.conditions| &&
            (Held(r.policy.spec.conditions[k], p.status.policyId, r.store) <==>
             Realised(p.spec.conditions[k].spec, p.status.policyId, r.store))
  {
    hide Initial, HandleConditions, ProcessUpTo, Cleaned, Touches, Wf, Denote;
    HandleStages(p, s, f);
    ReachedAt(p, s, f, k);
    CleanedConfigured(JobOf(p, f), WorkOf(p, s), AfterLoop(p, s, f).store, HandleConditions(p, s, f).store,
                      p.spec.conditions[k].spec);
    assert Settled(JobOf(p, f), WorkOf(p, s), AfterLoop(p, s, f), k);
  }

  /** With an agreeing snapshot, every entry of the new one none of whose calls failed is true of the store. */
  lemma HandleConditionsHolds(p: Policy, s: Store, f: ConditionFaults, k: nat)
    requires CanHandle(p, s, f) && AllAgree(ObservedConditions(p), p.status.policyId, s)
    requires k < |p.spec.conditions| && !FailsAt(f, k)
    ensures var r := HandleConditions(p, s, f);
            k < |r.policy.spec.conditions| && Held(r.policy.spec.conditions[k], p.status.policyId, r.store)
  {
    hide HandleConditions, Initial, Realised, Held, Skipped, Agrees;
    var spec := p.spec.conditions[k].spec;
    HandleConditionsExact(p, s, f, k);
    SnapshotEntryHeldIff(p, s, f, k);
    InitialProper(p, s, f);
    if Skipped(JobOf(p, f), s, spec) {
      AgreeingSkipIsRealised(JobOf(p, f), s, spec);
    }
  }
}

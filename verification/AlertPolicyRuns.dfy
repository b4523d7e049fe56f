/** Whole runs of one AlertPolicy: user edits at any moment, reconciles that any policy-level call may fail, changes
    made outside, and a status that is written over the spec as it is by then. */
module AlertPolicyRuns {
  import opened Options
  import opened NrqlConditions
  import opened AlertStore
  import opened AlertPolicies
  import opened AlertPolicyConditions
  import opened AlertPolicyDeletes
  import opened AlertPolicyRecords
  import opened AlertPolicySync
  import opened AlertPolicyIdentity
  import opened AlertPolicyQuiescence
  import opened AlertPolicyCalls
  import opened AlertPolicyWebhook

  /** The stored object, the object a running reconcile has read, and New Relic. */
  datatype Cluster = Cluster(spec: PolicySpec, status: Status, reading: Option<Policy>, store: Store)

  datatype Step =
    | Edit(submission: Submission)
    | Begin
    | Finish(faults: Faults)
    | Lose(faults: Faults)
    | Outside(store: Store)

  predicate Enabled(c: Cluster, step: Step) {
    match step
    case Edit(_) => true
    case Begin => c.reading.None?
    case Finish(_) => c.reading.Some?
    case Lose(_) => c.reading.Some?
    case Outside(_) => true
  }

  /** A rejected edit changes nothing. A reconcile works on what it read; the status it computed is written to the
      object as it is by then, so an edit in between is kept. A status that is never written is lost, but what was done
      in New Relic stays. */
  ghost function Next(c: Cluster, step: Step): Cluster
    requires Enabled(c, step)
  {
    match step
    case Edit(u) =>
      var s := Defaulted(u.spec, u.operatorDefault);
      if UpdateAcceptable(c.spec, s) then c.(spec := s) else c
    case Begin => c.(reading := Some(Policy(c.spec, c.status)))
    case Finish(f) =>
      var (status, store) := ReconcileStatus(c.reading.value, c.store, f);
      Cluster(c.spec, status, None, store)
    case Lose(f) => c.(reading := None, store := ReconcileStatus(c.reading.value, c.store, f).1)
    case Outside(store) => c.(store := store)
  }

  /** A new object. */
  predicate Initial(c: Cluster) {
    PolicyAcceptable(c.spec) && c.status == Status(0, None, Unset) && c.reading.None?
  }

  ghost predicate Possible(c: Cluster, steps: seq<Step>)
    decreases |steps|
  {
    steps == [] || (Enabled(c, steps[0]) && Possible(Next(c, steps[0]), steps[1..]))
  }

  ghost function Run(c: Cluster, steps: seq<Step>): Cluster
    requires Possible(c, steps)
    decreases |steps|
  {
    if steps == [] then c else Run(Next(c, steps[0]), steps[1..])
  }

  // ----- The account -----

  ghost predicate InAccount(c: Cluster, account: int) {
    PolicyAcceptable(c.spec) && c.spec.accountId == account && StatusInAccount(c.status, account) &&
    (c.reading.Some? ==> c.reading.value.spec.accountId == account && StatusInAccount(c.reading.value.status, account))
  }

  predicate StatusInAccount(st: Status, account: int) {
    (st.policyId != 0 ==> st.applied.Some? && st.applied.value.accountId == account) && st.ready != AccountIDChanged
  }

  lemma IfNeededAccount(p: Policy, s: Store, compareFails: bool, f: ConditionFaults)
    requires StatusInAccount(p.status, p.spec.accountId)
    ensures var r := ReconcileConditionsIfNeeded(p, s, compareFails, f).policy;
            StatusInAccount(r.status, p.spec.accountId)
  {
    hide ProcessUpTo, DeletePhase, AllRemoteConditionsMatch, HaveConditionsChanged;
  }

  lemma UpdateAccount(p: Policy, s: Store, f: Faults)
    requires StatusInAccount(p.status, p.spec.accountId)
    ensures StatusInAccount(UpdatePolicy(p, s, f).policy.status, p.spec.accountId)
  {
    hide ReconcileConditionsIfNeeded;
    var preference := PreferenceSent(p.spec.preference);
    var (t, ok) := UpdatePolicyCall(s, p.spec.accountId, p.status.policyId, p.spec.name, preference, f.updateFails);
    IfNeededAccount(p.(status := p.status.(applied := Some(BuildApplied(p, p.spec.name, preference)))), t,
                    f.compareFails, f.conditions);
  }

  lemma ExistingAccount(p: Policy, s: Store, id: nat, remote: RemotePolicy, f: Faults)
    requires StatusInAccount(p.status, p.spec.accountId)
    ensures StatusInAccount(SyncExisting(p, s, id, remote, f).policy.status, p.spec.accountId)
  {
    hide ReconcileConditionsIfNeeded, UpdatePolicy;
    var q := p.(status := p.status.(policyId := id, applied := Some(BuildApplied(p, remote.name, remote.preference))));
    UpdateAccount(q, s, f);
    IfNeededAccount(q, s, f.compareFails, f.conditions);
  }

  /** Reconciling in the recorded account keeps it recorded, and never reports that it changed. */
  lemma ReconcileStaysInAccount(p: Policy, s: Store, f: Faults)
    requires StatusInAccount(p.status, p.spec.accountId)
    ensures !AccountChanged(p) && StatusInAccount(ReconcileStatus(p, s, f).0, p.spec.accountId)
  {
    hide SyncExisting, CreatePolicyConditions, MatchesApplied;
    var query := Log(s, PolicyQuery(p.spec.accountId, p.status.policyId));
    if p.status.policyId in s.policies {
      ExistingAccount(p, query, p.status.policyId, s.policies[p.status.policyId], f);
    }
    var search := Log(s, PolicySearch(p.spec.accountId));
    var matches := NameMatches(s, p.spec.accountId, p.spec.name);
    if matches != {} {
      ExistingAccount(p, search, Least(matches), s.policies[Least(matches)], f);
    }
  }

  lemma StepStaysInAccount(c: Cluster, step: Step, account: int)
    requires InAccount(c, account) && Enabled(c, step)
    ensures InAccount(Next(c, step), account)
  {
    hide ReconcileStatus, PolicyAcceptable;
    if step.Finish? {
      ReconcileStaysInAccount(c.reading.value, c.store, step.faults);
    } else if step.Edit? {
      var s := Defaulted(step.submission.spec, step.submission.operatorDefault);
      if UpdateAcceptable(c.spec, s) {
        AcceptablePositive(c.spec);
      }
    }
  }

  lemma AcceptablePositive(s: PolicySpec)
    requires PolicyAcceptable(s)
    ensures s.accountId > 0
  {
  }

  lemma {:induction false} RunStaysInAccount(c: Cluster, steps: seq<Step>, account: int)
    requires InAccount(c, account) && Possible(c, steps)
    ensures InAccount(Run(c, steps), account)
    decreases |steps|
  {
    hide InAccount, Next;
    if steps != [] {
      StepStaysInAccount(c, steps[0], account);
      RunStaysInAccount(Next(c, steps[0]), steps[1..], account);
    }
  }

  /** Whatever fails, is edited or is done outside: the account of the spec is the one it was created with, and no
      reconcile is ever blocked because it changed. */
  lemma AccountIDChangedUnreachable(c: Cluster, steps: seq<Step>)
    requires Initial(c) && Possible(c, steps)
    ensures var d := Run(c, steps);
            d.spec.accountId == c.spec.accountId && !AccountChanged(Policy(d.spec, d.status)) &&
            d.status.ready != AccountIDChanged
  {
    RunStaysInAccount(c, steps, c.spec.accountId);
  }

  // ----- Edits are seen -----

  /** What one edit and the reconcile after it leave. */
  ghost function EditedAndReconciled(d: Cluster, u: Submission, f: Faults): Cluster
    requires d.reading.None?
  {
    Next(Next(Next(d, Edit(u)), Begin), Finish(f))
  }

  /** After any run, an object in sync is edited and reconciled: New Relic is called exactly if the edit was admitted
      and changed anything but the IDs and outer names of conditions, and the first call looks the policy up. */
  lemma EditIsSeenIff(c: Cluster, steps: seq<Step>, u: Submission, f: Faults)
    requires Initial(c) && Possible(c, steps) && Run(c, steps).reading.None?
    requires Settles(Run(c, steps).spec, Run(c, steps).status)
    ensures var d := Run(c, steps);
            var edited, t := Next(d, Edit(u)).spec, EditedAndReconciled(d, u, f).store;
            if SameButMetadata(d.spec, edited) then t == d.store
            else |t.calls| > |d.store.calls| &&
                 t.calls[|d.store.calls|] == PolicyQuery(d.spec.accountId, d.status.policyId)
  {
    hide Sync, Settles, PolicyCalls, PolicyAcceptable;
    var d := Run(c, steps);
    RunStaysInAccount(c, steps, c.spec.accountId);
    StepStaysInAccount(d, Edit(u), c.spec.accountId);
    var p := Policy(Next(d, Edit(u)).spec, d.status);
    SettlesOneSpec(d.spec, p.spec, d.status);
    SettlesIff(d.spec, d.status);
    assert Settles(p.spec, d.status) <==> MatchesApplied(p) by { SettlesMeansMatches(p); }
    SyncCallsExact(p, d.store, f);
    LookupFirst(p, d.store, f);
  }

  lemma SettlesMeansMatches(p: Policy)
    ensures Settles(p.spec, p.status) <==> MatchesApplied(p)
  {
  }

  lemma LookupFirst(p: Policy, s: Store, f: Faults)
    requires StatusInAccount(p.status, p.spec.accountId)
    ensures |PolicyCalls(p, s, f)| > 0 && PolicyCalls(p, s, f)[0] == Lookup(p)
  {
  }

  // ----- Where the policy is -----

  /** What others cannot do: IDs are not reused, and policies and conditions do not move. */
  ghost predicate Lawful(s: Store, t: Store) {
    Wf(t) && t.next >= s.next &&
    (forall p :: p in t.policies && p < s.next ==>
       p in s.policies && t.policies[p].account == s.policies[p].account) &&
    forall c :: c in t.conditions && c < s.next ==>
                  c in s.conditions && t.conditions[c].policy == s.conditions[c].policy
  }

  ghost predicate AllLawful(c: Cluster, steps: seq<Step>)
    requires Possible(c, steps)
    decreases |steps|
  {
    steps != [] ==>
      (steps[0].Outside? ==> Lawful(c.store, steps[0].store)) && AllLawful(Next(c, steps[0]), steps[1..])
  }

  ghost predicate Placed(c: Cluster) {
    Wf(c.store) && Located(c.status, c.store) && InAccount(c, c.spec.accountId) &&
    (c.reading.Some? ==> c.reading.value.status == c.status)
  }

  lemma LawfulKeepsLocated(st: Status, s: Store, t: Store)
    requires Located(st, s) && Lawful(s, t)
    ensures Located(st, t) && Wf(t)
  {
    hide WellFormed;
  }

  lemma AccountPositive(c: Cluster, account: int)
    requires InAccount(c, account)
    ensures account > 0 && (c.reading.Some? ==> c.reading.value.spec.accountId == account)
    ensures c.spec.accountId == account
  {
  }

  /** A status that could not be replaced still locates its policy, and the IDs it records stay in order. */
  lemma LostKeepsRecords(c: Cluster, f: Faults)
    requires Placed(c) && c.reading.Some?
    ensures var t := ReconcileStatus(c.reading.value, c.store, f).1;
            Wf(t) && Located(c.status, t) && (Recorded(c.status, c.store) ==> Recorded(c.status, t))
  {
    hide Sync, MatchesApplied, Later, Proper, WellFormed, AllIdsOk;
    var p, s := c.reading.value, c.store;
    var (st, t) := ReconcileStatus(p, s, f);
    AccountPositive(c, c.spec.accountId);
    ReconcileKeepsRecords(p, s, f);
    ReconcileStaysInAccount(p, s, f);
    SyncIsConfined(p, s, f);
    if c.status.applied.Some? && AllIdsOk(c.status.applied.value.conditions, c.status.policyId, s) {
      AllIdsOkStay(c.status.applied.value.conditions, c.status.policyId, s, t);
    }
    assert t.next >= s.next by { LaterNext(s, t); }
  }

  lemma LaterNext(s: Store, t: Store)
    requires Later(s, t)
    ensures t.next >= s.next
  {
  }

  lemma StepKeepsPlaced(c: Cluster, step: Step)
    requires Placed(c) && Enabled(c, step) && (step.Outside? ==> Lawful(c.store, step.store))
    ensures Placed(Next(c, step)) && Next(c, step).spec.accountId == c.spec.accountId
  {
    hide Wf, Located, ReconcileStatus, InAccount, Lawful;
    StepStaysInAccount(c, step, c.spec.accountId);
    AccountPositive(c, c.spec.accountId);
    AccountPositive(Next(c, step), c.spec.accountId);
    match step
    case Edit(_) =>
    case Begin =>
    case Finish(f) => ReconcileKeepsRecords(c.reading.value, c.store, f);
    case Lose(f) => LostKeepsRecords(c, f);
    case Outside(t) => LawfulKeepsLocated(c.status, c.store, t);
  }

  lemma {:induction false} RunKeepsPlaced(c: Cluster, steps: seq<Step>)
    requires Placed(c) && Possible(c, steps) && AllLawful(c, steps)
    ensures Placed(Run(c, steps))
    decreases |steps|
  {
    hide Placed, Next, Lawful;
    if steps != [] {
      StepKeepsPlaced(c, steps[0]);
      RunKeepsPlaced(Next(c, steps[0]), steps[1..]);
    }
  }

  lemma InitialIsPlaced(c: Cluster)
    requires Initial(c) && Wf(c.store)
    ensures Placed(c)
  {
    hide WellFormed;
  }

  /** Whatever calls failed, whatever was edited, adopted or changed outside: once the finalizer of the object may go,
      the recorded policy is in no account any more, and neither is any of its conditions. */
  lemma ReleasedOverRuns(c: Cluster, steps: seq<Step>, d: DeleteFault, q: QueryFault)
    requires Initial(c) && Wf(c.store) && Possible(c, steps) && AllLawful(c, steps)
    ensures var e := Run(c, steps);
            var (released, t) := DeletePolicy(Policy(e.spec, e.status), e.store, d, q);
            released ==> e.status.policyId !in t.policies &&
                         forall x :: x in t.conditions ==> t.conditions[x].policy != e.status.policyId
  {
    hide Placed, Next, WellFormed, Lawful;
    InitialIsPlaced(c);
    RunKeepsPlaced(c, steps);
    var e := Run(c, steps);
    PlacedMeans(e);
    ReleasedMeansGone(Policy(e.spec, e.status), e.store, d, q);
  }

  lemma PlacedMeans(c: Cluster)
    requires Placed(c)
    ensures Wf(c.store) && Located(c.status, c.store)
    ensures c.status.policyId != 0 ==> c.status.applied.Some? && c.status.applied.value.accountId > 0
  {
  }

  // ----- Recorded IDs -----

  /** No condition with a recorded ID is renamed outside. */
  ghost predicate KeepsNames(st: Status, s: Store, t: Store) {
    st.applied.Some? ==>
      forall j :: 0 <= j < |st.applied.value.conditions| ==>
        var id := st.applied.value.conditions[j].id;
        id in s.conditions && id in t.conditions ==> t.conditions[id].content.name == s.conditions[id].content.name
  }

  /** Names are proper, and wherever a condition call may fail the user has written no ID, or one that is in order.
      Which calls fail, and what is adopted, is free. */
  ghost predicate Orderly(c: Cluster, step: Step) {
    match step
    case Edit(u) => Proper(u.spec.conditions)
    case Begin => true
    case Finish(f) => c.reading.Some? ==> IdsInOrder(c.reading.value, c.store, f)
    case Lose(_) => true
    case Outside(t) => Lawful(c.store, t) && KeepsNames(c.status, c.store, t)
  }

  ghost predicate AllOrderly(c: Cluster, steps: seq<Step>)
    requires Possible(c, steps)
    decreases |steps|
  {
    steps != [] ==> Orderly(c, steps[0]) && AllOrderly(Next(c, steps[0]), steps[1..])
  }

  ghost predicate Kempt(c: Cluster) {
    Placed(c) && Recorded(c.status, c.store) && Proper(c.spec.conditions) &&
    (c.reading.Some? ==> Configurable(c.reading.value.spec))
  }

  lemma LawfulKeepsRecorded(st: Status, s: Store, t: Store)
    requires Recorded(st, s) && Lawful(s, t) && KeepsNames(st, s, t)
    ensures Recorded(st, t)
  {
    hide Proper, WellFormed;
    if st.applied.Some? {
      forall j | 0 <= j < |st.applied.value.conditions|
        ensures IdOk(st.applied.value.conditions[j], st.policyId, t)
      {
        assert IdOk(st.applied.value.conditions[j], st.policyId, s);
      }
    }
  }

  lemma StoredIsSendable(c: Cluster)
    requires InAccount(c, c.spec.accountId)
    ensures c.spec.accountId > 0 && PreferenceKnown(c.spec.preference)
  {
  }

  lemma StepKeepsKempt(c: Cluster, step: Step)
    requires Kempt(c) && Enabled(c, step) && Orderly(c, step)
    ensures Kempt(Next(c, step))
  {
    hide Wf, Recorded, Located, ReconcileStatus, InAccount, Lawful, KeepsNames, Proper, IdsInOrder, PreferenceKnown;
    StepKeepsPlaced(c, step);
    StoredIsSendable(c);
    AccountPositive(c, c.spec.accountId);
    match step
    case Edit(_) =>
    case Begin =>
    case Finish(f) => ReconcileKeepsRecords(c.reading.value, c.store, f);
    case Lose(f) => LostKeepsRecords(c, f);
    case Outside(t) => LawfulKeepsRecorded(c.status, c.store, t);
  }

  lemma {:induction false} RunKeepsKempt(c: Cluster, steps: seq<Step>)
    requires Kempt(c) && Possible(c, steps) && AllOrderly(c, steps)
    ensures Kempt(Run(c, steps))
    decreases |steps|
  {
    hide Kempt, Next, Orderly;
    if steps != [] {
      StepKeepsKempt(c, steps[0]);
      RunKeepsKempt(Next(c, steps[0]), steps[1..]);
    }
  }

  lemma InitialIsKempt(c: Cluster)
    requires Initial(c) && Wf(c.store) && Proper(c.spec.conditions)
    ensures Kempt(c)
  {
    hide WellFormed;
  }

  lemma KemptMeans(c: Cluster)
    requires Kempt(c) && c.reading.Some?
    ensures var p := c.reading.value;
            Wf(c.store) && Recorded(p.status, c.store) && Located(p.status, c.store) && Configurable(p.spec)
  {
  }

  /** Delete safety over runs in which every call fails at will, before and now: a reconcile removes no condition with a
      configured name for which its search succeeds, and leaves conditions of other policies and with unmanaged names
      as they are. */
  lemma DeleteSafeOverRuns(c: Cluster, steps: seq<Step>, f: Faults)
    requires Initial(c) && Wf(c.store) && Proper(c.spec.conditions) && Possible(c, steps) && AllOrderly(c, steps)
    requires Run(c, steps).reading.Some?
    ensures var e := Run(c, steps);
            var p := e.reading.value;
            Spares(p, f.conditions, e.store, ReconcileStatus(p, e.store, f).1, WorksOn(p, e.store))
  {
    hide Sync, MatchesApplied, Recorded, Located, Wf, Spares, Proper, Kempt, Orderly, Next;
    InitialIsKempt(c);
    RunKeepsKempt(c, steps);
    var e := Run(c, steps);
    KemptMeans(e);
    SyncSpares(e.reading.value, e.store, f);
    SparesSame(e.reading.value, f.conditions, e.store, e.store, WorksOn(e.reading.value, e.store));
  }

  /** Quiescence over the same runs: a reconcile that is neither blocked nor failed leaves an object that passes the
      cache check as it was read, and a further sync of it would only read. */
  lemma QuiescesOverRuns(c: Cluster, steps: seq<Step>, f: Faults, g: Faults)
    requires Initial(c) && Wf(c.store) && Proper(c.spec.conditions) && Possible(c, steps) && AllOrderly(c, steps)
    requires Run(c, steps).reading.Some?
    requires var e := Run(c, steps);
             var r := Sync(e.reading.value, e.store, f);
             !r.blocked && !r.failed && SearchesSucceed(g.conditions, |e.reading.value.spec.conditions|)
    ensures var e := Run(c, steps);
            var p, r := e.reading.value, Sync(e.reading.value, e.store, f);
            MatchesApplied(Policy(p.spec, r.policy.status)) &&
            OnlyReads(r.store, Sync(Policy(p.spec, r.policy.status), r.store, g).store)
  {
    hide Sync, MatchesApplied, Recorded, Located, Wf, OnlyReads, Proper, Kempt, Orderly, Next;
    InitialIsKempt(c);
    RunKeepsKempt(c, steps);
    KemptMeans(Run(c, steps));
    SyncQuiesces(Run(c, steps).reading.value, Run(c, steps).store, f, g);
  }

  /** No submitted condition carries an ID. */
  ghost predicate Blank(c: Cluster, step: Step) {
    match step
    case Edit(u) => Proper(u.spec.conditions) && NoIdsWritten(u.spec.conditions)
    case Begin => true
    case Finish(_) => true
    case Lose(_) => true
    case Outside(t) => Lawful(c.store, t) && KeepsNames(c.status, c.store, t)
  }

  predicate NoIdsWritten(cs: seq<PolicyCondition>) { forall k :: 0 <= k < |cs| ==> cs[k].id == 0 }

  ghost predicate AllBlank(c: Cluster, steps: seq<Step>)
    requires Possible(c, steps)
    decreases |steps|
  {
    steps != [] ==> Blank(c, steps[0]) && AllBlank(Next(c, steps[0]), steps[1..])
  }

  lemma BlankInOrder(p: Policy, s: Store, f: Faults)
    requires Wf(s) && NoIdsWritten(p.spec.conditions)
    ensures IdsInOrder(p, s, f)
  {
    hide WellFormed, WorksOn;
  }

  /** If users write no IDs, every run is orderly, whatever fails. */
  lemma {:induction false} BlankIsOrderly(c: Cluster, steps: seq<Step>)
    requires Kempt(c) && NoIdsWritten(c.spec.conditions) && Possible(c, steps) && AllBlank(c, steps)
    requires c.reading.Some? ==> NoIdsWritten(c.reading.value.spec.conditions)
    ensures AllOrderly(c, steps)
    decreases |steps|
  {
    hide Kempt, Wf, ReconcileStatus, Lawful, KeepsNames, IdsInOrder, Proper;
    if steps != [] {
      KemptWf(c);
      if c.reading.Some? && steps[0].Finish? {
        BlankInOrder(c.reading.value, c.store, steps[0].faults);
      }
      StepKeepsKempt(c, steps[0]);
      BlankIsOrderly(Next(c, steps[0]), steps[1..]);
    }
  }

  lemma KemptWf(c: Cluster)
    requires Kempt(c)
    ensures Wf(c.store)
  {
  }

  // ----- The snapshot -----

  /** Outside changes that leave the managed conditions alone: the recorded policy may go, but if it stays it keeps
      its name and preference, and the conditions with recorded names stay what they are. */
  ghost predicate Sparing(st: Status, s: Store, t: Store) {
    Lawful(s, t) &&
    (st.policyId in t.policies && st.policyId in s.policies && st.applied.Some? ==>
       t.policies[st.policyId] == s.policies[st.policyId] &&
       forall j :: 0 <= j < |st.applied.value.conditions| ==>
         SameName(s, t, st.policyId, st.applied.value.conditions[j].spec.name))
  }

  ghost predicate SameName(s: Store, t: Store, policy: nat, name: string) {
    Named(t, policy, name) == Named(s, policy, name) &&
    forall c :: c in Named(s, policy, name) ==> t.conditions[c] == s.conditions[c]
  }

  lemma RealisedOutside(spec: ConditionSpec, policy: nat, s: Store, t: Store)
    requires Realised(spec, policy, s) && SameName(s, t, policy, spec.name)
    ensures Realised(spec, policy, t)
  {
    hide Denote;
    NamedSame(s, t, policy, spec.name);
    assert FirstNamed(s, policy, spec.name).value in Named(s, policy, spec.name);
  }

  lemma SparingKeepsSound(st: Status, s: Store, t: Store)
    requires Wf(s) && Sound(st, s) && Sparing(st, s, t)
    ensures Sound(st, t)
  {
    hide Denote, Proper, Realised, WellFormed;
    if st.applied.Some? {
      var os := st.applied.value.conditions;
      forall j | 0 <= j < |os|
        ensures IdOk(os[j], st.policyId, t)
        ensures st.policyId in t.policies ==> Realised(os[j].spec, st.policyId, t)
      {
        assert IdOk(os[j], st.policyId, s);
        if st.policyId in t.policies {
          RealisedOutside(os[j].spec, st.policyId, s, t);
          assert os[j].id in s.conditions ==> os[j].id in Named(s, st.policyId, os[j].spec.name);
        }
      }
    }
  }

  /** The hypotheses on a step under which the snapshot is promised to stay true: conditions have proper names,
      condition calls succeed (policy-level calls need not), no policy is adopted over recorded conditions that mislead,
      the status is written, and managed conditions are not edited outside. */
  ghost predicate Gentle(c: Cluster, step: Step) {
    match step
    case Edit(u) => Proper(u.spec.conditions)
    case Begin => true
    case Finish(f) =>
      c.reading.Some? ==>
        ConditionCallsSucceed(f.conditions, |c.reading.value.spec.conditions|) &&
        AdoptionHarmless(c.reading.value, c.store, f)
    case Lose(_) => false
    case Outside(t) => Sparing(c.status, c.store, t)
  }

  ghost predicate AllGentle(c: Cluster, steps: seq<Step>)
    requires Possible(c, steps)
    decreases |steps|
  {
    steps != [] ==> Gentle(c, steps[0]) && AllGentle(Next(c, steps[0]), steps[1..])
  }

  ghost predicate Good(c: Cluster) {
    Wf(c.store) && Sound(c.status, c.store) && PolicyAcceptable(c.spec) && Proper(c.spec.conditions) &&
    (c.reading.Some? ==> c.reading.value.status == c.status && Configurable(c.reading.value.spec))
  }

  lemma StepKeepsGood(c: Cluster, step: Step)
    requires Good(c) && Enabled(c, step) && Gentle(c, step)
    ensures Good(Next(c, step))
  {
    hide Wf, Sound, ReconcileStatus, Proper, Sparing, AdoptionHarmless;
    match step
    case Edit(_) =>
    case Begin =>
    case Finish(f) => ReconcileKeepsSound(c.reading.value, c.store, f);
    case Lose(_) =>
    case Outside(t) =>
      SparingKeepsSound(c.status, c.store, t);
      assert Wf(t) by { SparingWf(c.status, c.store, t); }
  }

  lemma SparingWf(st: Status, s: Store, t: Store)
    requires Sparing(st, s, t)
    ensures Wf(t)
  {
  }

  lemma {:induction false} RunKeepsGood(c: Cluster, steps: seq<Step>)
    requires Good(c) && Possible(c, steps) && AllGentle(c, steps)
    ensures Good(Run(c, steps))
    decreases |steps|
  {
    hide Good, Next, Gentle;
    if steps != [] {
      StepKeepsGood(c, steps[0]);
      RunKeepsGood(Next(c, steps[0]), steps[1..]);
    }
  }

  lemma InitialIsGood(c: Cluster)
    requires Initial(c) && Wf(c.store) && Proper(c.spec.conditions)
    ensures Good(c)
  {
    hide WellFormed;
  }

  /** Skip soundness over runs. Whenever the stored object passes the cache check while its policy exists, New Relic
      has the policy with the stored name and preference and every stored condition with its stored spec. An edit made
      while a reconcile was under way is therefore never taken for applied. */
  lemma SkipIsSoundOverRuns(c: Cluster, steps: seq<Step>)
    requires Initial(c) && Wf(c.store) && Proper(c.spec.conditions) && Possible(c, steps) && AllGentle(c, steps)
    ensures var d := Run(c, steps);
            MatchesApplied(Policy(d.spec, d.status)) && d.status.policyId in d.store.policies ==>
              PolicyIs(d.store, d.status.policyId, d.spec) &&
              AllRealised(d.spec.conditions, d.status.policyId, d.store)
  {
    hide Wf, Sound, AllRealised, MatchesApplied, Proper, PolicyIs;
    InitialIsGood(c);
    RunKeepsGood(c, steps);
    var d := Run(c, steps);
    if MatchesApplied(Policy(d.spec, d.status)) && d.status.policyId in d.store.policies {
      SkipIsSound(Policy(d.spec, d.status), d.store);
    }
  }

  // ----- Runs in which nobody else deletes the policy -----

  /** As gentle, except that the recorded policy is not deleted outside; nothing is said about adoptions. */
  ghost predicate Undisturbed(c: Cluster, step: Step) {
    match step
    case Edit(u) => Proper(u.spec.conditions)
    case Begin => true
    case Finish(f) =>
      c.reading.Some? ==> ConditionCallsSucceed(f.conditions, |c.reading.value.spec.conditions|)
    case Lose(_) => false
    case Outside(t) =>
      Sparing(c.status, c.store, t) && (c.status.policyId in c.store.policies ==> c.status.policyId in t.policies)
  }

  ghost predicate AllUndisturbed(c: Cluster, steps: seq<Step>)
    requires Possible(c, steps)
    decreases |steps|
  {
    steps != [] ==> Undisturbed(c, steps[0]) && AllUndisturbed(Next(c, steps[0]), steps[1..])
  }

  /** A recorded policy exists; without one no conditions are recorded either. */
  predicate Anchored(st: Status, s: Store) {
    if st.policyId != 0 then st.policyId in s.policies
    else st.applied.Some? ==> st.applied.value.conditions == []
  }

  lemma BlankStaysBlank(p: Policy, s: Store, f: Faults)
    requires Wf(s) && p.status.policyId == 0
    ensures var st := Sync(p, s, f).policy.status;
            st.policyId == 0 ==> st.applied == p.status.applied
  {
    hide ReconcileConditionsIfNeeded, UpdatePolicy, CreatePolicyConditions;
    var t := Log(s, PolicySearch(p.spec.accountId));
    var matches := NameMatches(s, p.spec.accountId, p.spec.name);
    if matches != {} {
      assert Least(matches) in matches && Least(matches) != 0;
      ExistingWorks(p, t, Least(matches), s.policies[Least(matches)], f);
    }
  }

  lemma NothingMisleads(p: Policy, s: Store, f: Faults)
    requires Anchored(p.status, s)
    ensures AdoptionHarmless(p, s, f)
  {
    hide Realised;
  }

  lemma ReconcileStaysAnchored(p: Policy, s: Store, f: Faults)
    requires Wf(s) && Sound(p.status, s) && Anchored(p.status, s) && StatusInAccount(p.status, p.spec.accountId)
    ensures var (st, t) := ReconcileStatus(p, s, f);
            Anchored(st, t) && (p.status.policyId != 0 ==> st.policyId == p.status.policyId)
    ensures AdoptionHarmless(p, s, f)
  {
    hide Sync, MatchesApplied, Sound, AdoptionHarmless;
    NothingMisleads(p, s, f);
    SyncIsConfined(p, s, f);
    SoundLocated(p.status, s);
    if p.status.policyId == 0 {
      AdoptionIsExact(p, s, f);
      BlankStaysBlank(p, s, f);
    } else {
      PolicyIsReachable(p, s);
      RecordedIdStands(p, s, f);
    }
  }

  ghost predicate Steady(c: Cluster) {
    Good(c) && InAccount(c, c.spec.accountId) && Anchored(c.status, c.store)
  }

  lemma StepKeepsSteady(c: Cluster, step: Step)
    requires Steady(c) && Enabled(c, step) && Undisturbed(c, step)
    ensures Gentle(c, step) && Steady(Next(c, step))
    ensures c.status.policyId != 0 ==> Next(c, step).status.policyId == c.status.policyId
  {
    hide Wf, Sound, ReconcileStatus, Proper, Sparing, AdoptionHarmless, PolicyAcceptable, StatusInAccount;
    if step.Finish? {
      ReconcileStaysAnchored(c.reading.value, c.store, step.faults);
    }
    StepKeepsGood(c, step);
    StepStaysInAccount(c, step, c.spec.accountId);
  }

  lemma {:induction false} RunKeepsSteady(c: Cluster, steps: seq<Step>)
    requires Steady(c) && Possible(c, steps) && AllUndisturbed(c, steps)
    ensures AllGentle(c, steps) && Steady(Run(c, steps))
    ensures c.status.policyId != 0 ==> Run(c, steps).status.policyId == c.status.policyId
    decreases |steps|
  {
    hide Steady, Next, Gentle, Undisturbed;
    if steps != [] {
      StepKeepsSteady(c, steps[0]);
      RunKeepsSteady(Next(c, steps[0]), steps[1..]);
    }
  }

  /** If nobody else deletes the policy, adoptions need no hypothesis: from its creation on, the object never loses the
      policy it stands for, every state reached is steady, and whenever the cache check passes all is as stored. */
  lemma UndisturbedRuns(c: Cluster, steps: seq<Step>, more: seq<Step>)
    requires Initial(c) && Wf(c.store) && Proper(c.spec.conditions) && Possible(c, steps) && AllUndisturbed(c, steps)
    requires Possible(Run(c, steps), more) && AllUndisturbed(Run(c, steps), more)
    ensures var d, e := Run(c, steps), Run(Run(c, steps), more);
            (d.status.policyId != 0 ==>
               e.status.policyId == d.status.policyId && e.status.policyId in e.store.policies) &&
            (MatchesApplied(Policy(e.spec, e.status)) ==>
               PolicyIs(e.store, e.status.policyId, e.spec) &&
               AllRealised(e.spec.conditions, e.status.policyId, e.store))
  {
    hide Wf, Sound, AllRealised, Proper, PolicyIs, SameSpecs, InAccount;
    InitialIsGood(c);
    InitialInAccount(c);
    RunKeepsSteady(c, steps);
    RunKeepsSteady(Run(c, steps), more);
    var e := Run(Run(c, steps), more);
    if MatchesApplied(Policy(e.spec, e.status)) {
      SkipIsSound(Policy(e.spec, e.status), e.store);
    }
  }

  lemma InitialInAccount(c: Cluster)
    requires Initial(c)
    ensures InAccount(c, c.spec.accountId)
  {
  }
}

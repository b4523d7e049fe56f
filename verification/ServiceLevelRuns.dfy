/** What the ServiceLevel reconciler keeps: no permanent update loop, and one indicator per resource. */
module ServiceLevelRuns {
  import opened Options
  import opened Accounts
  import opened Decimals
  import opened Text
  import opened ServiceLevelSpecs
  import opened ServiceLevelSync

  // ----- No permanent update loop -----

  /** The stored spec went through defaulting and validation, the limit on decimal places aside. */
  ghost predicate AdmittedUpToPlaces(s: ServiceLevelSpec) {
    ValidUpToPlaces(s) && exists raw, operatorDefault :: s == ApplyDefaults(raw, operatorDefault)
  }

  ghost predicate Admitted(s: ServiceLevelSpec) {
    AdmittedUpToPlaces(s) && PlacesValid(s.indicator.objectives[0])
  }

  predicate Synced(cr: CustomResource) { cr.applied == Some(cr.spec) }

  /** The reconcile gets as far as recording an applied spec. */
  predicate Succeeds(cr: CustomResource, remote: seq<Indicator>, f: Faults) {
    var i := FindIndicator(remote, cr.guid, cr.spec.indicator.name);
    var input := Translate(cr.spec.indicator);
    var sent := !f.mutationFails && input.Some? && Encodable(input.value);
    !Synced(cr) && !f.listFails &&
    (if i == |remote| then sent
     else remote[i].accountId == cr.spec.accountId && (MatchesRemote(cr.spec, remote[i]) || sent))
  }

  /** Success by an adoption, without sending the spec. */
  predicate Adopts(cr: CustomResource, remote: seq<Indicator>) {
    var i := FindIndicator(remote, cr.guid, cr.spec.indicator.name);
    i < |remote| && MatchesRemote(cr.spec, remote[i])
  }

  lemma AdmittedFacts(s: ServiceLevelSpec)
    requires AdmittedUpToPlaces(s)
    ensures Defaulted(s.indicator) && NormalizeIndicator(s.indicator) == s.indicator
  {
    hide ValidUpToPlaces, Defaulted, DefaultIndicator;
    var raw, d :| s == ApplyDefaults(raw, d);
    DefaultDefaulted(raw.indicator);
    AdmittedIsNormal(raw, d);
  }

  /** What an applied spec records of a sent one: the spec itself exactly when the target fits. */
  lemma SentIsAppliedIff(s: ServiceLevelSpec)
    requires AdmittedUpToPlaces(s)
    ensures Translate(s.indicator).Some?
    ensures Encodable(Translate(s.indicator).value) ==>
              (AppliedSpec(s, Store(Translate(s.indicator).value)) == s <==> PlacesValid(s.indicator.objectives[0]))
  {
    AdmittedFacts(s);
    RoundTripIff(s.indicator);
    if Encodable(Translate(s.indicator).value) && !PlacesValid(s.indicator.objectives[0]) {
      NotRestored(s);
    }
  }

  lemma NotRestored(s: ServiceLevelSpec)
    requires AdmittedUpToPlaces(s) && Translate(s.indicator).Some?
    requires Encodable(Translate(s.indicator).value)
    requires !PlacesValid(s.indicator.objectives[0])
    ensures AppliedSpec(s, Store(Translate(s.indicator).value)) != s
  {
    hide ParseFloat, FormatFloat, StoreObjective;
    AdmittedFacts(s);
    var o := s.indicator.objectives[0];
    var sent := TranslateObjective(o).value;
    assert Translate(s.indicator).value.objectives == [sent];
    TargetDiffers(o, sent);
    var restored := Project(Store(Translate(s.indicator).value)).objectives;
    assert restored == [ProjectObjective(StoreObjective(sent))];
    assert NormalizeIndicator(Project(Store(Translate(s.indicator).value))).objectives[0] ==
           NormalizeObjective(restored[0]);
  }

  lemma TargetDiffers(o: Objective, sent: RemoteObjective)
    requires DefaultedObjective(o) && !PlacesValid(o)
    requires TranslateObjective(o) == Some(sent) && sent.target.Fin?
    ensures NormalizeObjective(ProjectObjective(StoreObjective(sent))).target != o.target
  {
    var n := ParseFloat(o.target).value;
    TargetRoundTripIff(n);
    FormatParses(Round(n, 5));
  }

  /** After one successful create or update the resource is in sync exactly when its target has at most
      five decimals; after an adoption it always is. */
  lemma SyncedAfterIff(cr: CustomResource, remote: seq<Indicator>, f: Faults)
    requires AdmittedUpToPlaces(cr.spec) && Succeeds(cr, remote, f)
    ensures Synced(Reconcile(cr, remote, f).cr) <==>
            Adopts(cr, remote) || PlacesValid(cr.spec.indicator.objectives[0])
  {
    hide Translate, Encodable, Store, Project, NormalizeIndicator, ValidUpToPlaces, PlacesValid;
    AdmittedFacts(cr.spec);
    SentIsAppliedIff(cr.spec);
  }

  /** One successful create, update or adoption of an admitted spec ends the work:
      whatever the entity's indicators become, the next reconcile calls nothing. */
  lemma NoUpdateLoop(cr: CustomResource, remote: seq<Indicator>, f: Faults, later: seq<Indicator>, g: Faults)
    requires Admitted(cr.spec) && Succeeds(cr, remote, f)
    ensures var synced := Reconcile(cr, remote, f).cr;
            Synced(synced) && synced.spec == cr.spec && Reconcile(synced, later, g) == Outcome(synced, later, [], 0)
  {
    SyncedAfterIff(cr, remote, f);
  }

  /** There are admitted specs of every target from 0 to 100 that a number can be, up to the places allowed. */
  lemma AdmittedSpecsExist(n: Number)
    requires n.Fin? && Canonical(n) && InRange(n) && DecimalPlaces(FormatFloat(n)) <= 5
    ensures exists s: ServiceLevelSpec :: Admitted(s) && s.indicator.objectives[0].target == FormatFloat(n)
  {
    hide FormatFloat, ParseFloat, InRange, DecimalPlaces, Canonical;
    FormatParses(n);
    var o := Objective("o", "", FormatFloat(n), 7, DAY);
    var query := Some(Query("Transaction", "", Some(Select(COUNT, "", ""))));
    var s := ServiceLevelSpec("key", NO_SECRET, "US", 1, "guid", IndicatorSpec("sli", "", query, query, None, [o]));
    assert MapObjectives(DefaultObjective, [o]) == [o];
    assert s == ApplyDefaults(s, 0);
  }

  predicate GuidsSet(remote: seq<Indicator>) { forall i :: 0 <= i < |remote| ==> remote[i].guid != "" }

  /** New Relic gives every indicator a GUID of its own. */
  predicate DistinctGuids(remote: seq<Indicator>) {
    forall i, j :: 0 <= i < j < |remote| ==> remote[i].guid != remote[j].guid
  }

  /** With more decimals the loop is real: once the spec was sent, by a create or by an update of an indicator found by
      GUID or by name, every later reconcile sends an update again and leaves everything as it found it. */
  lemma UpdateLoop(cr: CustomResource, remote: seq<Indicator>, f: Faults, g: Faults)
    requires AdmittedUpToPlaces(cr.spec) && !PlacesValid(cr.spec.indicator.objectives[0])
    requires Succeeds(cr, remote, f) && !Adopts(cr, remote)
    requires GuidsSet(remote) && DistinctGuids(remote) && f.newGuid != "" && !Listed(remote, f.newGuid)
    requires !g.listFails && !g.mutationFails
    ensures var first := Reconcile(cr, remote, f);
            |first.mutations| == 1 && first.mutations[0].guid == first.cr.guid &&
            Reconcile(first.cr, first.remote, g) == Outcome(first.cr, first.remote, [Update(first.cr.guid)], 2)
  {
    hide Translate, Encodable, Store, Project, NormalizeIndicator, ValidUpToPlaces, PlacesValid, FindIndicator;
    var first := Reconcile(cr, remote, f);
    var i := FindIndicator(remote, cr.guid, cr.spec.indicator.name);
    SentIsAppliedIff(cr.spec);
    AdmittedFacts(cr.spec);
    SyncedAfterIff(cr, remote, f);
    FindOwn(first.remote, i, first.cr.guid, cr.spec.indicator.name);
    assert first.remote[i := first.remote[i]] == first.remote;
  }

  lemma FindOwn(remote: seq<Indicator>, i: nat, guid: string, name: string)
    requires i < |remote| && remote[i].guid == guid && guid != ""
    requires forall k :: 0 <= k < i ==> remote[k].guid != guid
    ensures FindIndicator(remote, guid, name) == i && Listed(remote, guid)
  {
  }

  /** A target of NaN passes validation, but nothing is ever sent for it. */
  lemma NaNNeverSent(cr: CustomResource, remote: seq<Indicator>, f: Faults)
    requires |cr.spec.indicator.objectives| > 0
    requires ParseFloat(cr.spec.indicator.objectives[0].target) == Some(NaN)
    ensures Reconcile(cr, remote, f).mutations == []
  {
    hide ParseFloat, TranslateQuery, MatchesRemote, AppliedSpec;
    TranslatedNaN(cr.spec.indicator.objectives[0]);
  }

  lemma TranslatedNaN(o: Objective)
    requires ParseFloat(o.target) == Some(NaN)
    ensures TranslateObjective(o).Some? && TranslateObjective(o).value.target == NaN
  {
  }

  // ----- What one reconcile does -----

  /** The spec can be sent, and the call that sends it goes through. */
  predicate Sent(spec: ServiceLevelSpec, f: Faults) {
    var input := Translate(spec.indicator);
    !f.mutationFails && input.Some? && Encodable(input.value)
  }

  /** Nothing is created while an indicator is listed that has the recorded GUID or the name of the spec. */
  lemma CreatesIff(cr: CustomResource, remote: seq<Indicator>, f: Faults)
    ensures var o := Reconcile(cr, remote, f);
            (exists m :: m in o.mutations && m.Create?) <==>
            !Synced(cr) && !f.listFails && Sent(cr.spec, f) &&
            !GuidListed(remote, cr.guid) && !NameListed(remote, cr.spec.indicator.name)
  {
    hide Translate, Encodable, Store, AppliedSpec, MatchesRemote, GuidListed, NameListed, Means, FindIndicator;
    FindIndicatorExact(remote, cr.guid, cr.spec.indicator.name);
    var o := Reconcile(cr, remote, f);
    if o.mutations != [] {
      assert o.mutations[0] in o.mutations;
    }
  }

  /** The indicator meant is updated exactly when it is of the account and its projection differs from the spec in
      normal form; its GUID, its ID, its account and all other indicators stay. */
  lemma UpdatesIff(cr: CustomResource, remote: seq<Indicator>, f: Faults, i: nat)
    requires i < |remote| && Means(remote, cr.guid, cr.spec.indicator.name, i)
    ensures var o := Reconcile(cr, remote, f);
            var update := !Synced(cr) && !f.listFails && Sent(cr.spec, f) &&
                          remote[i].accountId == cr.spec.accountId &&
                          NormalizeIndicator(Project(remote[i].body)) != NormalizeIndicator(cr.spec.indicator);
            o.mutations == (if update then [Update(remote[i].guid)] else []) &&
            |o.remote| == |remote| && o.remote[i].(body := remote[i].body) == remote[i] &&
            (!update ==> o.remote[i] == remote[i]) &&
            forall k :: 0 <= k < |remote| && k != i ==> o.remote[k] == remote[k]
  {
    hide Translate, Encodable, Store, AppliedSpec, Project, NormalizeIndicator, GuidListed, NameListed, Means,
      FindIndicator;
    FindIndicatorExact(remote, cr.guid, cr.spec.indicator.name);
  }

  /** The indicator a reconcile of this outcome recorded, as the server has it afterwards. */
  predicate Recorded(o: Outcome, i: nat)
    requires i < |o.remote|
  {
    o.remote[i].guid == o.cr.guid && o.remote[i].id == o.cr.id
  }

  /** After success the recorded indicator is on the server, in the account of the spec, and asks for just what the
      spec does; whatever was there before and was not meant is as it was. */
  lemma ReconcileConverges(cr: CustomResource, remote: seq<Indicator>, f: Faults)
    requires Admitted(cr.spec) && Succeeds(cr, remote, f)
    ensures var o := Reconcile(cr, remote, f);
            o.cr.spec == cr.spec && |remote| <= |o.remote| &&
            exists i :: 0 <= i < |o.remote| && Recorded(o, i) && o.remote[i].accountId == cr.spec.accountId &&
                        TrimSpace(o.remote[i].body.name) == cr.spec.indicator.name &&
                        NormalizeIndicator(Project(o.remote[i].body)) == cr.spec.indicator &&
                        forall k :: 0 <= k < |remote| && k != i ==> o.remote[k] == remote[k]
  {
    hide Translate, Encodable, Store, Project, NormalizeIndicator, ValidUpToPlaces, PlacesValid, FindIndicator;
    AdmittedFacts(cr.spec);
    SentIsAppliedIff(cr.spec);
    var o := Reconcile(cr, remote, f);
    var i := FindIndicator(remote, cr.guid, cr.spec.indicator.name);
    assert Recorded(o, i);
    NormalName(cr.spec.indicator, o.remote[i].body);
  }

  lemma NormalName(s: IndicatorSpec, b: Body)
    requires NormalizeIndicator(Project(b)) == s
    ensures TrimSpace(b.name) == s.name
  {
  }

  /** Nothing in another account is adopted or changed. */
  lemma OtherAccountsStay(cr: CustomResource, remote: seq<Indicator>, f: Faults, k: nat)
    requires k < |remote| && remote[k].accountId != cr.spec.accountId
    ensures var o := Reconcile(cr, remote, f);
            |remote| <= |o.remote| && o.remote[k] == remote[k] &&
            (Means(remote, cr.guid, cr.spec.indicator.name, k) ==> o.cr == cr && o.remote == remote)
  {
    hide Translate, Encodable, Store, AppliedSpec, MatchesRemote, GuidListed, NameListed, Means, FindIndicator;
    FindIndicatorExact(remote, cr.guid, cr.spec.indicator.name);
  }

  /** A reconcile that does not succeed calls no mutation that takes effect and leaves the stored object as it was. */
  lemma FailureChangesNothing(cr: CustomResource, remote: seq<Indicator>, f: Faults)
    requires !Succeeds(cr, remote, f)
    ensures var o := Reconcile(cr, remote, f);
            o.cr == cr && o.remote == remote && o.mutations == []
  {
    hide Translate, Encodable, Store, AppliedSpec, MatchesRemote, FindIndicator;
  }

  // ----- One indicator per resource, over runs -----

  datatype State = State(cr: CustomResource, remote: seq<Indicator>, mutations: seq<Mutation>)

  /** The recorded indicator exists. */
  predicate Owned(s: State) { s.cr.guid != "" && Listed(s.remote, s.cr.guid) }

  /** A user changes the spec, its name included. */
  predicate Edit(s: State, t: State) { t == s.(cr := s.cr.(spec := t.cr.spec)) }

  /** Others change the entity's indicators, but the one this resource owns stays listed. */
  predicate Outside(s: State, t: State) {
    t == s.(remote := t.remote) && GuidsSet(t.remote) && (Owned(s) ==> Owned(t))
  }

  predicate Reconciled(s: State, t: State, f: Faults) {
    f.newGuid != "" &&
    var o := Reconcile(s.cr, s.remote, f);
    t == State(o.cr, o.remote, s.mutations + o.mutations)
  }

  ghost predicate Next(s: State, t: State) {
    Edit(s, t) || Outside(s, t) || exists f :: Reconciled(s, t, f)
  }

  ghost predicate IsRun(run: seq<State>) {
    |run| > 0 && GuidsSet(run[0].remote) && !Owned(run[0]) && run[0].mutations == [] &&
    forall i :: 0 <= i < |run| - 1 ==> Next(run[i], run[i + 1])
  }

  /** Every mutation so far was of the one indicator that is recorded now, and only the first can be a create. */
  predicate OneIndicator(s: State) {
    GuidsSet(s.remote) &&
    (if Owned(s) then
       (forall i :: 0 <= i < |s.mutations| ==> s.mutations[i].guid == s.cr.guid) &&
       (forall i :: 1 <= i < |s.mutations| ==> s.mutations[i].Update?)
     else s.mutations == [])
  }

  lemma ListedAt(remote: seq<Indicator>, i: nat)
    requires i < |remote|
    ensures Listed(remote, remote[i].guid)
  {
  }

  lemma ReconcileKeepsOne(s: State, t: State, f: Faults)
    requires OneIndicator(s) && Reconciled(s, t, f)
    ensures OneIndicator(t)
    ensures Owned(s) ==> Owned(t) && t.cr.guid == s.cr.guid
  {
    hide Translate, Encodable, Store, AppliedSpec, MatchesRemote;
    var i := FindIndicator(s.remote, s.cr.guid, s.cr.spec.indicator.name);
    if t.mutations != s.mutations {
      if i == |s.remote| {
        ListedAt(t.remote, i);
      } else {
        ListedAt(t.remote, i);
      }
    } else if t.cr != s.cr {
      ListedAt(s.remote, i);
    }
  }

  lemma NextKeepsOne(s: State, t: State)
    requires OneIndicator(s) && Next(s, t)
    ensures OneIndicator(t)
    ensures Owned(s) ==> Owned(t) && t.cr.guid == s.cr.guid
  {
    hide Reconcile;
    if f :| Reconciled(s, t, f) {
      ReconcileKeepsOne(s, t, f);
    }
  }

  /** In any run with any renames and any changes to other indicators, all mutations are of one indicator,
      at most one of them is a create, and once recorded the guid never changes. */
  lemma {:induction false} OneIndicatorOverRuns(run: seq<State>, i: nat, j: nat)
    requires IsRun(run) && i <= j < |run|
    ensures OneIndicator(run[j])
    ensures Owned(run[i]) ==> Owned(run[j]) && run[j].cr.guid == run[i].cr.guid
    decreases j
  {
    if j > 0 {
      OneIndicatorOverRuns(run, if i < j then i else j - 1, j - 1);
      NextKeepsOne(run[j - 1], run[j]);
    }
  }
}

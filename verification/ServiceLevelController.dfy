/** The ServiceLevel reconciler in its own form: methods that update the resource's status in place. */
module ServiceLevelController {
  import opened Options
  import opened Decimals
  import opened ServiceLevelSpecs
  import opened ServiceLevelSync

  /** The indicators of one entity in New Relic, and a record of the calls made. */
  class EntityIndicators {
    var indicators: seq<Indicator>
    var mutations: seq<Mutation>
    var calls: nat

    constructor (indicators: seq<Indicator>)
      ensures this.indicators == indicators && mutations == [] && calls == 0
    {
      this.indicators, mutations, calls := indicators, [], 0;
    }

    /** None when the call fails. An entity without indicators is a typed NotFound, which reads as none. */
    method GetIndicators(fails: bool) returns (r: Option<seq<Indicator>>)
      modifies this`calls
      ensures calls == old(calls) + 1
      ensures r == if fails then None else Some(indicators)
    {
      calls := calls + 1;
      r := if fails then None else Some(indicators);
    }

    method ServiceLevelCreate(accountId: int, input: Body, f: Faults) returns (r: Option<Indicator>)
      modifies this
      ensures calls == old(calls) + 1
      ensures r.None? <==> f.mutationFails || !Encodable(input)
      ensures r.None? ==> indicators == old(indicators) && mutations == old(mutations)
      ensures r.Some? ==> r.value == Indicator(f.newGuid, f.newId, accountId, Store(input)) &&
                          indicators == old(indicators) + [r.value] &&
                          mutations == old(mutations) + [Create(f.newGuid)]
    {
      calls := calls + 1;
      if f.mutationFails || !Encodable(input) {
        return None;
      }
      r := Some(Indicator(f.newGuid, f.newId, accountId, Store(input)));
      indicators := indicators + [r.value];
      mutations := mutations + [Create(f.newGuid)];
    }

    method ServiceLevelUpdate(guid: string, input: Body, f: Faults) returns (r: Option<Indicator>)
      requires Listed(indicators, guid)
      modifies this
      ensures calls == old(calls) + 1
      ensures r.None? <==> f.mutationFails || !Encodable(input)
      ensures r.None? ==> indicators == old(indicators) && mutations == old(mutations)
      ensures r.Some? ==> var i := IndexOfGuid(old(indicators), guid);
                          r.value == old(indicators)[i].(body := Store(input)) &&
                          indicators == old(indicators)[i := r.value] &&
                          mutations == old(mutations) + [Update(guid)]
    {
      calls := calls + 1;
      if f.mutationFails || !Encodable(input) {
        return None;
      }
      var i := IndexOfGuid(indicators, guid);
      r := Some(indicators[i].(body := Store(input)));
      indicators := indicators[i := r.value];
      mutations := mutations + [Update(guid)];
    }
  }

  method TranslateObjectivesInput(objectives: seq<Objective>) returns (r: Option<seq<RemoteObjective>>)
    ensures r == TranslateObjectives(objectives)
  {
    hide TranslateObjective;
    var result := [];
    for i := 0 to |objectives|
      invariant |result| == i
      invariant forall k :: 0 <= k < i ==> TranslateObjective(objectives[k]) == Some(result[k])
    {
      var one := TranslateObjective(objectives[i]);
      if one.None? {
        return None;
      }
      result := result + [one.value];
    }
    assert TranslateObjectives(objectives).value == result;
    return Some(result);
  }

  class ServiceLevelResource {
    const spec: ServiceLevelSpec
    var serviceLevelGuid: string
    var serviceLevelId: string
    var appliedSpec: Option<ServiceLevelSpec>

    constructor (cr: CustomResource)
      ensures Value() == cr
    {
      spec := cr.spec;
      serviceLevelGuid, serviceLevelId, appliedSpec := cr.guid, cr.id, cr.applied;
    }

    function Value(): CustomResource
      reads this
    {
      CustomResource(spec, serviceLevelGuid, serviceLevelId, appliedSpec)
    }
  }

  /** Stored guid first, then the first of the name; a total miss clears the stored guid. */
  method FindRemote(indicators: seq<Indicator>, sl: ServiceLevelResource) returns (match_: Option<nat>)
    modifies sl
    ensures match_.None? <==> !GuidListed(indicators, old(sl.serviceLevelGuid)) &&
                              !NameListed(indicators, sl.spec.indicator.name)
    ensures match_.Some? ==> match_.value < |indicators| &&
                             Means(indicators, old(sl.serviceLevelGuid), sl.spec.indicator.name, match_.value)
    ensures match_.Some? ==> sl.Value() == old(sl.Value())
    ensures match_.None? ==> sl.Value() == old(sl.Value()).(guid := "", id := "")
  {
    if sl.serviceLevelGuid != "" {
      for i := 0 to |indicators|
        invariant forall k :: 0 <= k < i ==> indicators[k].guid != sl.serviceLevelGuid
      {
        if indicators[i].guid == sl.serviceLevelGuid {
          return Some(i);
        }
      }
    }
    match_ := None;
    for i := 0 to |indicators|
      invariant match_.None? ==> forall k :: 0 <= k < i ==> indicators[k].body.name != sl.spec.indicator.name
      invariant match_.Some? ==> match_.value < i && indicators[match_.value].body.name == sl.spec.indicator.name &&
                                 forall k :: 0 <= k < match_.value ==> indicators[k].body.name != sl.spec.indicator.name
    {
      if indicators[i].body.name != sl.spec.indicator.name {
        continue;
      }
      if match_ == None {
        match_ := Some(i);
      }
    }
    if match_ == None {
      sl.serviceLevelGuid := "";
      sl.serviceLevelId := "";
    }
  }

  predicate DistinctGuids(remote: seq<Indicator>) {
    forall i, j :: 0 <= i < j < |remote| ==> remote[i].guid != remote[j].guid
  }

  lemma PositionOfGuid(remote: seq<Indicator>, i: nat)
    requires DistinctGuids(remote) && i < |remote|
    ensures IndexOfGuid(remote, remote[i].guid) == i
  {
  }

  /** One reconcile. The status reaches the stored object only when no call fails. */
  method ReconcileResource(stored: ServiceLevelResource, api: EntityIndicators, f: Faults) returns (failed: bool)
    requires DistinctGuids(api.indicators)
    modifies stored, api
    ensures var o := Reconcile(old(stored.Value()), old(api.indicators), f);
            stored.Value() == o.cr && api.indicators == o.remote &&
            api.mutations == old(api.mutations) + o.mutations && api.calls == old(api.calls) + o.calls
  {
    hide Translate, Encodable, ServiceLevelSync.Store, AppliedSpec, MatchesRemote, FindIndicator, Means;
    var sl := new ServiceLevelResource(stored.Value());
    if sl.appliedSpec == Some(sl.spec) {
      return false;
    }
    var listed := api.GetIndicators(f.listFails);
    if listed.None? {
      return true;
    }
    FindIndicatorExact(listed.value, sl.serviceLevelGuid, sl.spec.indicator.name);
    var found: Option<nat> := None;
    if listed.value != [] {
      found := FindRemote(listed.value, sl);
    }
    if found.Some? && listed.value[found.value].accountId != sl.spec.accountId {
      return false;
    }
    if found.Some? && MatchesRemote(sl.spec, listed.value[found.value]) {
      RecordApplied(sl, listed.value[found.value]);
    } else {
      var input := Translate(sl.spec.indicator);
      if input.None? {
        return true;
      }
      var result;
      if found.None? {
        result := api.ServiceLevelCreate(sl.spec.accountId, input.value, f);
      } else {
        PositionOfGuid(listed.value, found.value);
        result := api.ServiceLevelUpdate(listed.value[found.value].guid, input.value, f);
      }
      if result.None? {
        return true;
      }
      RecordApplied(sl, result.value);
    }
    stored.serviceLevelGuid, stored.serviceLevelId, stored.appliedSpec :=
      sl.serviceLevelGuid, sl.serviceLevelId, sl.appliedSpec;
    return false;
  }

  method RecordApplied(sl: ServiceLevelResource, r: Indicator)
    modifies sl
    ensures sl.Value() == Record(old(sl.Value()), r)
  {
    sl.serviceLevelGuid := r.guid;
    sl.serviceLevelId := r.id;
    sl.appliedSpec := Some(AppliedSpec(sl.spec, r.body));
  }
}

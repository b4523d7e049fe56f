/** The ServiceLevel reconciler as functions on values: translation to the API, projection back,
    one reconcile against the indicators of the entity, and runs of reconciles and outside changes. */
module ServiceLevelSync {
  import opened Options
  import opened Decimals
  import opened Text
  import opened ServiceLevelSpecs

  // ----- The API types -----

  datatype RemoteSelect = RemoteSelect(function_: string, attribute: string, threshold: Number)

  datatype RemoteQuery = RemoteQuery(from: string, where: string, select: RemoteSelect)

  datatype RemoteObjective =
    RemoteObjective(name: string, description: string, target: Number, count: int, unit: string)

  /** What an indicator holds, and what a create or update input carries. */
  datatype Body = Body(
    name: string, description: string,
    validEvents: Option<RemoteQuery>, goodEvents: Option<RemoteQuery>, badEvents: Option<RemoteQuery>,
    objectives: seq<RemoteObjective>)

  datatype Indicator = Indicator(guid: string, id: string, accountId: int, body: Body)

  // ----- Translation to the API -----

  /** A missing select is sent as none, which New Relic reads as COUNT. */
  function TranslateSelect(select: Option<Select>): Option<RemoteSelect> {
    match select
    case None => Some(RemoteSelect(COUNT, "", ZERO))
    case Some(s) =>
      if s.threshold == "" then Some(RemoteSelect(s.function_, s.attribute, ZERO))
      else match ParseFloat(s.threshold)
           case None => None
           case Some(n) => Some(RemoteSelect(s.function_, s.attribute, n))
  }

  /** The outer None is a translation error, the inner one a query that is not set. */
  function TranslateQuery(query: Option<Query>): Option<Option<RemoteQuery>> {
    match query
    case None => Some(None)
    case Some(q) =>
      match TranslateSelect(q.select)
      case None => None
      case Some(s) => Some(Some(RemoteQuery(q.from, q.where, s)))
  }

  function TranslateObjective(o: Objective): (r: Option<RemoteObjective>)
    ensures r.Some? ==> r.value.name == o.name && r.value.description == o.description &&
                        r.value.count == o.count && r.value.unit == o.unit
  {
    match ParseFloat(o.target)
    case None => None
    case Some(n) => Some(RemoteObjective(o.name, o.description, n, o.count, o.unit))
  }

  function TranslateObjectives(os: seq<Objective>): (r: Option<seq<RemoteObjective>>)
    ensures r.Some? <==> forall i :: 0 <= i < |os| ==> TranslateObjective(os[i]).Some?
    ensures r.Some? ==> |r.value| == |os| &&
                        forall i :: 0 <= i < |os| ==> TranslateObjective(os[i]) == Some(r.value[i])
  {
    if os == [] then Some([])
    else
      var last := TranslateObjective(os[|os| - 1]);
      var init := TranslateObjectives(os[..|os| - 1]);
      if init.Some? && last.Some? then Some(init.value + [last.value]) else None
  }

  function Translate(s: IndicatorSpec): Option<Body> {
    var v, g, b := TranslateQuery(s.validEvents), TranslateQuery(s.goodEvents), TranslateQuery(s.badEvents);
    var os := TranslateObjectives(s.objectives);
    if v.Some? && g.Some? && b.Some? && os.Some? then
      Some(Body(s.name, s.description, v.value, g.value, b.value, os.value))
    else
      None
  }

  /** A decimal of the query that is sent as a number. */
  predicate ThresholdReadable(query: Option<Query>) {
    query.Some? && query.value.select.Some? && query.value.select.value.threshold != "" ==>
      ParseFloat(query.value.select.value.threshold).Some?
  }

  /** A spec is sent exactly if all its decimals are read, and then field by field. */
  lemma TranslatesIff(s: IndicatorSpec)
    ensures Translate(s).Some? <==>
            ThresholdReadable(s.validEvents) && ThresholdReadable(s.goodEvents) && ThresholdReadable(s.badEvents) &&
            forall i :: 0 <= i < |s.objectives| ==> ParseFloat(s.objectives[i].target).Some?
    ensures Translate(s).Some? ==>
              var t := Translate(s).value;
              t.name == s.name && t.description == s.description && |t.objectives| == |s.objectives| &&
              SentAs(s.validEvents, t.validEvents) && SentAs(s.goodEvents, t.goodEvents) &&
              SentAs(s.badEvents, t.badEvents)
  {
    hide ParseFloat;
    assert forall i :: 0 <= i < |s.objectives| ==>
        (TranslateObjective(s.objectives[i]).Some? <==> ParseFloat(s.objectives[i].target).Some?);
  }

  predicate SentAs(query: Option<Query>, remote: Option<RemoteQuery>) {
    match query
    case None => remote.None?
    case Some(q) =>
      remote.Some? && remote.value.from == q.from && remote.value.where == q.where &&
      remote.value.select.function_ == (if q.select.Some? then q.select.value.function_ else COUNT) &&
      remote.value.select.attribute == if q.select.Some? then q.select.value.attribute else ""
  }

  // ----- What the server makes of an input -----

  /** COUNT keeps no attribute, and only GET_CDF_COUNT keeps a threshold. */
  function StoreSelect(s: RemoteSelect): RemoteSelect {
    RemoteSelect(s.function_, if s.function_ == COUNT then "" else s.attribute,
                 if s.function_ == GET_CDF_COUNT then s.threshold else ZERO)
  }

  function StoreQuery(q: Option<RemoteQuery>): Option<RemoteQuery> {
    if q.None? then None else Some(q.value.(select := StoreSelect(q.value.select)))
  }

  /** Targets are rounded to five decimals. */
  function StoreObjective(o: RemoteObjective): RemoteObjective { o.(target := Round(o.target, 5)) }

  function Store(b: Body): Body {
    b.(validEvents := StoreQuery(b.validEvents), goodEvents := StoreQuery(b.goodEvents),
       badEvents := StoreQuery(b.badEvents),
       objectives := seq(|b.objectives|, i requires 0 <= i < |b.objectives| => StoreObjective(b.objectives[i])))
  }

  /** JSON has no NaN and no infinities, so an input that holds one is never accepted. */
  predicate Encodable(b: Body) {
    && (forall i :: 0 <= i < |b.objectives| ==> b.objectives[i].target.Fin?)
    && (b.validEvents.Some? ==> b.validEvents.value.select.threshold.Fin?)
    && (b.goodEvents.Some? ==> b.goodEvents.value.select.threshold.Fin?)
    && (b.badEvents.Some? ==> b.badEvents.value.select.threshold.Fin?)
  }

  // ----- Projection back -----

  function ProjectQuery(q: Option<RemoteQuery>): Option<Query> {
    if q.None? then None
    else
      var s := q.value.select;
      Some(Query(q.value.from, q.value.where,
                 Some(Select(s.function_, s.attribute,
                             if s.function_ == GET_CDF_COUNT then FormatFloat(s.threshold) else ""))))
  }

  function ProjectObjective(o: RemoteObjective): Objective {
    Objective(o.name, o.description, FormatFloat(o.target), o.count, o.unit)
  }

  function Project(b: Body): IndicatorSpec {
    IndicatorSpec(b.name, b.description, ProjectQuery(b.validEvents), ProjectQuery(b.goodEvents),
                  ProjectQuery(b.badEvents),
                  seq(|b.objectives|, i requires 0 <= i < |b.objectives| => ProjectObjective(b.objectives[i])))
  }

  // ----- One reconcile -----

  /** The stored object. A blank guid means that no indicator is recorded. */
  datatype CustomResource = CustomResource(spec: ServiceLevelSpec, guid: string, id: string,
      applied: Option<ServiceLevelSpec>)

  /** Calls that change something in New Relic. */
  datatype Mutation = Create(guid: string) | Update(guid: string)

  /** How the calls of one reconcile go; newGuid and newId are what a create would be given. */
  datatype Faults = Faults(listFails: bool, mutationFails: bool, newGuid: string, newId: string)

  datatype Outcome = Outcome(cr: CustomResource, remote: seq<Indicator>, mutations: seq<Mutation>, calls: nat)

  /** Position of the indicator with a guid, or the length. */
  function IndexOfGuid(remote: seq<Indicator>, guid: string): (i: nat)
    ensures i <= |remote|
    ensures i < |remote| ==> remote[i].guid == guid
    ensures forall k :: 0 <= k < i ==> remote[k].guid != guid
  {
    if remote == [] || remote[0].guid == guid then 0
    else
      var i := 1 + IndexOfGuid(remote[1..], guid);
      assert forall k :: 1 <= k < i ==> remote[k] == remote[1..][k - 1];
      i
  }

  /** Position of the first indicator with a name, or the length. */
  function IndexOfName(remote: seq<Indicator>, name: string): (i: nat)
    ensures i <= |remote|
    ensures i < |remote| ==> remote[i].body.name == name
    ensures forall k :: 0 <= k < i ==> remote[k].body.name != name
  {
    if remote == [] || remote[0].body.name == name then 0
    else
      var i := 1 + IndexOfName(remote[1..], name);
      assert forall k :: 1 <= k < i ==> remote[k] == remote[1..][k - 1];
      i
  }

  predicate Listed(remote: seq<Indicator>, guid: string) { IndexOfGuid(remote, guid) < |remote| }

  /** The recorded guid wins; the name is only for adoption and for a stale guid. */
  function FindIndicator(remote: seq<Indicator>, guid: string, name: string): (i: nat)
    ensures i <= |remote|
  {
    if guid != "" && Listed(remote, guid) then IndexOfGuid(remote, guid) else IndexOfName(remote, name)
  }

  predicate GuidListed(remote: seq<Indicator>, guid: string) {
    guid != "" && exists k :: 0 <= k < |remote| && remote[k].guid == guid
  }

  predicate NameListed(remote: seq<Indicator>, name: string) {
    exists k :: 0 <= k < |remote| && remote[k].body.name == name
  }

  /** The indicator a resource means: the first listed with the recorded GUID, and without one the first of the name. */
  predicate Means(remote: seq<Indicator>, guid: string, name: string, i: nat)
    requires i < |remote|
  {
    if GuidListed(remote, guid) then remote[i].guid == guid && forall k :: 0 <= k < i ==> remote[k].guid != guid
    else remote[i].body.name == name && forall k :: 0 <= k < i ==> remote[k].body.name != name
  }

  lemma FindIndicatorExact(remote: seq<Indicator>, guid: string, name: string)
    ensures var i := FindIndicator(remote, guid, name);
            (i < |remote| <==> GuidListed(remote, guid) || NameListed(remote, name)) &&
            forall k :: 0 <= k < |remote| ==> (Means(remote, guid, name, k) <==> k == i)
  {
    var i := FindIndicator(remote, guid, name);
    assert Listed(remote, guid) <==> exists k :: 0 <= k < |remote| && remote[k].guid == guid by {
      if Listed(remote, guid) {
        assert remote[IndexOfGuid(remote, guid)].guid == guid;
      }
    }
    if NameListed(remote, name) {
      assert IndexOfName(remote, name) < |remote|;
    } else {
      assert IndexOfName(remote, name) == |remote|;
    }
    forall k | 0 <= k < |remote|
      ensures Means(remote, guid, name, k) <==> k == i
    {
    }
  }

  function AppliedSpec(spec: ServiceLevelSpec, body: Body): ServiceLevelSpec {
    spec.(indicator := NormalizeIndicator(Project(body)))
  }

  function Record(cr: CustomResource, r: Indicator): CustomResource {
    cr.(guid := r.guid, id := r.id, applied := Some(AppliedSpec(cr.spec, r.body)))
  }

  predicate MatchesRemote(spec: ServiceLevelSpec, r: Indicator) {
    NormalizeIndicator(spec.indicator) == NormalizeIndicator(Project(r.body))
  }

  /** A failed reconcile writes no status, so the resource is returned as it was. */
  function Reconcile(cr: CustomResource, remote: seq<Indicator>, f: Faults): Outcome {
    if cr.applied == Some(cr.spec) then Outcome(cr, remote, [], 0)
    else if f.listFails then Outcome(cr, remote, [], 1)
    else
      var i := FindIndicator(remote, cr.guid, cr.spec.indicator.name);
      if i == |remote| then CreateServiceLevel(cr, remote, f)
      else if remote[i].accountId != cr.spec.accountId then Outcome(cr, remote, [], 1)
      else if MatchesRemote(cr.spec, remote[i]) then Outcome(Record(cr, remote[i]), remote, [], 1)
      else UpdateServiceLevel(cr, remote, i, f)
  }

  function CreateServiceLevel(cr: CustomResource, remote: seq<Indicator>, f: Faults): Outcome {
    var input := Translate(cr.spec.indicator);
    if input.None? then Outcome(cr, remote, [], 1)
    else if f.mutationFails || !Encodable(input.value) then Outcome(cr, remote, [], 2)
    else
      var created := Indicator(f.newGuid, f.newId, cr.spec.accountId, Store(input.value));
      Outcome(Record(cr, created), remote + [created], [Create(f.newGuid)], 2)
  }

  function UpdateServiceLevel(cr: CustomResource, remote: seq<Indicator>, i: nat, f: Faults): Outcome
    requires i < |remote|
  {
    var input := Translate(cr.spec.indicator);
    if input.None? then Outcome(cr, remote, [], 1)
    else if f.mutationFails || !Encodable(input.value) then Outcome(cr, remote, [], 2)
    else
      var updated := remote[i].(body := Store(input.value));
      Outcome(Record(cr, updated), remote[i := updated], [Update(remote[i].guid)], 2)
  }

  // ----- What the comparison sees -----

  predicate Sendable(query: Option<Query>) {
    query.Some? ==>
      Trimmed(query.value.from) && Trimmed(query.value.where) &&
      (query.value.select.Some? ==> SelectSendable(query.value.select.value))
  }

  predicate SelectSendable(s: Select) {
    s.function_ != "" && (s.function_ == GET_CDF_COUNT ==> s.threshold != "") &&
    (s.threshold != "" ==> ParseFloat(s.threshold).Some?)
  }

  lemma SelectsAgreeIff(a: Select, b: Select)
    requires SelectSendable(a) && SelectSendable(b)
    ensures TranslateSelect(Some(a)).Some? && TranslateSelect(Some(b)).Some?
    ensures NormalizeSelect(Some(a)) == NormalizeSelect(Some(b)) <==>
            StoreSelect(TranslateSelect(Some(a)).value) == StoreSelect(TranslateSelect(Some(b)).value)
  {
    hide ParseFloat, NormalizeDecimal;
    if a.threshold != "" && b.threshold != "" {
      SameNumberIff(a.threshold, b.threshold);
    }
  }

  /** Two queries that can be sent have one normal form exactly if New Relic would hold the same for both, so that the
      comparison asks for an update only if it changes something. */
  lemma QueriesAgreeIff(a: Option<Query>, b: Option<Query>)
    requires Sendable(a) && Sendable(b)
    ensures TranslateQuery(a).Some? && TranslateQuery(b).Some?
    ensures NormalizeQuery(a) == NormalizeQuery(b) <==>
            StoreQuery(TranslateQuery(a).value) == StoreQuery(TranslateQuery(b).value)
  {
    hide StoreSelect, NormalizeSelect, TranslateSelect, SelectSendable, Trimmed, TrimSpace;
    var count := Select(COUNT, "", "");
    assert SelectSendable(count) && NormalizeSelect(None) == NormalizeSelect(Some(count)) &&
           TranslateSelect(None) == TranslateSelect(Some(count)) by { CountIsDefault(); }
    if a.Some? && b.Some? {
      TrimSpaceFixedIff(a.value.from);
      TrimSpaceFixedIff(a.value.where);
      TrimSpaceFixedIff(b.value.from);
      TrimSpaceFixedIff(b.value.where);
    }
    SelectsAgreeIff(if a.Some? && a.value.select.Some? then a.value.select.value else count,
                    if b.Some? && b.value.select.Some? then b.value.select.value else count);
  }

  lemma CountIsDefault()
    ensures var count := Select(COUNT, "", "");
            SelectSendable(count) && NormalizeSelect(None) == NormalizeSelect(Some(count)) &&
            TranslateSelect(None) == TranslateSelect(Some(count))
  {
  }

  // ----- No update loop -----

  lemma QueryRoundTrip(query: Option<Query>)
    requires DefaultedQuery(query) && QueryValid(query)
    ensures TranslateQuery(query).Some? && ProjectQuery(StoreQuery(TranslateQuery(query).value)) == query
  {
    if query.Some? {
      var s := query.value.select.value;
      if s.threshold != "" {
        assert FormatFloat(ParseFloat(s.threshold).value) == s.threshold;
      }
    }
  }

  lemma ObjectiveRoundTripIff(o: Objective)
    requires DefaultedObjective(o) && ObjectiveValidUpToPlaces(o)
    ensures TranslateObjective(o).Some?
    ensures ParseFloat(o.target).value.Fin? ==>
              (ProjectObjective(StoreObjective(TranslateObjective(o).value)) == o <==> PlacesValid(o))
  {
    hide NormalizeQuery;
    var n := ParseFloat(o.target).value;
    if n.Fin? {
      TargetRoundTripIff(n);
    }
  }

  lemma TargetRoundTripIff(n: Number)
    requires n.Fin? && Canonical(n)
    ensures FormatFloat(Round(n, 5)) == FormatFloat(n) <==> DecimalPlaces(FormatFloat(n)) <= 5
  {
    hide FormatFloat, DecimalPlaces, Round, ParseFloat;
    RoundIdentityIff(n, 5);
    FormatParses(n);
    FormatParses(Round(n, 5));
  }

  /** An admitted spec comes back from the server unchanged exactly when its target has at most five decimals. */
  lemma RoundTripIff(s: IndicatorSpec)
    requires Defaulted(s) && EventsValid(s) && ObjectivesValidUpToPlaces(s.objectives)
    ensures Translate(s).Some?
    ensures Encodable(Translate(s).value) ==>
              (Project(Store(Translate(s).value)) == s <==> PlacesValid(s.objectives[0]))
  {
    hide ParseFloat, TranslateQuery, ProjectQuery, StoreQuery, QueryValid, TranslateObjective, ProjectObjective,
      StoreObjective, DefaultedQuery, DefaultedObjective, PlacesValid;
    QueryRoundTrip(s.validEvents);
    QueryRoundTrip(s.goodEvents);
    QueryRoundTrip(s.badEvents);
    var o := s.objectives[0];
    ObjectiveRoundTripIff(o);
    TranslatedTarget(o);
    var t := Translate(s).value;
    assert t.objectives == [TranslateObjective(o).value];
    assert Project(Store(t)).objectives == [ProjectObjective(StoreObjective(t.objectives[0]))];
    assert s.objectives == [o];
  }

  lemma TranslatedTarget(o: Objective)
    requires TranslateObjective(o).Some?
    ensures ParseFloat(o.target) == Some(TranslateObjective(o).value.target)
  {
  }
}

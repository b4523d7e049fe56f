/** The ServiceLevel object as the webhook and the reconciler hold it: pointers, written through in place.

    Each method is tied to a function on values; the frames say what memory it may touch. */
module ServiceLevelWebhook {
  import opened Options
  import opened Accounts
  import opened Decimals
  import opened Text
  import S = ServiceLevelSpecs

  class QuerySelect {
    var function_: string
    var attribute: string
    var threshold: string

    constructor (function_: string, attribute: string, threshold: string)
      ensures Value() == S.Select(function_, attribute, threshold)
    {
      this.function_, this.attribute, this.threshold := function_, attribute, threshold;
    }

    ghost function Value(): S.Select
      reads this
    {
      S.Select(function_, attribute, threshold)
    }
  }

  class EventsQuery {
    var from: string
    var where: string
    var select: QuerySelect?

    constructor (from: string, where: string, select: QuerySelect?)
      ensures this.from == from && this.where == where && this.select == select
    {
      this.from, this.where, this.select := from, where, select;
    }

    ghost function Value(): S.Query
      reads this, select
    {
      S.Query(from, where, if select == null then None else Some(select.Value()))
    }
  }

  /** The objects behind a query pointer. */
  ghost function Repr(query: EventsQuery?): set<object>
    reads query
  {
    if query == null then {} else if query.select == null then {query} else {query, query.select}
  }

  ghost function QueryValue(query: EventsQuery?): Option<S.Query>
    reads query, Repr(query)
  {
    if query == null then None else Some(query.Value())
  }

  datatype AdmissionError =
    | AccountIdRequired
    | KeyRequired
    | OneKeyOnly
    | SecretIncomplete
    | RegionUnknown
    | NameRequired
    | EntityGuidRequired
    | ValidEventsRequired
    | GoodAndBadEvents
    | GoodOrBadRequired
    | FromRequired
    | AttributeNotAllowed
    | AttributeRequired
    | ThresholdRequired
    | FunctionUnknown
    | ThresholdNotAllowed
    | ThresholdNotDecimal
    | ObjectiveRequired
    | TooManyObjectives
    | TargetNotDecimal(i: nat)
    | TargetOutOfRange(i: nat)
    | TargetTooPrecise(i: nat)
    | CountUnknown(i: nat)
    | UnitUnknown(i: nat)
    | EntityGuidImmutable
    | AccountIdImmutable
    | RegionImmutable

  method ValidateEventsQuery(query: EventsQuery?) returns (errors: seq<AdmissionError>)
    ensures errors == [] <==> S.QueryValid(QueryValue(query))
  {
    hide ParseFloat;
    errors := [];
    if query == null {
      return;
    }
    if query.from == "" {
      errors := errors + [FromRequired];
    }
    if query.select == null {
      return;
    }
    var function_, attribute, threshold := query.select.function_, query.select.attribute, query.select.threshold;
    if function_ == S.COUNT {
      if attribute != "" {
        errors := errors + [AttributeNotAllowed];
      }
    } else if function_ == S.SUM || function_ == S.GET_FIELD {
      if attribute == "" {
        errors := errors + [AttributeRequired];
      }
    } else if function_ == S.GET_CDF_COUNT {
      if attribute == "" {
        errors := errors + [AttributeRequired];
      }
      if threshold == "" {
        errors := errors + [ThresholdRequired];
      }
    } else {
      errors := errors + [FunctionUnknown];
    }
    if function_ != S.GET_CDF_COUNT && threshold != "" {
      errors := errors + [ThresholdNotAllowed];
    }
    if threshold != "" {
      if ParseFloat(threshold).None? {
        errors := errors + [ThresholdNotDecimal];
      }
    }
  }

  method ApplyEventsQueryDefaults(query: EventsQuery?)
    modifies Repr(query)
    ensures QueryValue(query) == S.DefaultQuery(old(QueryValue(query)))
    ensures fresh(Repr(query) - old(Repr(query)))
  {
    if query == null {
      return;
    }
    query.from := TrimSpace(query.from);
    query.where := TrimSpace(query.where);
    if query.select == null {
      query.select := new QuerySelect(S.COUNT, "", "");
      return;
    }
    if query.select.function_ == "" {
      query.select.function_ := S.COUNT;
    }
    if query.select.threshold != "" {
      query.select.threshold := NormalizeDecimal(query.select.threshold);
    }
  }

  method ApplyEventsDefaults(validEvents: EventsQuery?, goodEvents: EventsQuery?, badEvents: EventsQuery?)
    requires Repr(validEvents) !! Repr(goodEvents) !! Repr(badEvents)
    modifies Repr(validEvents), Repr(goodEvents), Repr(badEvents)
    ensures QueryValue(validEvents) == S.DefaultQuery(old(QueryValue(validEvents)))
    ensures QueryValue(goodEvents) == S.DefaultQuery(old(QueryValue(goodEvents)))
    ensures QueryValue(badEvents) == S.DefaultQuery(old(QueryValue(badEvents)))
    ensures Repr(validEvents) !! Repr(goodEvents) !! Repr(badEvents)
    ensures fresh(Repr(validEvents) - old(Repr(validEvents)))
    ensures fresh(Repr(goodEvents) - old(Repr(goodEvents)))
    ensures fresh(Repr(badEvents) - old(Repr(badEvents)))
  {
    hide S.DefaultQuery, QueryValue;
    ApplyEventsQueryDefaults(validEvents);
    ApplyEventsQueryDefaults(goodEvents);
    ApplyEventsQueryDefaults(badEvents);
  }

  /** Returns the query in canonical form, in memory of its own. */
  method NormalizeEventsQuery(query: EventsQuery?) returns (normalized: EventsQuery?)
    ensures QueryValue(normalized) == S.NormalizeQuery(QueryValue(query))
    ensures fresh(Repr(normalized))
  {
    if query == null {
      return null;
    }
    normalized := new EventsQuery(TrimSpace(query.from), TrimSpace(query.where), query.select);
    if normalized.select == null {
      normalized.select := new QuerySelect(S.COUNT, "", "");
      return;
    }
    var sel := new QuerySelect(query.select.function_, query.select.attribute, query.select.threshold);
    if sel.function_ == "" {
      sel.function_ := S.COUNT;
    }
    if sel.function_ == S.COUNT {
      sel.attribute := "";
    }
    if sel.function_ == S.GET_CDF_COUNT {
      sel.threshold := NormalizeDecimal(sel.threshold);
    } else {
      sel.threshold := "";
    }
    normalized.select := sel;
  }

  method NormalizeEvents(validEvents: EventsQuery?, goodEvents: EventsQuery?, badEvents: EventsQuery?)
    returns (v: EventsQuery?, g: EventsQuery?, b: EventsQuery?)
    ensures QueryValue(v) == S.NormalizeQuery(QueryValue(validEvents))
    ensures QueryValue(g) == S.NormalizeQuery(QueryValue(goodEvents))
    ensures QueryValue(b) == S.NormalizeQuery(QueryValue(badEvents))
    ensures fresh(Repr(v)) && fresh(Repr(g)) && fresh(Repr(b))
    ensures Repr(v) !! Repr(g) !! Repr(b)
  {
    hide S.NormalizeQuery;
    v := NormalizeEventsQuery(validEvents);
    g := NormalizeEventsQuery(goodEvents);
    b := NormalizeEventsQuery(badEvents);
  }

  method DefaultObjectives(objectives: array<S.Objective>)
    modifies objectives
    ensures objectives[..] == S.MapObjectives(S.DefaultObjective, old(objectives[..]))
  {
    hide NormalizeDecimal, TrimSpace;
    for i := 0 to objectives.Length
      invariant forall k :: 0 <= k < i ==> objectives[k] == S.DefaultObjective(old(objectives[k]))
      invariant forall k :: i <= k < objectives.Length ==> objectives[k] == old(objectives[k])
    {
      var obj := objectives[i];
      obj := obj.(name := TrimSpace(obj.name), description := TrimSpace(obj.description));
      obj := obj.(target := NormalizeDecimal(obj.target));
      if obj.unit == "" {
        obj := obj.(unit := S.DAY);
      }
      objectives[i] := obj;
    }
  }

  /** Copies before touching anything. */
  method NormalizeObjectives(objectives: array<S.Objective>) returns (normalized: array<S.Objective>)
    ensures fresh(normalized)
    ensures normalized[..] == S.MapObjectives(S.NormalizeObjective, objectives[..])
  {
    hide NormalizeDecimal, TrimSpace;
    normalized := new S.Objective[objectives.Length](
      i requires 0 <= i < objectives.Length reads objectives => objectives[i]);
    for i := 0 to normalized.Length
      modifies normalized
      invariant forall k :: 0 <= k < i ==> normalized[k] == S.NormalizeObjective(objectives[k])
      invariant forall k :: i <= k < normalized.Length ==> normalized[k] == objectives[k]
    {
      var obj := normalized[i];
      obj := obj.(name := TrimSpace(obj.name), description := TrimSpace(obj.description));
      normalized[i] := obj.(target := NormalizeDecimal(obj.target));
    }
  }

  /** An indicator spec with its events behind pointers and its objectives in an array. */
  class Indicator {
    var name: string
    var description: string
    var validEvents: EventsQuery?
    var goodEvents: EventsQuery?
    var badEvents: EventsQuery?
    var objectives: array<S.Objective>

    constructor (name: string, description: string, validEvents: EventsQuery?, goodEvents: EventsQuery?,
                 badEvents: EventsQuery?, objectives: array<S.Objective>)
      ensures this.name == name && this.description == description && this.objectives == objectives
      ensures this.validEvents == validEvents && this.goodEvents == goodEvents && this.badEvents == badEvents
      ensures Repr(validEvents) !! Repr(goodEvents) !! Repr(badEvents) ==> Valid()
      ensures Value() == S.IndicatorSpec(name, description, QueryValue(validEvents), QueryValue(goodEvents),
                                         QueryValue(badEvents), objectives[..])
    {
      this.name, this.description, this.objectives := name, description, objectives;
      this.validEvents, this.goodEvents, this.badEvents := validEvents, goodEvents, badEvents;
    }

    /** The memory reachable from the indicator, without the object itself. */
    ghost function Reach(): set<object>
      reads this, validEvents, goodEvents, badEvents
    {
      Repr(validEvents) + Repr(goodEvents) + Repr(badEvents) + {objectives}
    }

    /** A decoded object shares no memory between its fields. */
    ghost predicate Valid()
      reads this, validEvents, goodEvents, badEvents
    {
      Repr(validEvents) !! Repr(goodEvents) !! Repr(badEvents) && this !in Reach()
    }

    ghost function Value(): S.IndicatorSpec
      reads this, validEvents, goodEvents, badEvents, Reach()
    {
      S.IndicatorSpec(name, description, QueryValue(validEvents), QueryValue(goodEvents), QueryValue(badEvents),
                      objectives[..])
    }

    method ApplyDefaults()
      requires Valid()
      modifies this, Reach()
      ensures Valid() && fresh(Reach() - old(Reach()))
      ensures Value() == S.DefaultIndicator(old(Value()))
    {
      hide TrimSpace, S.DefaultQuery, S.DefaultObjective, QueryValue;
      name := TrimSpace(name);
      description := TrimSpace(description);
      ApplyEventsDefaults(validEvents, goodEvents, badEvents);
      DefaultObjectives(objectives);
    }

    method NormalizeFields()
      returns (v: EventsQuery?, g: EventsQuery?, b: EventsQuery?, normalized: array<S.Objective>)
      ensures QueryValue(v) == S.NormalizeQuery(old(QueryValue(validEvents)))
      ensures QueryValue(g) == S.NormalizeQuery(old(QueryValue(goodEvents)))
      ensures QueryValue(b) == S.NormalizeQuery(old(QueryValue(badEvents)))
      ensures normalized[..] == S.MapObjectives(S.NormalizeObjective, old(objectives[..]))
      ensures fresh(Repr(v)) && fresh(Repr(g)) && fresh(Repr(b)) && fresh(normalized)
      ensures Repr(v) !! Repr(g) !! Repr(b)
    {
      hide S.NormalizeQuery, S.NormalizeObjective, S.MapObjectives;
      normalized := NormalizeObjectives(objectives);
      v, g, b := NormalizeEvents(validEvents, goodEvents, badEvents);
    }

    /** The canonical form. Nothing reachable from this indicator is written or shared. */
    method Normalize() returns (n: Indicator)
      requires Valid()
      ensures fresh(n) && fresh(n.Reach()) && n.Valid()
      ensures n.Value() == S.NormalizeIndicator(old(Value()))
    {
      hide TrimSpace, S.NormalizeQuery, S.NormalizeObjective, S.MapObjectives, QueryValue;
      var v, g, b, normalized := NormalizeFields();
      n := new Indicator(TrimSpace(name), TrimSpace(description), v, g, b, normalized);
    }
  }

  class ServiceLevel {
    var apiKey: string
    var apiKeySecret: Secret
    var region: string
    var accountId: int
    var entityGuid: string
    const indicator: Indicator

    constructor (spec: S.ServiceLevelSpec, indicator: Indicator)
      requires indicator.Valid() && spec.indicator == indicator.Value()
      ensures this.indicator == indicator && Spec() == spec
    {
      this.indicator := indicator;
      apiKey, apiKeySecret, region := spec.apiKey, spec.apiKeySecret, spec.region;
      accountId, entityGuid := spec.accountId, spec.entityGuid;
    }

    ghost function Spec(): S.ServiceLevelSpec
      reads this, indicator, indicator.validEvents, indicator.goodEvents, indicator.badEvents, indicator.Reach()
    {
      S.ServiceLevelSpec(apiKey, apiKeySecret, region, accountId, entityGuid, indicator.Value())
    }

    method ApplyDefaults(config: AccountDefaults)
      requires indicator.Valid() && this as object !in indicator.Reach()
      modifies this, indicator, indicator.Reach()
      ensures indicator.Valid() && fresh(indicator.Reach() - old(indicator.Reach()))
      ensures Spec() == S.ApplyDefaults(old(Spec()), config.defaultAccountId)
      ensures unchanged(config)
    {
      hide S.DefaultIndicator, Indicator.Value;
      if accountId == 0 && config.defaultAccountId > 0 {
        accountId := config.defaultAccountId;
      }
      if region == "" {
        region := "US";
      }
      indicator.ApplyDefaults();
    }

    // ----- Validation -----

    method ValidateAPIKeyOrSecret() returns (errors: seq<AdmissionError>)
      ensures errors == [] <==> accountId > 0 && KeyConfigured(apiKey, apiKeySecret)
    {
      errors := [];
      var apiKeySet, apiKeySecretSet := apiKey != "", apiKeySecret != NO_SECRET;
      if !(accountId > 0) {
        errors := errors + [AccountIdRequired];
      }
      if !apiKeySet && !apiKeySecretSet {
        errors := errors + [KeyRequired];
      } else if apiKeySet && apiKeySecretSet {
        errors := errors + [OneKeyOnly];
      }
      if apiKeySecretSet {
        if apiKeySecret.name == "" || apiKeySecret.namespace == "" || apiKeySecret.keyName == "" {
          errors := errors + [SecretIncomplete];
        }
      }
    }

    method ValidateServiceLevelSchema() returns (errors: seq<AdmissionError>)
      ensures errors == [] <==> region in {"US", "EU"} && indicator.name != "" && entityGuid != ""
    {
      errors := [];
      if region !in {"US", "EU"} {
        errors := errors + [RegionUnknown];
      }
      if indicator.name == "" {
        errors := errors + [NameRequired];
      }
      if entityGuid == "" {
        errors := errors + [EntityGuidRequired];
      }
    }

    method ValidateEventsSchema() returns (errors: seq<AdmissionError>)
      ensures errors == [] <==> S.EventsValid(indicator.Value())
    {
      hide S.QueryValid;
      errors := [];
      if indicator.validEvents == null {
        errors := errors + [ValidEventsRequired];
      }
      if indicator.goodEvents != null && indicator.badEvents != null {
        errors := errors + [GoodAndBadEvents];
      } else if indicator.goodEvents == null && indicator.badEvents == null {
        errors := errors + [GoodOrBadRequired];
      }
      var v := ValidateEventsQuery(indicator.validEvents);
      var g := ValidateEventsQuery(indicator.goodEvents);
      var b := ValidateEventsQuery(indicator.badEvents);
      errors := errors + v + g + b;
    }

    /** Exactly one objective, with a target that New Relic does not round. */
    method ValidateObjectivesSchema() returns (errors: seq<AdmissionError>)
      ensures errors == [] <==>
              S.ObjectivesValidUpToPlaces(indicator.objectives[..]) && S.PlacesValid(indicator.objectives[0])
    {
      hide ParseFloat, S.InRange, DecimalPlaces, NormalizeDecimal;
      errors := [];
      var objectives := indicator.objectives;
      if objectives.Length == 0 {
        errors := errors + [ObjectiveRequired];
        return;
      }
      if objectives.Length > 1 {
        errors := errors + [TooManyObjectives];
      }
      for i := 0 to objectives.Length
        invariant errors == [] <==>
                  objectives.Length == 1 &&
                  forall k :: 0 <= k < i ==> S.ObjectiveValidUpToPlaces(objectives[k]) && S.PlacesValid(objectives[k])
      {
        var obj := objectives[i];
        var target := ParseFloat(obj.target);
        if target.None? {
          errors := errors + [TargetNotDecimal(i)];
        } else {
          if !S.InRange(target.value) {
            errors := errors + [TargetOutOfRange(i)];
          }
          if DecimalPlaces(NormalizeDecimal(obj.target)) > 5 {
            errors := errors + [TargetTooPrecise(i)];
          }
        }
        if obj.count !in {1, 7, 28} {
          errors := errors + [CountUnknown(i)];
        }
        if obj.unit != S.DAY {
          errors := errors + [UnitUnknown(i)];
        }
      }
    }

    method ValidateImmutableFields(before: ServiceLevel) returns (errors: seq<AdmissionError>)
      ensures errors == [] <==>
              entityGuid == before.entityGuid && accountId == before.accountId && region == before.region
    {
      errors := [];
      if entityGuid != before.entityGuid {
        errors := errors + [EntityGuidImmutable];
      }
      if accountId != before.accountId {
        errors := errors + [AccountIdImmutable];
      }
      if region != before.region {
        errors := errors + [RegionImmutable];
      }
    }

    method ValidateCreate() returns (errors: seq<AdmissionError>)
      ensures errors == [] <==> S.Valid(Spec())
    {
      hide S.EventsValid, S.ObjectiveValidUpToPlaces, S.PlacesValid;
      var key := ValidateAPIKeyOrSecret();
      var schema := ValidateServiceLevelSchema();
      var events := ValidateEventsSchema();
      var objectives := ValidateObjectivesSchema();
      errors := key + schema + events + objectives;
    }

    method ValidateUpdate(before: ServiceLevel) returns (errors: seq<AdmissionError>)
      ensures errors == [] <==> S.Valid(Spec()) && S.ImmutableKept(before.Spec(), Spec())
    {
      hide S.Valid;
      var immutable := ValidateImmutableFields(before);
      var rest := ValidateCreate();
      errors := immutable + rest;
    }
  }
}

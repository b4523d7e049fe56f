/** The ServiceLevel spec as a value: defaults, validation and the normal form used for comparison. */
module ServiceLevelSpecs {
  import opened Options
  import opened Accounts
  import opened Decimals
  import opened Text

  const COUNT := "COUNT"
  const SUM := "SUM"
  const GET_FIELD := "GET_FIELD"
  const GET_CDF_COUNT := "GET_CDF_COUNT"
  const DAY := "DAY"

  datatype Select = Select(function_: string, attribute: string, threshold: string)

  datatype Query = Query(from: string, where: string, select: Option<Select>)

  datatype Objective = Objective(name: string, description: string, target: string, count: int, unit: string)

  /** The part of the spec that round-trips through New Relic. */
  datatype IndicatorSpec = IndicatorSpec(
    name: string, description: string,
    validEvents: Option<Query>, goodEvents: Option<Query>, badEvents: Option<Query>,
    objectives: seq<Objective>)

  datatype ServiceLevelSpec = ServiceLevelSpec(
    apiKey: string, apiKeySecret: Secret, region: string, accountId: int, entityGuid: string,
    indicator: IndicatorSpec)

  // ----- Admission defaults -----

  function DefaultSelect(select: Option<Select>): Select {
    match select
    case None => Select(COUNT, "", "")
    case Some(s) =>
      Select(if s.function_ == "" then COUNT else s.function_, s.attribute,
             if s.threshold != "" then NormalizeDecimal(s.threshold) else "")
  }

  function DefaultQuery(query: Option<Query>): Option<Query> {
    match query
    case None => None
    case Some(q) => Some(Query(TrimSpace(q.from), TrimSpace(q.where), Some(DefaultSelect(q.select))))
  }

  function DefaultObjective(o: Objective): Objective {
    Objective(TrimSpace(o.name), TrimSpace(o.description), NormalizeDecimal(o.target), o.count,
              if o.unit == "" then DAY else o.unit)
  }

  function MapObjectives(f: Objective -> Objective, os: seq<Objective>): (r: seq<Objective>)
    ensures |r| == |os| && forall i :: 0 <= i < |os| ==> r[i] == f(os[i])
  {
    seq(|os|, i requires 0 <= i < |os| => f(os[i]))
  }

  function DefaultIndicator(s: IndicatorSpec): IndicatorSpec {
    IndicatorSpec(TrimSpace(s.name), TrimSpace(s.description), DefaultQuery(s.validEvents),
                  DefaultQuery(s.goodEvents), DefaultQuery(s.badEvents),
                  MapObjectives(DefaultObjective, s.objectives))
  }

  function ApplyDefaults(s: ServiceLevelSpec, operatorDefault: int): ServiceLevelSpec {
    s.(accountId := DefaultAccount(s.accountId, operatorDefault),
       region := if s.region == "" then "US" else s.region,
       indicator := DefaultIndicator(s.indicator))
  }

  // ----- Validation -----

  predicate SelectValid(s: Select) {
    && (s.function_ == COUNT ==> s.attribute == "")
    && (s.function_ in {SUM, GET_FIELD} ==> s.attribute != "")
    && (s.function_ == GET_CDF_COUNT ==> s.attribute != "" && s.threshold != "")
    && s.function_ in {COUNT, SUM, GET_FIELD, GET_CDF_COUNT}
    && (s.function_ != GET_CDF_COUNT ==> s.threshold == "")
    && (s.threshold != "" ==> ParseFloat(s.threshold).Some?)
  }

  predicate QueryValid(query: Option<Query>) {
    query.Some? ==> query.value.from != "" && (query.value.select.Some? ==> SelectValid(query.value.select.value))
  }

  predicate EventsValid(s: IndicatorSpec) {
    s.validEvents.Some? && (s.goodEvents.Some? <==> s.badEvents.None?) &&
    QueryValid(s.validEvents) && QueryValid(s.goodEvents) && QueryValid(s.badEvents)
  }

  /** NaN is neither below 0 nor above 100, so the range test lets it through. */
  predicate InRange(n: Number) {
    match n
    case NaN => true
    case Inf(_) => false
    case Fin(neg, coeff, exp) =>
      if neg then coeff == 0
      else if exp >= 0 then coeff * Pow10(exp) <= 100 else coeff <= 100 * Pow10(-exp)
  }

  lemma InRangeIff(n: Number)
    requires n.Fin?
    ensures InRange(n) <==> 0.0 <= Value(n) <= 100.0
  {
    if n.exp < 0 {
      AtMostHundred(n.coeff, Pow10(-n.exp));
    }
    MagnitudePositive(n.coeff, n.exp);
  }

  lemma AtMostHundred(c: nat, p: nat)
    requires p > 0
    ensures c as real / p as real <= 100.0 <==> c <= 100 * p
  {
    var q := p as real;
    assert (100 * p) as real == 100.0 * q;
    QuotientAtMost(c as real, q, 100.0);
  }

  lemma QuotientAtMost(c: real, q: real, bound: real)
    requires q > 0.0
    ensures c / q <= bound <==> c <= bound * q
  {
    var x := c / q;
    assert x * q == c;
    if x <= bound {
      assert (bound - x) * q >= 0.0;
    } else {
      assert (x - bound) * q > 0.0;
    }
  }

  predicate PlacesValid(o: Objective) { DecimalPlaces(NormalizeDecimal(o.target)) <= 5 }

  predicate WindowValid(o: Objective) { o.count in {1, 7, 28} && o.unit == DAY }

  /** Everything ValidateObjectivesSchema asks except the limit on decimal places. */
  predicate ObjectiveValidUpToPlaces(o: Objective) {
    ParseFloat(o.target).Some? && InRange(ParseFloat(o.target).value) && WindowValid(o)
  }

  predicate ObjectivesValidUpToPlaces(os: seq<Objective>) {
    |os| == 1 && ObjectiveValidUpToPlaces(os[0])
  }

  /** A target is accepted exactly when it is not a number at all, or lies between 0 and 100 and
      is a whole number of hundred-thousandths. */
  lemma TargetAcceptedIff(o: Objective, n: Number)
    requires ParseFloat(o.target) == Some(n) && WindowValid(o)
    ensures ObjectiveValidUpToPlaces(o) && PlacesValid(o) <==>
              n.NaN? ||
              (n.Fin? && 0.0 <= Value(n) <= 100.0 && IsWhole(Magnitude(n.coeff, n.exp) * 100000.0))
  {
    hide ParseFloat;
    assert PlacesValid(o) <==> DecimalPlaces(FormatFloat(n)) <= 5;
    if n.Fin? {
      FiniteAcceptedIff(n);
    } else if n.NaN? {
      NaNPlaces();
    }
  }

  lemma NaNPlaces()
    ensures DecimalPlaces(FormatFloat(NaN)) == 0
  {
    IndexOfIs("NaN", '.', 3);
  }

  lemma FiniteAcceptedIff(n: Number)
    requires n.Fin? && Canonical(n)
    ensures InRange(n) && DecimalPlaces(FormatFloat(n)) <= 5 <==>
            0.0 <= Value(n) <= 100.0 && IsWhole(Magnitude(n.coeff, n.exp) * 100000.0)
  {
    hide Magnitude, DecimalPlaces, InRange, FormatFloat, IsWhole, Value;
    InRangeIff(n);
    FivePlaces(n);
  }

  predicate KeysValid(s: ServiceLevelSpec) {
    && s.accountId > 0
    && KeyConfigured(s.apiKey, s.apiKeySecret)
  }

  predicate SchemaValid(s: ServiceLevelSpec) {
    s.region in {"US", "EU"} && s.indicator.name != "" && s.entityGuid != ""
  }

  predicate ValidUpToPlaces(s: ServiceLevelSpec) {
    KeysValid(s) && SchemaValid(s) && EventsValid(s.indicator) && ObjectivesValidUpToPlaces(s.indicator.objectives)
  }

  /** What ValidateCreate accepts. */
  predicate Valid(s: ServiceLevelSpec) {
    ValidUpToPlaces(s) && PlacesValid(s.indicator.objectives[0])
  }

  predicate ImmutableKept(old_: ServiceLevelSpec, new_: ServiceLevelSpec) {
    new_.entityGuid == old_.entityGuid && new_.accountId == old_.accountId && new_.region == old_.region
  }

  // ----- Normal form -----

  function NormalizeSelect(select: Option<Select>): Select {
    match select
    case None => Select(COUNT, "", "")
    case Some(s) =>
      var f := if s.function_ == "" then COUNT else s.function_;
      Select(f, if f == COUNT then "" else s.attribute,
             if f == GET_CDF_COUNT then NormalizeDecimal(s.threshold) else "")
  }

  function NormalizeQuery(query: Option<Query>): Option<Query> {
    match query
    case None => None
    case Some(q) => Some(Query(TrimSpace(q.from), TrimSpace(q.where), Some(NormalizeSelect(q.select))))
  }

  function NormalizeObjective(o: Objective): Objective {
    o.(name := TrimSpace(o.name), description := TrimSpace(o.description), target := NormalizeDecimal(o.target))
  }

  function NormalizeIndicator(s: IndicatorSpec): IndicatorSpec {
    IndicatorSpec(TrimSpace(s.name), TrimSpace(s.description), NormalizeQuery(s.validEvents),
                  NormalizeQuery(s.goodEvents), NormalizeQuery(s.badEvents),
                  MapObjectives(NormalizeObjective, s.objectives))
  }

  // ----- Admission produces a fixed point of both -----

  /** In the form that defaulting leaves: trimmed, decimals in normal form, selects filled in. */
  predicate DefaultedSelect(s: Select) {
    s.function_ != "" && (s.threshold != "" ==> NormalizeDecimal(s.threshold) == s.threshold)
  }

  predicate DefaultedQuery(query: Option<Query>) {
    query.Some? ==> Trimmed(query.value.from) && Trimmed(query.value.where) &&
                    query.value.select.Some? && DefaultedSelect(query.value.select.value)
  }

  predicate DefaultedObjective(o: Objective) {
    Trimmed(o.name) && Trimmed(o.description) && NormalizeDecimal(o.target) == o.target && o.unit != ""
  }

  predicate Defaulted(s: IndicatorSpec) {
    Trimmed(s.name) && Trimmed(s.description) &&
    DefaultedQuery(s.validEvents) && DefaultedQuery(s.goodEvents) && DefaultedQuery(s.badEvents) &&
    forall i :: 0 <= i < |s.objectives| ==> DefaultedObjective(s.objectives[i])
  }

  lemma QueryFixedIff(query: Option<Query>)
    ensures DefaultQuery(query) == query <==> DefaultedQuery(query)
  {
    if query.Some? {
      TrimSpaceFixedIff(query.value.from);
      TrimSpaceFixedIff(query.value.where);
    }
  }

  lemma ObjectiveFixedIff(o: Objective)
    ensures DefaultObjective(o) == o <==> DefaultedObjective(o)
  {
    TrimSpaceFixedIff(o.name);
    TrimSpaceFixedIff(o.description);
  }

  /** The specs that defaulting leaves alone are exactly the ones in defaulted form. */
  lemma DefaultFixedIff(s: IndicatorSpec)
    ensures DefaultIndicator(s) == s <==> Defaulted(s)
  {
    TrimSpaceFixedIff(s.name);
    TrimSpaceFixedIff(s.description);
    QueryFixedIff(s.validEvents);
    QueryFixedIff(s.goodEvents);
    QueryFixedIff(s.badEvents);
    forall i | 0 <= i < |s.objectives|
      ensures DefaultObjective(s.objectives[i]) == s.objectives[i] <==> DefaultedObjective(s.objectives[i])
    {
      ObjectiveFixedIff(s.objectives[i]);
    }
    var d := DefaultIndicator(s).objectives;
    assert d == s.objectives <==> forall i :: 0 <= i < |d| ==> d[i] == s.objectives[i];
  }

  lemma DefaultQueryDefaulted(query: Option<Query>)
    ensures DefaultedQuery(DefaultQuery(query))
  {
    if query.Some? {
      TrimSpaceTrimmed(query.value.from);
      TrimSpaceTrimmed(query.value.where);
      if query.value.select.Some? {
        NormalizeIdempotent(query.value.select.value.threshold);
      }
    }
  }

  lemma DefaultObjectiveDefaulted(o: Objective)
    ensures DefaultedObjective(DefaultObjective(o))
  {
    TrimSpaceTrimmed(o.name);
    TrimSpaceTrimmed(o.description);
    NormalizeIdempotent(o.target);
  }

  lemma DefaultDefaulted(s: IndicatorSpec)
    ensures Defaulted(DefaultIndicator(s))
  {
    TrimSpaceTrimmed(s.name);
    TrimSpaceTrimmed(s.description);
    DefaultQueryDefaulted(s.validEvents);
    DefaultQueryDefaulted(s.goodEvents);
    DefaultQueryDefaulted(s.badEvents);
    forall i | 0 <= i < |s.objectives|
      ensures DefaultedObjective(DefaultIndicator(s).objectives[i])
    {
      DefaultObjectiveDefaulted(s.objectives[i]);
    }
  }

  /** Defaulting again, possibly under another operator default, changes nothing
      exactly when the account is already set or there is no default to take. */
  lemma ApplyDefaultsAgainIff(s: ServiceLevelSpec, first: int, second: int)
    ensures ApplyDefaults(ApplyDefaults(s, first), second) == ApplyDefaults(s, first) <==>
            ApplyDefaults(s, first).accountId != 0 || second <= 0
  {
    DefaultDefaulted(s.indicator);
    DefaultFixedIff(DefaultIndicator(s.indicator));
  }

  lemma ApplyDefaultsIdempotent(s: ServiceLevelSpec, operatorDefault: int)
    ensures ApplyDefaults(ApplyDefaults(s, operatorDefault), operatorDefault) == ApplyDefaults(s, operatorDefault)
  {
    ApplyDefaultsAgainIff(s, operatorDefault, operatorDefault);
  }

  function FillUnit(o: Objective): Objective { if o.unit == "" then o.(unit := DAY) else o }

  lemma DefaultKeepsQuery(query: Option<Query>)
    ensures NormalizeQuery(DefaultQuery(query)) == NormalizeQuery(query)
  {
    hide TrimSpace, NormalizeDecimal;
    if query.Some? {
      TrimTwice(query.value.from);
      TrimTwice(query.value.where);
      if query.value.select.Some? {
        NormalizeIdempotent(query.value.select.value.threshold);
        BlankIsNoDecimal();
      }
    }
  }

  lemma BlankIsNoDecimal()
    ensures NormalizeDecimal("") == ""
  {
  }

  lemma TrimTwice(s: string)
    ensures TrimSpace(TrimSpace(s)) == TrimSpace(s)
  {
    TrimSpaceTrimmed(s);
    TrimSpaceFixedIff(TrimSpace(s));
  }

  /** Admission changes nothing that the comparison sees, but for the units it fills in. */
  lemma DefaultKeepsNormalForm(s: IndicatorSpec)
    ensures NormalizeIndicator(DefaultIndicator(s)) ==
            NormalizeIndicator(s.(objectives := MapObjectives(FillUnit, s.objectives)))
  {
    hide TrimSpace, NormalizeDecimal, DefaultQuery, NormalizeQuery;
    TrimTwice(s.name);
    TrimTwice(s.description);
    DefaultKeepsQuery(s.validEvents);
    DefaultKeepsQuery(s.goodEvents);
    DefaultKeepsQuery(s.badEvents);
    var a, b := NormalizeIndicator(DefaultIndicator(s)).objectives,
                NormalizeIndicator(s.(objectives := MapObjectives(FillUnit, s.objectives))).objectives;
    forall i | 0 <= i < |s.objectives|
      ensures a[i] == b[i]
    {
      TrimTwice(s.objectives[i].name);
      TrimTwice(s.objectives[i].description);
      NormalizeIdempotent(s.objectives[i].target);
    }
    assert a == b;
  }

  /** What is left out is taken as if it had been written. */
  lemma OmittedMeansDefault(s: ServiceLevelSpec, operatorDefault: int)
    ensures ApplyDefaults(s.(region := ""), operatorDefault) == ApplyDefaults(s.(region := "US"), operatorDefault)
    ensures ApplyDefaults(s.(accountId := 0), operatorDefault).accountId ==
            if operatorDefault > 0 then operatorDefault else 0
    ensures forall o: Objective :: DefaultObjective(o.(unit := "")) == DefaultObjective(o.(unit := DAY))
    ensures forall q: Query ::
              DefaultQuery(Some(q.(select := None))) == DefaultQuery(Some(q.(select := Some(Select(COUNT, "", "")))))
  {
    hide TrimSpace, NormalizeDecimal, DefaultIndicator;
  }

  lemma QueryAgree(query: Option<Query>)
    requires DefaultedQuery(query) && QueryValid(query)
    ensures NormalizeQuery(query) == query
  {
    QueryFixedIff(query);
  }

  /** Whatever admission defaults and then accepts is already in the normal form of the comparison. */
  lemma AdmittedIsNormal(raw: ServiceLevelSpec, operatorDefault: int)
    requires ValidUpToPlaces(ApplyDefaults(raw, operatorDefault))
    ensures var s := ApplyDefaults(raw, operatorDefault).indicator; NormalizeIndicator(s) == s
  {
    var s := ApplyDefaults(raw, operatorDefault).indicator;
    DefaultDefaulted(raw.indicator);
    DefaultedIsNormal(s);
  }

  lemma DefaultedIsNormal(s: IndicatorSpec)
    requires Defaulted(s) && EventsValid(s)
    ensures NormalizeIndicator(s) == s
  {
    DefaultFixedIff(s);
    QueryAgree(s.validEvents);
    QueryAgree(s.goodEvents);
    QueryAgree(s.badEvents);
    var n := NormalizeIndicator(s).objectives;
    forall i | 0 <= i < |n|
      ensures n[i] == s.objectives[i]
    {
      ObjectiveFixedIff(s.objectives[i]);
    }
  }
}

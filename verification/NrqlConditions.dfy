/** NRQL alert conditions: the spec, the create and update inputs, and the projection of a remote condition. */
module NrqlConditions {
  import opened Options
  import opened Accounts
  import opened Decimals

  datatype NrqlQuery = NrqlQuery(query: string, dataAccountId: Option<int>, evaluationOffset: Option<int>)

  datatype Term = Term(
    operator: string, priority: string, threshold: string, thresholdDuration: int, thresholdOccurrences: string,
    disableHealthStatusReporting: Option<bool>)

  datatype Expiration = Expiration(duration: Option<int>, close: bool, open: bool, ignore: bool)

  datatype Signal = Signal(
    aggregationWindow: Option<int>, evaluationOffset: Option<int>, evaluationDelay: Option<int>,
    fillOption: Option<string>, fillValue: Option<Number>, aggregationMethod: Option<string>,
    aggregationDelay: Option<int>, aggregationTimer: Option<int>, slideBy: Option<int>)

  datatype ConditionSpec = ConditionSpec(
    description: string, apiKey: string, apiKeySecret: Secret, accountId: int, existingPolicyId: string, id: int,
    enabled: bool, region: string, name: string, nrql: NrqlQuery, runbookUrl: string, terms: seq<Term>,
    kind: string, violationTimeLimit: string, violationTimeLimitSeconds: int, expiration: Option<Expiration>,
    signal: Option<Signal>, titleTemplate: Option<string>, baselineDirection: Option<string>)

  const STATIC := "STATIC"
  const BASELINE := "BASELINE"

  // ----- The API types -----

  datatype RemoteTerm = RemoteTerm(
    operator: string, priority: string, threshold: Number, thresholdDuration: int, thresholdOccurrences: string,
    disableHealthStatusReporting: Option<bool>)

  datatype CreateInput = CreateInput(
    description: string, enabled: bool, name: string, nrql: NrqlQuery, runbookUrl: string,
    violationTimeLimit: string, violationTimeLimitSeconds: int, baselineDirection: Option<string>,
    expiration: Option<Expiration>, signal: Option<Signal>, terms: seq<RemoteTerm>, titleTemplate: Option<string>)

  datatype UpdateInput = UpdateInput(
    description: string, enabled: bool, name: string, nrql: NrqlQuery, runbookUrl: string,
    violationTimeLimit: string, violationTimeLimitSeconds: int, baselineDirection: Option<string>,
    expiration: Option<Expiration>, signal: Option<Signal>, terms: seq<RemoteTerm>, titleTemplate: Option<string>)

  /** A condition as New Relic holds it, without its ID. */
  datatype Content = Content(
    description: string, enabled: bool, name: string, nrql: NrqlQuery, runbookUrl: string, terms: seq<RemoteTerm>,
    kind: string, violationTimeLimit: string, violationTimeLimitSeconds: int, expiration: Option<Expiration>,
    signal: Option<Signal>, titleTemplate: Option<string>, baselineDirection: Option<string>)

  /** The mutations echo their input; which of the two mutations was called decides the type. */
  function Created(input: CreateInput, kind: string): Content {
    Content(input.description, input.enabled, input.name, input.nrql, input.runbookUrl, input.terms, kind,
            input.violationTimeLimit, input.violationTimeLimitSeconds, input.expiration, input.signal,
            input.titleTemplate, input.baselineDirection)
  }

  function Updated(input: UpdateInput, kind: string): Content {
    Content(input.description, input.enabled, input.name, input.nrql, input.runbookUrl, input.terms, kind,
            input.violationTimeLimit, input.violationTimeLimitSeconds, input.expiration, input.signal,
            input.titleTemplate, input.baselineDirection)
  }

  // ----- What a spec denotes -----

  /** The mutation chosen for a condition: everything that is not STATIC is sent as a baseline. */
  function KindSent(spec: ConditionSpec): string { if spec.kind == STATIC then STATIC else BASELINE }

  /** The source dereferences a nil result for a condition that is neither static nor has a direction. */
  predicate Dispatchable(spec: ConditionSpec) { spec.kind == STATIC || spec.baselineDirection.Some? }

  /** A threshold that does not parse is logged and sent as zero. */
  function ThresholdSent(threshold: string): Number {
    var n := ParseFloat(threshold);
    if n.Some? then n.value else ZERO
  }

  function TermSent(t: Term): RemoteTerm {
    RemoteTerm(t.operator, t.priority, ThresholdSent(t.threshold), t.thresholdDuration, t.thresholdOccurrences,
               t.disableHealthStatusReporting)
  }

  function TermsSent(ts: seq<Term>): (r: seq<RemoteTerm>)
    ensures |r| == |ts| && forall i :: 0 <= i < |ts| ==> r[i] == TermSent(ts[i])
  {
    seq(|ts|, i requires 0 <= i < |ts| => TermSent(ts[i]))
  }

  /** The remote condition a spec asks for. */
  function Denote(spec: ConditionSpec): (c: Content)
    ensures c.name == spec.name && (c.kind == STATIC <==> spec.kind == STATIC)
  {
    Content(spec.description, spec.enabled, spec.name, spec.nrql, spec.runbookUrl, TermsSent(spec.terms),
            KindSent(spec), spec.violationTimeLimit, spec.violationTimeLimitSeconds, spec.expiration, spec.signal,
            spec.titleTemplate, spec.baselineDirection)
  }

  method FetchNrqlCreateInput(spec: ConditionSpec) returns (input: CreateInput)
    ensures Created(input, KindSent(spec)) == Denote(spec)
    ensures input.description == spec.description && input.enabled == spec.enabled && input.name == spec.name &&
            input.nrql == spec.nrql && input.runbookUrl == spec.runbookUrl &&
            input.violationTimeLimit == spec.violationTimeLimit &&
            input.violationTimeLimitSeconds == spec.violationTimeLimitSeconds &&
            input.baselineDirection == spec.baselineDirection && input.expiration == spec.expiration &&
            input.signal == spec.signal && input.titleTemplate == spec.titleTemplate
  {
    hide ThresholdSent;
    var terms := [];
    for i := 0 to |spec.terms|
      invariant |terms| == i && forall k :: 0 <= k < i ==> terms[k] == TermSent(spec.terms[k])
    {
      var t := spec.terms[i];
      terms := terms + [RemoteTerm(t.operator, t.priority, ThresholdSent(t.threshold), t.thresholdDuration,
                                   t.thresholdOccurrences, t.disableHealthStatusReporting)];
    }
    assert terms == TermsSent(spec.terms);
    input := CreateInput(spec.description, spec.enabled, spec.name, spec.nrql, spec.runbookUrl,
                         spec.violationTimeLimit, spec.violationTimeLimitSeconds, spec.baselineDirection,
                         spec.expiration, spec.signal, terms, spec.titleTemplate);
  }

  method FetchNrqlUpdateInput(spec: ConditionSpec) returns (input: UpdateInput)
    ensures Updated(input, KindSent(spec)) == Denote(spec)
    ensures input.description == spec.description && input.enabled == spec.enabled && input.name == spec.name &&
            input.nrql == spec.nrql && input.runbookUrl == spec.runbookUrl &&
            input.violationTimeLimit == spec.violationTimeLimit &&
            input.violationTimeLimitSeconds == spec.violationTimeLimitSeconds &&
            input.baselineDirection == spec.baselineDirection && input.expiration == spec.expiration &&
            input.signal == spec.signal && input.titleTemplate == spec.titleTemplate
  {
    hide ThresholdSent;
    var terms := [];
    for i := 0 to |spec.terms|
      invariant |terms| == i && forall k :: 0 <= k < i ==> terms[k] == TermSent(spec.terms[k])
    {
      var t := spec.terms[i];
      terms := terms + [RemoteTerm(t.operator, t.priority, ThresholdSent(t.threshold), t.thresholdDuration,
                                   t.thresholdOccurrences, t.disableHealthStatusReporting)];
    }
    assert terms == TermsSent(spec.terms);
    input := UpdateInput(spec.description, spec.enabled, spec.name, spec.nrql, spec.runbookUrl,
                         spec.violationTimeLimit, spec.violationTimeLimitSeconds, spec.baselineDirection,
                         spec.expiration, spec.signal, terms, spec.titleTemplate);
  }

  // ----- Projection back to a spec -----

  function ProjectTerm(t: RemoteTerm): Term {
    Term(t.operator, t.priority, FormatFloat(t.threshold), t.thresholdDuration, t.thresholdOccurrences,
         t.disableHealthStatusReporting)
  }

  function ProjectTerms(ts: seq<RemoteTerm>): (r: seq<Term>)
    ensures |r| == |ts| && forall i :: 0 <= i < |ts| ==> r[i] == ProjectTerm(ts[i])
  {
    seq(|ts|, i requires 0 <= i < |ts| => ProjectTerm(ts[i]))
  }

  function Project(c: Content): ConditionSpec {
    ConditionSpec(c.description, "", NO_SECRET, 0, "", 0, c.enabled, "", c.name, c.nrql, c.runbookUrl,
                  ProjectTerms(c.terms), c.kind, c.violationTimeLimit, c.violationTimeLimitSeconds, c.expiration,
                  c.signal, c.titleTemplate, c.baselineDirection)
  }

  method BuildPolicyConditionSpecFromRemote(c: Content) returns (spec: ConditionSpec)
    ensures spec == Project(c)
    ensures spec.description == c.description && spec.enabled == c.enabled && spec.name == c.name &&
            spec.nrql == c.nrql && spec.runbookUrl == c.runbookUrl &&
            spec.violationTimeLimit == c.violationTimeLimit &&
            spec.violationTimeLimitSeconds == c.violationTimeLimitSeconds &&
            spec.baselineDirection == c.baselineDirection && spec.expiration == c.expiration &&
            spec.signal == c.signal && spec.titleTemplate == c.titleTemplate && spec.kind == c.kind
  {
    hide FormatFloat;
    var terms := [];
    for i := 0 to |c.terms|
      invariant |terms| == i && forall k :: 0 <= k < i ==> terms[k] == ProjectTerm(c.terms[k])
    {
      var t := c.terms[i];
      terms := terms + [Term(t.operator, t.priority, FormatFloat(t.threshold), t.thresholdDuration,
                             t.thresholdOccurrences, t.disableHealthStatusReporting)];
    }
    assert terms == ProjectTerms(c.terms);
    spec := ConditionSpec(c.description, "", NO_SECRET, 0, "", 0, c.enabled, "", c.name, c.nrql, c.runbookUrl,
                          terms, c.kind, c.violationTimeLimit, c.violationTimeLimitSeconds, c.expiration,
                          c.signal, c.titleTemplate, c.baselineDirection);
  }

  // ----- Round trips -----

  predicate UnsentFieldsZero(spec: ConditionSpec) {
    spec.apiKey == "" && spec.apiKeySecret == NO_SECRET && spec.accountId == 0 && spec.existingPolicyId == "" &&
    spec.id == 0 && spec.region == ""
  }

  /** Thresholds written in the canonical decimal form. */
  predicate ThresholdsNormal(spec: ConditionSpec) {
    forall i :: 0 <= i < |spec.terms| ==>
                  ParseFloat(spec.terms[i].threshold).Some? &&
                  NormalizeDecimal(spec.terms[i].threshold) == spec.terms[i].threshold
  }

  predicate KindKnown(spec: ConditionSpec) { spec.kind in {STATIC, BASELINE} }

  lemma ThresholdRoundTripIff(threshold: string)
    ensures FormatFloat(ThresholdSent(threshold)) == threshold <==>
            ParseFloat(threshold).Some? && NormalizeDecimal(threshold) == threshold
  {
    hide FormatFloat, ParseFloat;
    FormatParses(ZERO);
  }

  /** Projecting back what a create or an update sends gives the spec itself exactly when its thresholds are
      canonical, its type is a known one, and the fields that are never sent are zero. */
  lemma ConditionRoundTripIff(spec: ConditionSpec)
    ensures Project(Denote(spec)) == spec <==> ThresholdsNormal(spec) && KindKnown(spec) && UnsentFieldsZero(spec)
  {
    hide FormatFloat, ParseFloat, ThresholdSent;
    var back := ProjectTerms(TermsSent(spec.terms));
    forall i | 0 <= i < |spec.terms|
      ensures back[i] == spec.terms[i] <==>
              ParseFloat(spec.terms[i].threshold).Some? &&
              NormalizeDecimal(spec.terms[i].threshold) == spec.terms[i].threshold
    {
      ThresholdRoundTripIff(spec.terms[i].threshold);
    }
    assert back == spec.terms <==> forall i :: 0 <= i < |back| ==> back[i] == spec.terms[i];
  }

  /** What the mutations leave behind: canonical numbers and a known type. */
  predicate WellFormed(c: Content) {
    c.kind in {STATIC, BASELINE} && forall i :: 0 <= i < |c.terms| ==> Canonical(c.terms[i].threshold)
  }

  lemma DenoteWellFormed(spec: ConditionSpec)
    ensures WellFormed(Denote(spec))
  {
    hide ParseFloat;
    forall i | 0 <= i < |spec.terms|
      ensures Canonical(Denote(spec).terms[i].threshold)
    {
      assert Denote(spec).terms[i] == TermSent(spec.terms[i]);
    }
  }

  /** The other way round: a remote condition is denoted by its own projection, so a spec that equals the
      projection asks for what is already there. */
  lemma ProjectionDenotes(c: Content)
    requires WellFormed(c)
    ensures Denote(Project(c)) == c
  {
    hide FormatFloat, ParseFloat;
    forall i | 0 <= i < |c.terms|
      ensures TermSent(ProjectTerm(c.terms[i])) == c.terms[i]
    {
      FormatParses(c.terms[i].threshold);
    }
    assert TermsSent(ProjectTerms(c.terms)) == c.terms;
  }
}

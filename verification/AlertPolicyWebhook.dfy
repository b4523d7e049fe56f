/** Admission of AlertPolicy objects: defaults, validation of creates and updates, and whole histories of both. */
module AlertPolicyWebhook {
  import opened Options
  import opened Accounts
  import Decimals
  import opened NrqlConditions
  import opened Text
  import opened AlertPolicies

  datatype AdmissionError =
    | AccountIdRequired
    | KeyRequired
    | OneKeyOnly
    | SecretIncomplete
    | NameRequired
    | PreferenceUnknown
    | AccountIdImmutable
    | ConditionNameRequired(i: nat)
    | ConditionTypeUnknown(i: nat)
    | DirectionUnknown(i: nat)
    | DirectionRequired(i: nat)
    | DirectionNotAllowed(i: nat)
    | TypeSwitched(i: nat)
    | ConditionsRequired
    | OperatorUnknown(i: nat, t: nat)
    | ThresholdRequired(i: nat, t: nat)
    | PriorityUnknown(i: nat, t: nat)
    | OccurrencesUnknown(i: nat, t: nat)
    | DurationOutOfRange(i: nat, t: nat)
    | DurationNotMultiple(i: nat, t: nat)
    | AggregationMethodUnknown(i: nat)
    | EvaluationOffsetDeprecated(i: nat)
    | TimerNotAllowed(i: nat)
    | DelayRequired(i: nat)
    | DelayTooLong(i: nat)
    | DelayNotAllowed(i: nat)
    | TimerRequired(i: nat)
    | TimerOutOfRange(i: nat)
    | NilDereference(i: nat)

  const DIRECTIONS := {"UPPER_ONLY", "LOWER_ONLY", "UPPER_AND_LOWER"}
  const OPERATORS := {"ABOVE", "ABOVE_OR_EQUALS", "BELOW", "BELOW_OR_EQUALS", "EQUALS", "NOT_EQUALS"}
  const EVENT_FLOW := "EVENT_FLOW"
  const EVENT_TIMER := "EVENT_TIMER"
  const CADENCE := "CADENCE"

  // ----- What is promised -----

  function Defaulted(s: PolicySpec, operatorDefault: int): PolicySpec {
    s.(accountId := DefaultAccount(s.accountId, operatorDefault),
       region := if s.region == "" then "US" else s.region,
       preference := ToUpper(if s.preference == "" then PER_CONDITION else s.preference))
  }

  predicate Multiple(n: int, divisor: int) { divisor != 0 && n % divisor == 0 }

  predicate DurationAcceptable(duration: int, kind: string, signal: Option<Signal>) {
    && (kind == BASELINE ==> 120 <= duration <= 86400)
    && match signal
       case None => Multiple(duration, if kind == BASELINE then 120 else 60)
       case Some(s) => s.aggregationWindow.Some? && Multiple(duration, s.aggregationWindow.value)
  }

  predicate TermAcceptable(t: Term, kind: string, signal: Option<Signal>) {
    && t.operator in OPERATORS
    && t.threshold != ""
    && t.priority in {"CRITICAL", "WARNING"}
    && t.thresholdOccurrences in {"ALL", "AT_LEAST_ONCE"}
    && DurationAcceptable(t.thresholdDuration, kind, signal)
  }

  /** A delay goes with the methods that wait for data, a timer with the one that waits for silence. */
  predicate SignalAcceptable(s: Signal) {
    && s.evaluationOffset.None?
    && s.aggregationMethod.Some?
    && match s.aggregationMethod.value {
         case "EVENT_FLOW" =>
           s.aggregationTimer.None? && s.aggregationDelay.Some? && s.aggregationDelay.value <= 1200
         case "CADENCE" =>
           s.aggregationTimer.None? && s.aggregationDelay.Some? && s.aggregationDelay.value <= 3600
         case "EVENT_TIMER" =>
           s.aggregationDelay.None? && s.aggregationTimer.Some? && 5 <= s.aggregationTimer.value <= 1200
         case _ => false
       }
  }

  predicate ConditionAcceptable(c: ConditionSpec) {
    && c.name != ""
    && (match c.baselineDirection
        case None => c.kind == STATIC
        case Some(d) => c.kind == BASELINE && d in DIRECTIONS)
    && (forall t :: 0 <= t < |c.terms| ==> TermAcceptable(c.terms[t], c.kind, c.signal))
    && (c.signal.Some? ==> SignalAcceptable(c.signal.value))
  }

  predicate PolicyAcceptable(s: PolicySpec) {
    && s.accountId > 0
    && KeyConfigured(s.apiKey, s.apiKeySecret)
    && s.name != ""
    && PreferenceKnown(s.preference)
    && forall i :: 0 <= i < |s.conditions| ==> ConditionAcceptable(s.conditions[i].spec)
  }

  /** A condition does not become static when the first old one of its name is a baseline, or the reverse. */
  predicate KeepsTypes(cs: seq<PolicyCondition>, before: seq<PolicyCondition>) {
    forall i :: 0 <= i < |cs| ==> KeepsType(cs[i].spec, before)
  }

  predicate KeepsType(c: ConditionSpec, before: seq<PolicyCondition>) {
    var k := FirstOfName(before, c.name);
    k < |before| ==> !Switches(c.kind, before[k].spec.kind)
  }

  predicate Switches(a: string, b: string) { (a == BASELINE && b == STATIC) || (a == STATIC && b == BASELINE) }

  function FirstOfName(cs: seq<PolicyCondition>, name: string): (k: nat)
    ensures k <= |cs|
    ensures k < |cs| ==> cs[k].spec.name == name
    ensures forall j :: 0 <= j < k ==> cs[j].spec.name != name
  {
    if cs == [] || cs[0].spec.name == name then 0
    else
      var k := 1 + FirstOfName(cs[1..], name);
      assert forall j :: 1 <= j < k ==> cs[j] == cs[1..][j - 1];
      k
  }

  /** An update the API server lets through. */
  predicate UpdateAcceptable(before: PolicySpec, s: PolicySpec) {
    && PolicyAcceptable(s)
    && (before.accountId != 0 ==> s.accountId == before.accountId)
    && KeepsTypes(s.conditions, before.conditions)
  }

  // ----- One condition -----

  method IsMultiple(input: int, divisor: int) returns (multiple: bool)
    ensures multiple == Multiple(input, divisor)
  {
    if divisor == 0 {
      return false;
    }
    multiple := input % divisor == 0;
  }

  /** Reading a missing aggregation window panics; the submission is not admitted then either. */
  method ValidateDuration(c: ConditionSpec, duration: int, i: nat, t: nat) returns (errors: seq<AdmissionError>)
    ensures errors == [] <==> DurationAcceptable(duration, c.kind, c.signal)
  {
    errors := [];
    if c.kind == BASELINE {
      if duration < 120 || duration > 86400 {
        errors := errors + [DurationOutOfRange(i, t)];
      }
    }
    var window := 60;
    if c.signal.Some? {
      if c.signal.value.aggregationWindow.None? {
        return [NilDereference(i)];
      }
      window := c.signal.value.aggregationWindow.value;
    } else if c.kind == BASELINE {
      window := 120;
    }
    var multiple := IsMultiple(duration, window);
    if !multiple {
      errors := errors + [DurationNotMultiple(i, t)];
    }
  }

  method ValidateTerm(c: ConditionSpec, term: Term, i: nat, t: nat) returns (errors: seq<AdmissionError>)
    ensures errors == [] <==> TermAcceptable(term, c.kind, c.signal)
  {
    errors := [];
    if term.operator !in OPERATORS {
      errors := errors + [OperatorUnknown(i, t)];
    }
    if term.threshold == "" {
      errors := errors + [ThresholdRequired(i, t)];
    }
    if term.priority != "CRITICAL" && term.priority != "WARNING" {
      errors := errors + [PriorityUnknown(i, t)];
    }
    if term.thresholdOccurrences != "ALL" && term.thresholdOccurrences != "AT_LEAST_ONCE" {
      errors := errors + [OccurrencesUnknown(i, t)];
    }
    var duration := ValidateDuration(c, term.thresholdDuration, i, t);
    errors := errors + duration;
  }

  /** Reading a missing aggregation method panics. */
  method ValidateSignal(s: Signal, i: nat) returns (errors: seq<AdmissionError>)
    ensures errors == [] <==> SignalAcceptable(s)
  {
    if s.aggregationMethod.None? {
      return [NilDereference(i)];
    }
    errors := [];
    var aggregation := s.aggregationMethod.value;
    if aggregation != EVENT_FLOW && aggregation != EVENT_TIMER && aggregation != CADENCE {
      errors := errors + [AggregationMethodUnknown(i)];
    }
    if s.evaluationOffset.Some? {
      errors := errors + [EvaluationOffsetDeprecated(i)];
    }
    if aggregation == EVENT_FLOW || aggregation == CADENCE {
      if s.aggregationTimer.Some? {
        errors := errors + [TimerNotAllowed(i)];
      }
      if s.aggregationDelay.None? {
        errors := errors + [DelayRequired(i)];
      } else {
        if aggregation == EVENT_FLOW && s.aggregationDelay.value > 1200 {
          errors := errors + [DelayTooLong(i)];
        }
        if aggregation == CADENCE && s.aggregationDelay.value > 3600 {
          errors := errors + [DelayTooLong(i)];
        }
      }
    }
    if aggregation == EVENT_TIMER {
      if s.aggregationDelay.Some? {
        errors := errors + [DelayNotAllowed(i)];
      }
      if s.aggregationTimer.None? {
        errors := errors + [TimerRequired(i)];
      } else if s.aggregationTimer.value < 5 || s.aggregationTimer.value > 1200 {
        errors := errors + [TimerOutOfRange(i)];
      }
    }
  }

  method ValidateCondition(c: ConditionSpec, i: nat) returns (errors: seq<AdmissionError>)
    ensures errors == [] <==> ConditionAcceptable(c)
  {
    hide TermAcceptable, SignalAcceptable;
    errors := [];
    if c.name == "" {
      errors := errors + [ConditionNameRequired(i)];
    }
    if c.kind != BASELINE && c.kind != STATIC {
      errors := errors + [ConditionTypeUnknown(i)];
    }
    if c.kind == BASELINE {
      if c.baselineDirection.Some? {
        if c.baselineDirection.value !in DIRECTIONS {
          errors := errors + [DirectionUnknown(i)];
        }
      } else {
        errors := errors + [DirectionRequired(i)];
      }
    }
    if c.kind == STATIC {
      if c.baselineDirection.Some? {
        errors := errors + [DirectionNotAllowed(i)];
      }
    }
    ghost var before := errors;
    for t := 0 to |c.terms|
      invariant errors == [] <==>
                before == [] && forall u :: 0 <= u < t ==> TermAcceptable(c.terms[u], c.kind, c.signal)
    {
      var term := ValidateTerm(c, c.terms[t], i, t);
      errors := errors + term;
    }
    if c.signal.Some? {
      var signal := ValidateSignal(c.signal.value, i);
      errors := errors + signal;
    }
  }

  // ----- The object -----

  class AlertPolicy {
    var spec: PolicySpec
    var status: Status
    // The submission has a list of conditions, be it an empty one.
    var conditionsListed: bool

    constructor (spec: PolicySpec, status: Status)
      ensures Value() == Policy(spec, status) && Listed()
    {
      this.spec, this.status, conditionsListed := spec, status, spec.conditions != [];
    }

    constructor Submitted(spec: PolicySpec, status: Status, conditionsListed: bool)
      requires spec.conditions != [] ==> conditionsListed
      ensures Value() == Policy(spec, status) && this.conditionsListed == conditionsListed && Listed()
    {
      this.spec, this.status, this.conditionsListed := spec, status, conditionsListed;
    }

    predicate Listed()
      reads this
    {
      spec.conditions != [] ==> conditionsListed
    }

    ghost function Value(): Policy
      reads this
    {
      Policy(spec, status)
    }

    method ApplyDefaults(config: AccountDefaults)
      modifies this`spec
      ensures spec == Defaulted(old(spec), config.defaultAccountId)
    {
      if spec.accountId == 0 && config.defaultAccountId > 0 {
        spec := spec.(accountId := config.defaultAccountId);
      }
      if spec.region == "" {
        spec := spec.(region := "US");
      }
      if spec.preference == "" {
        spec := spec.(preference := PER_CONDITION);
      }
      spec := spec.(preference := ToUpper(spec.preference));
    }

    method ValidateAPIKeyOrSecret() returns (errors: seq<AdmissionError>)
      ensures errors == [] <==> spec.accountId > 0 && KeyConfigured(spec.apiKey, spec.apiKeySecret)
    {
      errors := [];
      var apiKeySet, apiKeySecretSet := spec.apiKey != "", spec.apiKeySecret != NO_SECRET;
      if !(spec.accountId > 0) {
        errors := errors + [AccountIdRequired];
      }
      if !apiKeySet && !apiKeySecretSet {
        errors := errors + [KeyRequired];
      } else if apiKeySet && apiKeySecretSet {
        errors := errors + [OneKeyOnly];
      }
      if apiKeySecretSet {
        var secret := spec.apiKeySecret;
        if secret.name == "" || secret.namespace == "" || secret.keyName == "" {
          errors := errors + [SecretIncomplete];
        }
      }
    }

    method ValidateAccountIDImmutable(before: AlertPolicy) returns (errors: seq<AdmissionError>)
      ensures errors == [] <==> (before.spec.accountId != 0 ==> spec.accountId == before.spec.accountId)
    {
      errors := [];
      if before.spec.accountId != 0 && spec.accountId != before.spec.accountId {
        errors := errors + [AccountIdImmutable];
      }
    }

    method ValidatePolicySchema() returns (errors: seq<AdmissionError>)
      ensures errors == [] <==> spec.name != "" && PreferenceKnown(spec.preference)
    {
      errors := [];
      if spec.name == "" {
        errors := errors + [NameRequired];
      }
      if spec.preference != PER_POLICY && spec.preference != PER_CONDITION &&
         spec.preference != PER_CONDITION_AND_TARGET {
        errors := errors + [PreferenceUnknown];
      }
    }

    method ValidateConditionSchema() returns (errors: seq<AdmissionError>)
      ensures errors == [] <==>
              forall i :: 0 <= i < |spec.conditions| ==> ConditionAcceptable(spec.conditions[i].spec)
    {
      hide ConditionAcceptable;
      errors := [];
      for i := 0 to |spec.conditions|
        invariant errors == [] <==> forall k :: 0 <= k < i ==> ConditionAcceptable(spec.conditions[k].spec)
      {
        var condition := ValidateCondition(spec.conditions[i].spec, i);
        errors := errors + condition;
      }
    }

    method ValidateTypeSwitch(before: AlertPolicy) returns (errors: seq<AdmissionError>)
      ensures errors == [] <==> KeepsTypes(spec.conditions, before.spec.conditions)
    {
      errors := [];
      var cs, os := spec.conditions, before.spec.conditions;
      for i := 0 to |cs|
        invariant errors == [] <==> forall k :: 0 <= k < i ==> KeepsType(cs[k].spec, os)
      {
        var j := 0;
        while j < |os| && os[j].spec.name != cs[i].spec.name
          invariant j <= |os| && forall k :: 0 <= k < j ==> os[k].spec.name != cs[i].spec.name
        {
          j := j + 1;
        }
        if j < |os| && Switches(cs[i].spec.kind, os[j].spec.kind) {
          errors := errors + [TypeSwitched(i)];
        }
      }
    }

    /** A list of conditions may be left out, but not be empty. */
    method ValidateCreate() returns (errors: seq<AdmissionError>)
      requires Listed()
      ensures errors == [] <==> PolicyAcceptable(spec) && (conditionsListed ==> spec.conditions != [])
    {
      var key := ValidateAPIKeyOrSecret();
      var policy := ValidatePolicySchema();
      errors := key + policy;
      if conditionsListed {
        if |spec.conditions| > 0 {
          var conditions := ValidateConditionSchema();
          errors := errors + conditions;
        } else {
          errors := errors + [ConditionsRequired];
        }
      }
    }

    method ValidateUpdate(before: AlertPolicy) returns (errors: seq<AdmissionError>)
      requires Listed()
      ensures errors == [] <==> UpdateAcceptable(before.spec, spec) && (conditionsListed ==> spec.conditions != [])
    {
      var key := ValidateAPIKeyOrSecret();
      var policy := ValidatePolicySchema();
      var account := ValidateAccountIDImmutable(before);
      errors := key + policy + account;
      if conditionsListed {
        if |spec.conditions| > 0 {
          var conditions := ValidateConditionSchema();
          var types := ValidateTypeSwitch(before);
          errors := errors + conditions + types;
        } else {
          errors := errors + [ConditionsRequired];
        }
      }
    }
  }

  // ----- What admission guarantees -----

  /** Defaulting again changes nothing exactly when the account was given, or the new operator default is not there. */
  lemma DefaultedAgainIff(s: PolicySpec, a: int, b: int)
    ensures Defaulted(Defaulted(s, a), b) == Defaulted(s, a) <==> DefaultAccount(s.accountId, a) != 0 || b <= 0
  {
    ToUpperIdempotent(if s.preference == "" then PER_CONDITION else s.preference);
  }

  /** What is left out is taken as if it had been written. */
  lemma OmittedMeansDefault(s: PolicySpec, operatorDefault: int)
    ensures Defaulted(s.(region := ""), operatorDefault) == Defaulted(s.(region := "US"), operatorDefault)
    ensures Defaulted(s.(preference := ""), operatorDefault) ==
            Defaulted(s.(preference := PER_CONDITION), operatorDefault)
  {
    assert s.(region := "").(region := "US") == s.(region := "US");
    assert s.(preference := "").(preference := PER_CONDITION) == s.(preference := PER_CONDITION);
  }

  lemma UpperOfAnyCase(s: string, word: string)
    requires Decimals.Lower(s) == Decimals.Lower(word)
    requires forall i :: 0 <= i < |word| ==> word[i] as int < 0x80 && !('a' <= word[i] <= 'z')
    ensures ToUpper(s) == word
  {
    hide Decimals.Lower;
    assert |Decimals.Lower(s)| == |Decimals.Lower(word)|;
    forall i | 0 <= i < |word|
      ensures UpperChar(s[i]) == word[i]
    {
      assert Decimals.Lower(s)[i] == Decimals.Lower(word)[i];
    }
  }

  /** A known preference may be written in any case. */
  lemma PreferenceInAnyCase(s: PolicySpec, operatorDefault: int, preference: string)
    requires PreferenceKnown(preference) && Decimals.Lower(s.preference) == Decimals.Lower(preference)
    ensures Defaulted(s, operatorDefault).preference == preference
  {
    hide Decimals.Lower, ToUpper;
    assert |Decimals.Lower(s.preference)| == |Decimals.Lower(preference)|;
    UpperOfAnyCase(s.preference, preference);
  }

  /** The first stored condition with the name has the type. */
  predicate KeepsKind(c: ConditionSpec, before: seq<PolicyCondition>) {
    forall j :: 0 <= j < |before| && before[j].spec.name == c.name &&
                (forall k :: 0 <= k < j ==> before[k].spec.name != c.name) ==>
      c.kind == before[j].spec.kind
  }

  /** An update of an admitted spec is let through exactly if it is acceptable by itself, the account is the same, and
      every condition whose name was there has the type of the first that bore it. */
  lemma UpdateAcceptableIff(before: PolicySpec, s: PolicySpec)
    requires PolicyAcceptable(before)
    ensures UpdateAcceptable(before, s) <==>
            PolicyAcceptable(s) && s.accountId == before.accountId &&
            forall i :: 0 <= i < |s.conditions| ==> KeepsKind(s.conditions[i].spec, before.conditions)
  {
    hide TermAcceptable, SignalAcceptable;
    if PolicyAcceptable(s) {
      forall i | 0 <= i < |s.conditions|
        ensures KeepsType(s.conditions[i].spec, before.conditions) <==>
                KeepsKind(s.conditions[i].spec, before.conditions)
      {
        assert ConditionAcceptable(s.conditions[i].spec);
        var k := FirstOfName(before.conditions, s.conditions[i].spec.name);
        assert k < |before.conditions| ==> ConditionAcceptable(before.conditions[k].spec);
      }
    }
  }

  /** What is admitted can be sent: the reconciler never meets a condition it dereferences a nil result for, and the
      preference it sends is the one configured. */
  lemma AcceptableIsSendable(s: PolicySpec)
    requires PolicyAcceptable(s)
    ensures forall i :: 0 <= i < |s.conditions| ==>
                          Dispatchable(s.conditions[i].spec) &&
                              KindSent(s.conditions[i].spec) == s.conditions[i].spec.kind
    ensures PreferenceSent(s.preference) == s.preference
  {
    hide TermAcceptable, SignalAcceptable;
    forall i | 0 <= i < |s.conditions|
      ensures Dispatchable(s.conditions[i].spec) && KindSent(s.conditions[i].spec) == s.conditions[i].spec.kind
    {
      assert ConditionAcceptable(s.conditions[i].spec);
    }
  }

  /** One submitted object, with the operator default of that moment. */
  datatype Submission = Submission(spec: PolicySpec, operatorDefault: int)

  /** The stored spec after a create and any number of updates; a rejected update leaves it as it was. */
  function Stored(created: Submission, updates: seq<Submission>): PolicySpec {
    if updates == [] then Defaulted(created.spec, created.operatorDefault)
    else
      var before := Stored(created, updates[..|updates| - 1]);
      var u := updates[|updates| - 1];
      var s := Defaulted(u.spec, u.operatorDefault);
      if UpdateAcceptable(before, s) then s else before
  }

  /** In any history that begins with an admitted create, every stored spec is acceptable and in the first account,
      whatever the operator default becomes. */
  lemma {:induction false} AccountNeverChanges(created: Submission, updates: seq<Submission>)
    requires PolicyAcceptable(Defaulted(created.spec, created.operatorDefault))
    ensures PolicyAcceptable(Stored(created, updates))
    ensures Stored(created, updates).accountId == Stored(created, []).accountId > 0
  {
    if updates != [] {
      AccountNeverChanges(created, updates[..|updates| - 1]);
    }
  }

  /** An update that relies on the default for an account given earlier is admitted exactly when the default is that
      account, other things being equal. */
  lemma OmittedAccountAdmittedIff(before: PolicySpec, s: PolicySpec, operatorDefault: int)
    requires before.accountId > 0 && s.accountId == 0 && UpdateAcceptable(before, s.(accountId := before.accountId))
    requires Defaulted(s, operatorDefault) == s.(accountId := DefaultAccount(0, operatorDefault))
    ensures UpdateAcceptable(before, Defaulted(s, operatorDefault)) <==> operatorDefault == before.accountId
  {
  }
}

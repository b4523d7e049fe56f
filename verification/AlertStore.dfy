/** New Relic as an abstract store: alert policies, their conditions, and a record of the calls made.

    Creates get fresh IDs, and a call that fails has no effect. ID 0 stands for a blank ID. */
module AlertStore {
  import opened Options
  import opened NrqlConditions

  datatype RemotePolicy = RemotePolicy(account: int, name: string, preference: string)

  datatype RemoteCondition = RemoteCondition(policy: nat, content: Content)

  datatype Call =
    | PolicyQuery(account: int, id: nat)
    | PolicySearch(account: int)
    | PolicyCreate(account: int)
    | PolicyUpdate(account: int, id: nat)
    | PolicyDelete(account: int, id: nat)
    | ConditionSearch(account: int, policy: nat)
    | ConditionCreate(account: int, policy: nat)
    | ConditionUpdate(account: int, id: nat)
    | ConditionDelete(account: int, id: nat)

  predicate Mutates(c: Call) {
    !c.PolicyQuery? && !c.PolicySearch? && !c.ConditionSearch?
  }

  datatype Store = Store(
    policies: map<nat, RemotePolicy>, conditions: map<nat, RemoteCondition>, next: nat, calls: seq<Call>)

  ghost predicate Wf(s: Store) {
    && s.next > 0
    && (forall p :: p in s.policies ==> 0 < p < s.next && s.policies[p].account > 0)
    && (forall c :: c in s.conditions ==> 0 < c < s.next && s.conditions[c].policy in s.policies &&
                                          WellFormed(s.conditions[c].content))
  }

  /** The stores differ in the record of calls at most. */
  predicate SameRemote(s: Store, t: Store) {
    t.policies == s.policies && t.conditions == s.conditions && t.next == s.next
  }

  function Log(s: Store, c: Call): Store { s.(calls := s.calls + [c]) }

  // ----- Conditions by name -----

  function Named(s: Store, policy: nat, name: string): set<nat> {
    set c | c in s.conditions && s.conditions[c].policy == policy && s.conditions[c].content.name == name
  }

  ghost function Least(ids: set<nat>): (m: nat)
    requires ids != {}
    ensures m in ids && forall x :: x in ids ==> m <= x
  {
    var x :| x in ids;
    var rest := ids - {x};
    assert forall y :: y in ids ==> y == x || y in rest;
    if rest == {} then x
    else
      var m := Least(rest);
      if m < x then m else x
  }

  ghost function Greatest(ids: set<nat>): (m: nat)
    requires ids != {}
    ensures m in ids && forall x :: x in ids ==> x <= m
  {
    var x :| x in ids;
    var rest := ids - {x};
    assert forall y :: y in ids ==> y == x || y in rest;
    if rest == {} then x
    else
      var m := Greatest(rest);
      if x < m then m else x
  }

  /** Searches list conditions in order of creation: this is the first of a name. */
  ghost function FirstNamed(s: Store, policy: nat, name: string): Option<nat> {
    var ids := Named(s, policy, name);
    if ids == {} then None else Some(Least(ids))
  }

  /** The last of a name, which is the one a map built over the listing keeps. */
  ghost function LastNamed(s: Store, policy: nat, name: string): Option<nat> {
    var ids := Named(s, policy, name);
    if ids == {} then None else Some(Greatest(ids))
  }

  // ----- Calls on conditions -----

  predicate PolicyReachable(s: Store, account: int, policy: nat) {
    policy in s.policies && s.policies[policy].account == account
  }

  predicate ConditionReachable(s: Store, account: int, id: nat) {
    id in s.conditions && PolicyReachable(s, account, s.conditions[id].policy)
  }

  /** The new condition's ID, or None. */
  function CreateConditionCall(s: Store, account: int, policy: nat, content: Content, fails: bool):
      (Store, Option<nat>)
  {
    var t := Log(s, ConditionCreate(account, policy));
    if fails || !PolicyReachable(s, account, policy) then (t, None)
    else (t.(conditions := t.conditions[s.next := RemoteCondition(policy, content)], next := s.next + 1), Some(s.next))
  }

  function UpdateConditionCall(s: Store, account: int, id: nat, content: Content, fails: bool): (Store, bool) {
    var t := Log(s, ConditionUpdate(account, id));
    if fails || !ConditionReachable(s, account, id) then (t, false)
    else (t.(conditions := t.conditions[id := RemoteCondition(s.conditions[id].policy, content)]), true)
  }

  function DeleteConditionCall(s: Store, account: int, id: nat, fails: bool): (Store, bool) {
    var t := Log(s, ConditionDelete(account, id));
    if fails || !ConditionReachable(s, account, id) then (t, false)
    else (t.(conditions := t.conditions - {id}), true)
  }

  // ----- Calls on policies -----

  /** How a lookup by ID goes. A misdirected one answers with the policy although it is in another account. */
  datatype QueryFault = Answered | EmptyAnswer | QueryDenied | QueryBroken | Misdirected

  datatype QueryResult =
    | Found(account: int, name: string, preference: string)
    | NoPolicy
    | NotFound
    | AccessDenied
    | OtherError

  function QueryPolicyCall(s: Store, account: int, id: nat, f: QueryFault): (Store, QueryResult) {
    var t := Log(s, PolicyQuery(account, id));
    match f
    case EmptyAnswer => (t, NoPolicy)
    case QueryDenied => (t, AccessDenied)
    case QueryBroken => (t, OtherError)
    case _ =>
      if id in s.policies && (f.Misdirected? || s.policies[id].account == account) then
        (t, Found(s.policies[id].account, s.policies[id].name, s.policies[id].preference))
      else (t, NotFound)
  }

  datatype SearchFault = Answered | SearchDenied | SearchBroken

  /** The policies of an account with exactly this name. */
  function NameMatches(s: Store, account: int, name: string): set<nat> {
    set p | p in s.policies && s.policies[p].account == account && s.policies[p].name == name
  }

  function CreatePolicyCall(s: Store, account: int, name: string, preference: string, fails: bool):
      (Store, Option<nat>)
  {
    var t := Log(s, PolicyCreate(account));
    if fails then (t, None)
    else (t.(policies := t.policies[s.next := RemotePolicy(account, name, preference)], next := s.next + 1),
          Some(s.next))
  }

  function UpdatePolicyCall(s: Store, account: int, id: nat, name: string, preference: string, fails: bool):
      (Store, bool)
  {
    var t := Log(s, PolicyUpdate(account, id));
    if fails || !PolicyReachable(s, account, id) then (t, false)
    else (t.(policies := t.policies[id := RemotePolicy(account, name, preference)]), true)
  }

  /** A delete may be refused, or take effect although an error comes back. */
  datatype DeleteFault = Works | Refused | AnswerLost

  datatype DeleteResult = Deleted | AlreadyGone | DeleteError

  /** Deleting a policy deletes its conditions. */
  function WithoutPolicy(s: Store, id: nat): Store {
    s.(policies := s.policies - {id},
       conditions := map c | c in s.conditions && s.conditions[c].policy != id :: s.conditions[c])
  }

  function DeletePolicyCall(s: Store, account: int, id: nat, f: DeleteFault): (Store, DeleteResult) {
    var t := Log(s, PolicyDelete(account, id));
    if f.Refused? then (t, DeleteError)
    else if !PolicyReachable(s, account, id) then (t, AlreadyGone)
    else (WithoutPolicy(t, id), if f.AnswerLost? then DeleteError else Deleted)
  }

  // ----- Framing -----

  lemma NamedSame(s: Store, t: Store, policy: nat, name: string)
    requires forall c :: c in Named(s, policy, name) <==> c in Named(t, policy, name)
    ensures FirstNamed(s, policy, name) == FirstNamed(t, policy, name)
    ensures LastNamed(s, policy, name) == LastNamed(t, policy, name)
  {
    assert Named(s, policy, name) == Named(t, policy, name);
  }

  lemma OnlyNamed(s: Store, policy: nat, name: string, id: nat)
    requires Named(s, policy, name) == {id}
    ensures FirstNamed(s, policy, name) == Some(id) && LastNamed(s, policy, name) == Some(id)
  {
    assert id in Named(s, policy, name);
  }
}

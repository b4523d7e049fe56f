/** Entity tagging as functions and relations on values: the tags of an entity, the plan that corrects them, and what
    a reconcile does to the managed entities. */
module EntityTags {
  import opened Options
  import opened Strings

  datatype Tag = Tag(key: string, values: seq<string>)

  datatype ManagedEntity = ManagedEntity(name: string, guid: string)

  datatype TagSpec = TagSpec(accountId: int, names: seq<string>, tags: seq<Tag>)

  /** No list of managed entities means that nothing has been applied yet. */
  datatype TagStatus = TagStatus(applied: Option<TagSpec>, managed: Option<seq<ManagedEntity>>)

  // ----- The tags of one entity -----

  /** The mutable tags of an entity, and the keys among them that the operator has put there and not deleted since. */
  datatype Tags = Tags(values: map<string, set<string>>, placed: set<string>)

  const NO_TAGS := Tags(map[], {})

  predicate Tidy(t: Tags) {
    t.placed <= t.values.Keys && forall k :: k in t.values ==> t.values[k] != {}
  }

  function Values(vs: seq<string>): set<string> { set v | v in vs }

  predicate NoDuplicates(vs: seq<string>) { forall i, j :: 0 <= i < j < |vs| ==> vs[i] != vs[j] }

  function KeysOf(tags: seq<Tag>): set<string> { set i | 0 <= i < |tags| :: tags[i].key }

  function ValuesFor(tags: seq<Tag>, key: string): set<string> {
    set i, v | 0 <= i < |tags| && tags[i].key == key && v in tags[i].values :: v
  }

  /** Adding merges values into what is there. */
  function Add(t: Tags, tags: seq<Tag>): Tags {
    var values := map k | k in t.values.Keys + KeysOf(tags) && Merged(t, tags, k) != {} :: Merged(t, tags, k);
    Tags(values, (t.placed + KeysOf(tags)) * values.Keys)
  }

  function Merged(t: Tags, tags: seq<Tag>, key: string): set<string> {
    (if key in t.values then t.values[key] else {}) + ValuesFor(tags, key)
  }

  /** Replacing puts new values for the given keys and keeps other keys. */
  function Replace(t: Tags, tags: seq<Tag>): Tags {
    var values := map k | k in t.values.Keys + KeysOf(tags) && Replaced(t, tags, k) != {} :: Replaced(t, tags, k);
    Tags(values, (t.placed + KeysOf(tags)) * values.Keys)
  }

  function Replaced(t: Tags, tags: seq<Tag>, key: string): set<string> {
    if key in KeysOf(tags) then ValuesFor(tags, key) else if key in t.values then t.values[key] else {}
  }

  function Delete(t: Tags, keys: set<string>): Tags { Tags(t.values - keys, t.placed - keys) }

  // ----- Comparing and planning -----

  /** A list of values says the same as the set New Relic keeps. */
  predicate SameValues(vs: seq<string>, remote: set<string>) { NoDuplicates(vs) && Values(vs) == remote }

  /** The tags by key; of a repeated key the last counts. */
  function Desired(tags: seq<Tag>): (d: map<string, seq<string>>)
    ensures d.Keys == KeysOf(tags)
  {
    if tags == [] then map[]
    else
      var last := tags[|tags| - 1];
      var d := Desired(tags[..|tags| - 1])[last.key := last.values];
      assert forall i :: 0 <= i < |tags| - 1 ==> tags[i] == tags[..|tags| - 1][i];
      assert d.Keys == KeysOf(tags[..|tags| - 1]) + {last.key};
      assert KeysOf(tags) == KeysOf(tags[..|tags| - 1]) + {last.key};
      d
  }

  /** The last of several tags with one key. */
  predicate LastOfKey(tags: seq<Tag>, i: nat) {
    i < |tags| && forall j :: i < j < |tags| ==> tags[j].key != tags[i].key
  }

  lemma {:induction false} DesiredExact(tags: seq<Tag>, i: nat)
    requires LastOfKey(tags, i)
    ensures tags[i].key in Desired(tags) && Desired(tags)[tags[i].key] == tags[i].values
  {
    var last := |tags| - 1;
    if i < last {
      assert LastOfKey(tags[..last], i);
      DesiredExact(tags[..last], i);
      assert tags[..last][i] == tags[i];
    }
  }

  datatype Plan = Plan(delete: seq<string>, add: seq<Tag>, update: seq<Tag>)

  predicate DistinctKeys(tags: seq<Tag>) { forall i, j :: 0 <= i < j < |tags| ==> tags[i].key != tags[j].key }

  /** The lists that handleTags computes: what must go, what is missing, and what differs. */
  ghost predicate PlanFor(plan: Plan, remote: map<string, set<string>>, desired: map<string, seq<string>>) {
    NoDuplicates(plan.delete) && DistinctKeys(plan.add) && DistinctKeys(plan.update) &&
    (forall k :: k in plan.delete <==> k in remote && k !in desired) &&
    (forall t :: t in plan.add <==> t.key in desired && t.values == desired[t.key] && t.key !in remote) &&
    forall t :: t in plan.update <==> t.key in desired && t.values == desired[t.key] && t.key in remote &&
                                      !SameValues(t.values, remote[t.key])
  }

  /** How the calls for one entity go. */
  datatype EntityFaults = EntityFaults(fetch: bool, delete: bool, add: bool, update: bool)

  const NO_FAULTS := EntityFaults(false, false, false, false)

  function Execute(t: Tags, plan: Plan, f: EntityFaults): Tags {
    var a := if f.delete then t else Delete(t, Values(plan.delete));
    var b := if f.add then a else Add(a, plan.add);
    if f.update then b else Replace(b, plan.update)
  }

  predicate HasKey(t: Tags, desired: map<string, seq<string>>, f: EntityFaults, k: string) {
    if k !in desired then k in t.values && f.delete
    else if k !in t.values then !f.add && desired[k] != []
    else SameValues(desired[k], t.values[k]) || f.update || desired[k] != []
  }

  function ValueAt(t: Tags, desired: map<string, seq<string>>, f: EntityFaults, k: string): set<string> {
    if k in t.values && (k !in desired || SameValues(desired[k], t.values[k]) || f.update) then t.values[k]
    else if k in desired then Values(desired[k]) else {}
  }

  predicate PlacedAt(t: Tags, desired: map<string, seq<string>>, f: EntityFaults, k: string) {
    k in t.placed || (k in desired && (k !in t.values || (!f.update && !SameValues(desired[k], t.values[k]))))
  }

  /** The tags of an entity after its turn, key by key. */
  function Retag(t: Tags, desired: map<string, seq<string>>, f: EntityFaults): Tags {
    if f.fetch then t
    else
      var values := map k | k in t.values.Keys + desired.Keys && HasKey(t, desired, f, k) :: ValueAt(t, desired, f, k);
      Tags(values, set k | k in values && PlacedAt(t, desired, f, k))
  }

  /** A listing of a set: every value once, in any order. */
  predicate Listing(vs: seq<string>, values: set<string>) { NoDuplicates(vs) && Values(vs) == values }

  lemma {:induction false} CountOfListed(vs: seq<string>, v: string)
    requires NoDuplicates(vs)
    ensures multiset(vs)[v] == if v in vs then 1 else 0
  {
    if vs != [] {
      var last := |vs| - 1;
      assert vs == vs[..last] + [vs[last]];
      CountOfListed(vs[..last], v);
    }
  }

  lemma CountTwice(vs: seq<string>, i: nat, j: nat)
    requires i < j < |vs| && vs[i] == vs[j]
    ensures multiset(vs)[vs[i]] >= 2
  {
    assert vs == vs[..j] + vs[j..];
    assert vs[i] in vs[..j] && vs[j] in vs[j..];
    assert multiset(vs) == multiset(vs[..j]) + multiset(vs[j..]);
  }

  /** Comparing with any listing of the remote values as multisets is comparing with the set. */
  lemma SameAsListing(vs: seq<string>, listing: seq<string>, remote: set<string>)
    requires Listing(listing, remote)
    ensures multiset(vs) == multiset(listing) <==> SameValues(vs, remote)
  {
    if multiset(vs) == multiset(listing) {
      forall i, j | 0 <= i < j < |vs|
        ensures vs[i] != vs[j]
      {
        if vs[i] == vs[j] {
          CountTwice(vs, i, j);
          CountOfListed(listing, vs[i]);
        }
      }
      forall v
        ensures v in vs <==> v in remote
      {
        assert v in vs <==> multiset(vs)[v] > 0;
        assert v in listing <==> multiset(listing)[v] > 0;
        assert v in listing <==> v in Values(listing);
      }
      assert Values(vs) == remote;
    }
    if SameValues(vs, remote) {
      forall v
        ensures multiset(vs)[v] == multiset(listing)[v]
      {
        CountOfListed(vs, v);
        CountOfListed(listing, v);
        assert v in vs <==> v in Values(vs);
        assert v in listing <==> v in Values(listing);
      }
    }
  }

  // ----- What the plan does -----

  predicate Differs(remote: map<string, set<string>>, desired: map<string, seq<string>>, k: string) {
    if k in desired then k !in remote || !SameValues(desired[k], remote[k]) else k in remote
  }

  /** The three lists share no key, and together they name exactly the keys that differ. */
  lemma PlanCoversDifference(plan: Plan, remote: map<string, set<string>>, desired: map<string, seq<string>>)
    requires PlanFor(plan, remote, desired)
    ensures Values(plan.delete) !! KeysOf(plan.add) !! KeysOf(plan.update)
    ensures forall k :: k in Values(plan.delete) + KeysOf(plan.add) + KeysOf(plan.update) <==>
            Differs(remote, desired, k)
  {
    hide SameValues;
    forall k
      ensures k in KeysOf(plan.add) <==> k in desired && k !in remote
      ensures k in KeysOf(plan.update) <==> k in desired && k in remote && !SameValues(desired[k], remote[k])
    {
      if k in desired {
        assert Tag(k, desired[k]) in plan.add <==> k !in remote;
        assert Tag(k, desired[k]) in plan.update <==> k in remote && !SameValues(desired[k], remote[k]);
      }
    }
  }

  lemma ValuesOfKey(tags: seq<Tag>, k: string, vs: seq<string>)
    requires Tag(k, vs) in tags && DistinctKeys(tags)
    ensures ValuesFor(tags, k) == Values(vs)
  {
    var i :| 0 <= i < |tags| && tags[i] == Tag(k, vs);
    assert forall v :: v in ValuesFor(tags, k) <==> v in vs;
  }

  lemma NoValues(tags: seq<Tag>, k: string)
    requires k !in KeysOf(tags)
    ensures ValuesFor(tags, k) == {}
  {
  }

  lemma ListedValues(tags: seq<Tag>, desired: map<string, seq<string>>, k: string)
    requires DistinctKeys(tags) && forall t :: t in tags ==> t.key in desired && t.values == desired[t.key]
    ensures ValuesFor(tags, k) == if k in KeysOf(tags) && k in desired then Values(desired[k]) else {}
  {
    if k in KeysOf(tags) {
      assert Tag(k, desired[k]) in tags;
      ValuesOfKey(tags, k, desired[k]);
    } else {
      NoValues(tags, k);
    }
  }

  // ----- The calls, key by key -----

  function ValueOf(t: Tags, k: string): set<string> { if k in t.values then t.values[k] else {} }

  lemma DeleteAt(t: Tags, keys: set<string>, k: string)
    requires Tidy(t)
    ensures var r := Delete(t, keys);
            Tidy(r) && ValueOf(r, k) == (if k in keys then {} else ValueOf(t, k)) &&
            (k in r.placed <==> k in t.placed && k !in keys)
  {
  }

  lemma AddAt(t: Tags, tags: seq<Tag>, k: string)
    requires Tidy(t)
    ensures var r := Add(t, tags);
            Tidy(r) && ValueOf(r, k) == ValueOf(t, k) + ValuesFor(tags, k) &&
            (k in r.placed <==> (k in t.placed || k in KeysOf(tags)) && ValueOf(r, k) != {})
  {
    hide KeysOf, ValuesFor;
    if k !in KeysOf(tags) {
      NoValues(tags, k);
    }
  }

  lemma ReplaceAt(t: Tags, tags: seq<Tag>, k: string)
    requires Tidy(t)
    ensures var r := Replace(t, tags);
            Tidy(r) && ValueOf(r, k) == (if k in KeysOf(tags) then ValuesFor(tags, k) else ValueOf(t, k)) &&
            (k in r.placed <==> (k in t.placed || k in KeysOf(tags)) && ValueOf(r, k) != {})
  {
    hide KeysOf, ValuesFor;
  }

  lemma NonemptyValues(vs: seq<string>)
    ensures Values(vs) == {} <==> vs == []
  {
    assert vs != [] ==> vs[0] in Values(vs);
  }

  lemma RetagAt(t: Tags, desired: map<string, seq<string>>, f: EntityFaults, k: string)
    requires Tidy(t) && !f.fetch
    ensures var r := Retag(t, desired, f);
            Tidy(r) &&
            ValueOf(r, k) ==
            (if k !in desired then (if f.delete then ValueOf(t, k) else {})
             else if k !in t.values then (if f.add then {} else Values(desired[k]))
             else if f.update || SameValues(desired[k], t.values[k]) then t.values[k] else Values(desired[k])) &&
            (k in r.placed <==> PlacedAt(t, desired, f, k) && ValueOf(r, k) != {})
  {
    hide SameValues, Values;
    RetagTidy(t, desired, f);
    if k in desired {
      NonemptyValues(desired[k]);
    }
  }

  lemma RetagTidy(t: Tags, desired: map<string, seq<string>>, f: EntityFaults)
    requires Tidy(t)
    ensures Tidy(Retag(t, desired, f))
  {
    hide SameValues, Values;
    forall k | k in desired
      ensures Values(desired[k]) == {} <==> desired[k] == []
    {
      NonemptyValues(desired[k]);
    }
  }

  lemma Pointwise(a: Tags, b: Tags)
    requires Tidy(a) && Tidy(b)
    requires forall k :: ValueOf(a, k) == ValueOf(b, k) && (k in a.placed <==> k in b.placed)
    ensures a == b
  {
    assert forall k :: k in a.values <==> ValueOf(a, k) != {};
    assert forall k :: k in b.values <==> ValueOf(b, k) != {};
    assert a.values == b.values;
    assert a.placed == b.placed;
  }

  /** Executing a right plan has the promised effect on every key, whichever of its calls fail. */
  lemma ExecuteIsRetag(t: Tags, plan: Plan, desired: map<string, seq<string>>, f: EntityFaults)
    requires Tidy(t) && PlanFor(plan, t.values, desired) && !f.fetch
    ensures Execute(t, plan, f) == Retag(t, desired, f)
  {
    hide SameValues, PlanFor, Retag, Execute, ValueOf, Tidy;
    forall k
      ensures ValueOf(Execute(t, plan, f), k) == ValueOf(Retag(t, desired, f), k)
      ensures k in Execute(t, plan, f).placed <==> k in Retag(t, desired, f).placed
    {
      ExecuteAt(t, plan, desired, f, k);
    }
    ExecuteAt(t, plan, desired, f, "");
    Pointwise(Execute(t, plan, f), Retag(t, desired, f));
  }

  lemma ExecuteAt(t: Tags, plan: Plan, desired: map<string, seq<string>>, f: EntityFaults, k: string)
    requires Tidy(t) && PlanFor(plan, t.values, desired) && !f.fetch
    ensures var r, e := Retag(t, desired, f), Execute(t, plan, f);
            Tidy(e) && Tidy(r) && ValueOf(e, k) == ValueOf(r, k) && (k in e.placed <==> k in r.placed)
  {
    hide SameValues, DistinctKeys, Delete, Add, Replace, Retag, Values, ValuesFor, KeysOf;
    var keys := Values(plan.delete);
    var a := if f.delete then t else Delete(t, keys);
    var b := if f.add then a else Add(a, plan.add);
    DeleteAt(t, keys, k);
    AddAt(a, plan.add, k);
    ReplaceAt(b, plan.update, k);
    RetagAt(t, desired, f, k);
    PlanKeys(plan, t.values, desired, k);
    PlanValues(plan, t.values, desired, k);
    if k in desired {
      NonemptyValues(desired[k]);
    }
  }

  lemma PlanValues(plan: Plan, remote: map<string, set<string>>, desired: map<string, seq<string>>, k: string)
    requires PlanFor(plan, remote, desired)
    ensures ValuesFor(plan.add, k) == if k in KeysOf(plan.add) && k in desired then Values(desired[k]) else {}
    ensures ValuesFor(plan.update, k) == if k in KeysOf(plan.update) && k in desired then Values(desired[k]) else {}
  {
    hide SameValues;
    ListedValues(plan.add, desired, k);
    ListedValues(plan.update, desired, k);
  }

  lemma PlanKeys(plan: Plan, remote: map<string, set<string>>, desired: map<string, seq<string>>, k: string)
    requires PlanFor(plan, remote, desired)
    ensures k in Values(plan.delete) <==> k in remote && k !in desired
    ensures k in KeysOf(plan.add) <==> k in desired && k !in remote
    ensures k in KeysOf(plan.update) <==> k in desired && k in remote && !SameValues(desired[k], remote[k])
  {
    hide SameValues;
    if k in desired {
      assert Tag(k, desired[k]) in plan.add <==> k !in remote;
      assert Tag(k, desired[k]) in plan.update <==> k in remote && !SameValues(desired[k], remote[k]);
    }
  }

  /** The validating webhook admits no tag without values. */
  predicate AllHaveValues(desired: map<string, seq<string>>) { forall k :: k in desired ==> desired[k] != [] }

  /** With no failures the entity ends with exactly the desired keys and values, whatever it had. */
  lemma RetagConverges(t: Tags, desired: map<string, seq<string>>)
    requires Tidy(t) && AllHaveValues(desired)
    ensures var r := Retag(t, desired, NO_FAULTS);
            r.values.Keys == desired.Keys && (forall k :: k in desired ==> r.values[k] == Values(desired[k])) && Tidy(r)
  {
    forall k | k in desired
      ensures Values(desired[k]) != {}
    {
      assert desired[k][0] in Values(desired[k]);
    }
  }

  lemma EmptyOrMember<T>(s: seq<T>)
    ensures s == [] || exists x :: x in s
  {
    assert s != [] ==> s[0] in s;
  }

  /** A second pass plans nothing exactly when no desired tag repeats a value. */
  lemma SecondPassIdleIff(t: Tags, desired: map<string, seq<string>>, plan: Plan)
    requires Tidy(t) && AllHaveValues(desired) && PlanFor(plan, Retag(t, desired, NO_FAULTS).values, desired)
    ensures plan == Plan([], [], []) <==> forall k :: k in desired ==> NoDuplicates(desired[k])
  {
    hide Retag, NoDuplicates;
    RetagConverges(t, desired);
    var remote := Retag(t, desired, NO_FAULTS).values;
    if plan == Plan([], [], []) {
      forall k | k in desired
        ensures NoDuplicates(desired[k])
      {
        PlanKeys(plan, remote, desired, k);
      }
    }
    if forall k :: k in desired ==> NoDuplicates(desired[k]) {
      EmptyOrMember(plan.delete);
      EmptyOrMember(plan.add);
      EmptyOrMember(plan.update);
    }
  }

  /** With a repeated value every further pass has something to send. */
  lemma RepeatedValueNeverSettles()
    ensures exists t: Tags, desired: map<string, seq<string>> ::
              Tidy(t) && AllHaveValues(desired) &&
              forall plan :: PlanFor(plan, Retag(t, desired, NO_FAULTS).values, desired) ==> plan != Plan([], [], [])
  {
    hide Retag, PlanFor;
    var desired := map["team" := ["a", "a"]];
    assert desired["team"][0] == desired["team"][1];
    assert Tidy(NO_TAGS) && AllHaveValues(desired) && !NoDuplicates(desired["team"]);
    forall plan | PlanFor(plan, Retag(NO_TAGS, desired, NO_FAULTS).values, desired)
      ensures plan != Plan([], [], [])
    {
      SecondPassIdleIff(NO_TAGS, desired, plan);
    }
  }

  /** A second turn without failures changes nothing, even if it makes calls. */
  lemma RetagIdempotent(t: Tags, desired: map<string, seq<string>>)
    requires Tidy(t) && AllHaveValues(desired)
    ensures var r := Retag(t, desired, NO_FAULTS); Retag(r, desired, NO_FAULTS) == r
  {
    RetagConverges(t, desired);
    var r := Retag(t, desired, NO_FAULTS);
    RetagConverges(r, desired);
    assert Retag(r, desired, NO_FAULTS).values == r.values;
    assert forall k :: k in Retag(r, desired, NO_FAULTS).placed <==> k in r.placed;
  }
}

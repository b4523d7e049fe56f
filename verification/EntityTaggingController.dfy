/** The EntityTagging reconciler as methods over the object and New Relic, with maps walked in any order. */
module EntityTaggingController {
  import opened Options
  import opened Strings
  import opened EntityTags
  import opened EntityTaggings
  import opened EntityTaggingFailures
  import opened EntityTaggingRuns

  class EntityTagging {
    var spec: TagSpec
    var status: TagStatus

    constructor (spec: TagSpec, status: TagStatus)
      ensures this.spec == spec && this.status == status
    {
      this.spec, this.status := spec, status;
    }
  }

  // ----- New Relic -----

  /** The tags of an entity as the API lists them: each key once, its values in any order. */
  ghost predicate Lists(tags: seq<Tag>, values: map<string, set<string>>) {
    DistinctKeys(tags) && KeysOf(tags) == values.Keys &&
    forall i :: 0 <= i < |tags| ==> tags[i].key in values && Listing(tags[i].values, values[tags[i].key])
  }

  method ListValues(values: set<string>) returns (vs: seq<string>)
    ensures Listing(vs, values)
  {
    vs := [];
    var rest := values;
    while rest != {}
      invariant NoDuplicates(vs) && Values(vs) !! rest && Values(vs) + rest == values
    {
      var v :| v in rest;
      assert v !in Values(vs);
      vs, rest := vs + [v], rest - {v};
      assert Values(vs) == Values(vs[..|vs| - 1]) + {v};
      assert vs[..|vs| - 1] + [v] == vs;
    }
  }

  class TagsApi {
    var remote: Remote
    var directory: seq<Entity>
    var mutations: nat

    constructor (remote: Remote, directory: seq<Entity>)
      ensures this.remote == remote && this.directory == directory && mutations == 0
    {
      this.remote, this.directory, mutations := remote, directory, 0;
    }

    method GetEntitySearchByQuery(names: set<string>, account: int, fails: bool)
      returns (failed: bool, found: seq<Entity>)
      ensures failed == fails && (!failed ==> found == Search(directory, names, account))
    {
      failed := fails;
      found := Search(directory, names, account);
    }

    method GetTagsForEntityMutable(guid: string, fails: bool) returns (failed: bool, tags: seq<Tag>)
      ensures failed == fails && (!failed ==> Lists(tags, On(remote, guid).values))
    {
      failed, tags := fails, [];
      var values := On(remote, guid).values;
      var rest := values.Keys;
      while rest != {}
        invariant rest <= values.Keys && DistinctKeys(tags) && KeysOf(tags) == values.Keys - rest
        invariant forall i :: 0 <= i < |tags| ==> tags[i].key in values && Listing(tags[i].values, values[tags[i].key])
      {
        var k :| k in rest;
        var vs := ListValues(values[k]);
        assert k !in KeysOf(tags);
        ghost var before := tags;
        tags, rest := tags + [Tag(k, vs)], rest - {k};
        AppendedKey(before, Tag(k, vs));
      }
    }

    method TaggingAddTagsToEntity(guid: string, tags: seq<Tag>, fails: bool) returns (ok: bool)
      modifies this`remote, this`mutations
      ensures ok == !fails && mutations == old(mutations) + 1
      ensures remote == if fails then old(remote) else old(remote)[guid := Add(On(old(remote), guid), tags)]
    {
      ok, mutations := !fails, mutations + 1;
      if ok {
        remote := remote[guid := Add(On(remote, guid), tags)];
      }
    }

    /** Taken per key, as the comment on updateEntityTags has it. */
    method TaggingReplaceTagsOnEntity(guid: string, tags: seq<Tag>, fails: bool) returns (ok: bool)
      modifies this`remote, this`mutations
      ensures ok == !fails && mutations == old(mutations) + 1
      ensures remote == if fails then old(remote) else old(remote)[guid := Replace(On(old(remote), guid), tags)]
    {
      ok, mutations := !fails, mutations + 1;
      if ok {
        remote := remote[guid := Replace(On(remote, guid), tags)];
      }
    }

    method TaggingDeleteTagFromEntity(guid: string, keys: seq<string>, fails: bool) returns (ok: bool)
      modifies this`remote, this`mutations
      ensures ok == !fails && mutations == old(mutations) + 1
      ensures remote == if fails then old(remote) else old(remote)[guid := Delete(On(old(remote), guid), Values(keys))]
    {
      ok, mutations := !fails, mutations + 1;
      if ok {
        remote := remote[guid := Delete(On(remote, guid), Values(keys))];
      }
    }
  }

  lemma AppendedKey(tags: seq<Tag>, tag: Tag)
    ensures KeysOf(tags + [tag]) == KeysOf(tags) + {tag.key}
    ensures DistinctKeys(tags) && tag.key !in KeysOf(tags) ==> DistinctKeys(tags + [tag])
  {
    var after := tags + [tag];
    assert forall i :: 0 <= i < |tags| ==> after[i] == tags[i];
    assert after[|tags|].key == tag.key;
  }

  // ----- Comparing and planning -----

  /** Copies both lists, sorts the copies and compares them; the lists themselves are not written. */
  method CompareTagValues(a: array<string>, b: array<string>) returns (same: bool)
    ensures same == (multiset(a[..]) == multiset(b[..]))
  {
    assert multiset(a[..]) == multiset(b[..]) ==> a.Length == b.Length by {
      assert |multiset(a[..])| == a.Length && |multiset(b[..])| == b.Length;
    }
    if a.Length != b.Length {
      return false;
    }
    var aCopy := Copy(a);
    var bCopy := Copy(b);
    SortStrings(aCopy);
    SortStrings(bCopy);
    if multiset(a[..]) == multiset(b[..]) {
      SortedUnique(aCopy[..], bCopy[..]);
    }
    same := EqualStrings(aCopy, bCopy);
  }

  method Copy(a: array<string>) returns (b: array<string>)
    ensures fresh(b) && b[..] == a[..]
  {
    b := new string[a.Length](i requires 0 <= i < a.Length reads a => a[i]);
  }

  method EqualStrings(a: array<string>, b: array<string>) returns (same: bool)
    ensures same == (a[..] == b[..])
  {
    if a.Length != b.Length {
      return false;
    }
    for i := 0 to a.Length
      invariant a[..i] == b[..i]
    {
      if a[i] != b[i] {
        assert a[..][i] != b[..][i];
        return false;
      }
    }
    same := true;
    assert a[..] == a[..a.Length] && b[..] == b[..b.Length];
  }

  method ArrayOf(vs: seq<string>) returns (a: array<string>)
    ensures fresh(a) && a[..] == vs
  {
    a := new string[|vs|](i requires 0 <= i < |vs| => vs[i]);
  }

  method MapOf(tags: seq<Tag>) returns (m: map<string, seq<string>>)
    ensures m == Desired(tags)
  {
    m := map[];
    for i := 0 to |tags|
      invariant m == Desired(tags[..i])
    {
      assert tags[..i + 1][..i] == tags[..i];
      m := m[tags[i].key := tags[i].values];
    }
    assert tags[..|tags|] == tags;
  }

  lemma {:induction false} DesiredOfListing(tags: seq<Tag>, values: map<string, set<string>>, k: string)
    requires DistinctKeys(tags)
    requires forall i :: 0 <= i < |tags| ==> tags[i].key in values && Listing(tags[i].values, values[tags[i].key])
    requires k in Desired(tags)
    ensures k in values && Listing(Desired(tags)[k], values[k])
  {
    hide Listing;
    if tags[|tags| - 1].key != k {
      DesiredOfListing(tags[..|tags| - 1], values, k);
    }
  }

  /** The three lists, computed over maps walked in any order. */
  method PlanTagChanges(desired: map<string, seq<string>>, tags: seq<Tag>, ghost values: map<string, set<string>>)
    returns (plan: Plan)
    requires Lists(tags, values)
    ensures PlanFor(plan, values, desired)
  {
    var remote := MapOf(tags);
    var toDelete := PlanDeletes(desired, remote);
    var toAdd, toUpdate := PlanWrites(desired, remote, values) by {
      forall k | k in remote
        ensures k in values && Listing(remote[k], values[k])
      {
        DesiredOfListing(tags, values, k);
      }
    }
    plan := Plan(toDelete, toAdd, toUpdate);
  }

  method PlanDeletes(desired: map<string, seq<string>>, remote: map<string, seq<string>>) returns (keys: seq<string>)
    ensures NoDuplicates(keys) && forall k :: k in keys <==> k in remote && k !in desired
  {
    keys := [];
    var rest := remote.Keys;
    while rest != {}
      invariant rest <= remote.Keys && NoDuplicates(keys)
      invariant forall k :: k in keys <==> k in remote && k !in rest && k !in desired
    {
      var k :| k in rest;
      if k !in desired {
        keys := keys + [k];
      }
      rest := rest - {k};
    }
  }

  method PlanWrites(desired: map<string, seq<string>>, remote: map<string, seq<string>>,
                    ghost values: map<string, set<string>>)
    returns (toAdd: seq<Tag>, toUpdate: seq<Tag>)
    requires remote.Keys == values.Keys && forall k :: k in remote ==> Listing(remote[k], values[k])
    ensures DistinctKeys(toAdd) && DistinctKeys(toUpdate)
    ensures forall t :: t in toAdd <==> t.key in desired && t.values == desired[t.key] && t.key !in values
    ensures forall t :: t in toUpdate <==> t.key in desired && t.values == desired[t.key] && t.key in values &&
                                           !SameValues(t.values, values[t.key])
  {
    hide SameValues, Listing;
    toAdd, toUpdate := [], [];
    var rest := desired.Keys;
    while rest != {}
      invariant rest <= desired.Keys && DistinctKeys(toAdd) && DistinctKeys(toUpdate)
      invariant forall t :: t in toAdd <==> t.key in desired && t.key !in rest && t.values == desired[t.key] &&
                                            t.key !in values
      invariant forall t :: t in toUpdate <==> t.key in desired && t.key !in rest && t.values == desired[t.key] &&
                                               t.key in values && !SameValues(t.values, values[t.key])
    {
      var k :| k in rest;
      if k !in remote {
        toAdd := toAdd + [Tag(k, desired[k])];
      } else {
        var same := CompareWithListing(desired[k], remote[k], values[k]);
        if !same {
          toUpdate := toUpdate + [Tag(k, desired[k])];
        }
      }
      rest := rest - {k};
    }
  }

  method CompareWithListing(vs: seq<string>, listing: seq<string>, ghost values: set<string>) returns (same: bool)
    requires Listing(listing, values)
    ensures same == SameValues(vs, values)
  {
    hide SameValues, Listing;
    var a := ArrayOf(vs);
    var b := ArrayOf(listing);
    same := CompareTagValues(a, b);
    SameAsListing(vs, listing, values);
  }

  // ----- The reconciler -----

  /** Which calls of one reconcile fail: the search, deletes by GUID, the adds of a first run, and those of the turns of
      handleTags. */
  datatype TaggingFaults = TaggingFaults(
    search: bool, cleanup: string -> bool, firstAdd: nat -> bool, tags: nat -> EntityFaults)

  ghost predicate NothingFails(f: TaggingFaults) {
    !f.search && (forall g :: !f.cleanup(g)) && (forall i :: !f.firstAdd(i)) && forall i :: f.tags(i) == NO_FAULTS
  }

  predicate NameAccepted(name: string) { '\'' !in name && '\\' !in name }

  class EntityTaggingReconciler {
    const api: TagsApi

    constructor (api: TagsApi)
      ensures this.api == api
    {
      this.api := api;
    }

    method FetchEntitiesByName(names: set<string>, account: int, fails: bool)
      returns (failed: bool, managed: seq<ManagedEntity>)
      ensures failed <==> fails || exists n :: n in names && !NameAccepted(n)
      ensures !failed ==> managed == Fetched(api.directory, names, account)
    {
      managed := [];
      var rest := names;
      while rest != {}
        invariant rest <= names && forall n :: n in names && n !in rest ==> NameAccepted(n)
      {
        var n :| n in rest;
        if !NameAccepted(n) {
          return true, [];
        }
        rest := rest - {n};
      }
      var found;
      failed, found := api.GetEntitySearchByQuery(names, account, fails);
      if failed {
        return;
      }
      var processedNames: set<string> := {};
      for i := 0 to |found|
        invariant managed == Fetched(found[..i], names, account) && processedNames == NamesOf(managed)
      {
        var e := found[i];
        assert found[..i + 1][..i] == found[..i];
        assert e in found;
        if e.name !in processedNames {
          AppendedNames(managed, e);
          managed := managed + [ManagedEntity(e.name, e.guid)];
          processedNames := processedNames + {e.name};
        }
      }
      assert found[..|found|] == found;
      SearchThenFetch(api.directory, names, account);
    }

    /** One entity's turn in handleTags. */
    method HandleEntity(guid: string, desired: map<string, seq<string>>, f: EntityFaults) returns (failed: bool)
      requires Tidy(On(api.remote, guid))
      modifies api`remote, api`mutations
      ensures forall g :: On(api.remote, g) ==
                          if g == guid then Retag(On(old(api.remote), guid), desired, f) else On(old(api.remote), g)
      ensures failed ==> f != NO_FAULTS
      ensures !failed ==> On(api.remote, guid) == Retag(On(old(api.remote), guid), desired, NO_FAULTS)
      ensures (forall k :: !Differs(On(old(api.remote), guid).values, desired, k)) ==>
              api.mutations == old(api.mutations)
    {
      hide Retag, Execute, Add, Replace, Delete, PlanFor, Tidy, Lists, Differs;
      ghost var t := On(api.remote, guid);
      var tags;
      failed, tags := api.GetTagsForEntityMutable(guid, f.fetch);
      if failed {
        FetchFailed(t, desired, f);
        return;
      }
      var plan := PlanTagChanges(desired, tags, t.values);
      IdlePlan(plan, t.values, desired);
      failed := Carry(guid, plan, f);
      ExecuteIsRetag(t, plan, desired, f);
      ExecuteIsRetag(t, plan, desired, NO_FAULTS);
    }

    /** The calls of a plan; a list without entries is not sent. */
    method Carry(guid: string, plan: Plan, f: EntityFaults) returns (failed: bool)
      requires Tidy(On(api.remote, guid))
      modifies api`remote, api`mutations
      ensures forall g :: On(api.remote, g) ==
                          if g == guid then Execute(On(old(api.remote), guid), plan, f) else On(old(api.remote), g)
      ensures failed ==> f != NO_FAULTS
      ensures !failed ==> On(api.remote, guid) == Execute(On(old(api.remote), guid), plan, NO_FAULTS)
      ensures plan == Plan([], [], []) ==> api.mutations == old(api.mutations)
    {
      hide Add, Replace, Delete, Tidy;
      failed := false;
      ghost var t := On(api.remote, guid);
      if |plan.delete| > 0 {
        var ok := api.TaggingDeleteTagFromEntity(guid, plan.delete, f.delete);
        failed := !ok;
      } else {
        NothingSent(t);
      }
      ghost var a := if f.delete then t else Delete(t, Values(plan.delete));
      assert On(api.remote, guid) == a;
      assert Tidy(a) by { DeleteAt(t, Values(plan.delete), ""); }
      if |plan.add| > 0 {
        var ok := api.TaggingAddTagsToEntity(guid, plan.add, f.add);
        failed := failed || !ok;
      } else {
        NothingSent(a);
      }
      ghost var b := if f.add then a else Add(a, plan.add);
      assert On(api.remote, guid) == b;
      assert Tidy(b) by { AddAt(a, plan.add, ""); }
      if |plan.update| > 0 {
        var ok := api.TaggingReplaceTagsOnEntity(guid, plan.update, f.update);
        failed := failed || !ok;
      } else {
        NothingSent(b);
      }
    }

    method HandleTags(entity: EntityTagging, f: nat -> EntityFaults) returns (failed: bool)
      requires AllTidy(api.remote) && entity.status.managed.Some?
      modifies api`remote, api`mutations
      ensures var managed := entity.status.managed.value;
              SameOn(api.remote, RetagUpTo(old(api.remote), managed, Desired(entity.spec.tags), f, |managed|)) &&
              (!failed ==>
                 SameOn(api.remote,
                        RetagUpTo(old(api.remote), managed, Desired(entity.spec.tags), NoFaults(), |managed|)))
      ensures failed ==> exists i :: f(i) != NO_FAULTS
    {
      hide Retag, Tidy, Differs;
      failed := false;
      var desired := MapOf(entity.spec.tags);
      var managed := entity.status.managed.value;
      for i := 0 to |managed|
        invariant SameOn(api.remote, RetagUpTo(old(api.remote), managed, desired, f, i))
        invariant !failed ==> SameOn(api.remote, RetagUpTo(old(api.remote), managed, desired, NoFaults(), i))
        invariant AllTidy(api.remote)
        invariant failed ==> exists j :: f(j) != NO_FAULTS
      {
        var guid := managed[i].guid;
        assert Tidy(On(api.remote, guid));
        RetagTidy(On(api.remote, guid), desired, f(i));
        var entityFailed := HandleEntity(guid, desired, f(i));
        failed := failed || entityFailed;
      }
    }

    /** The tag keys that were applied. */
    method AppliedTagKeys(entity: EntityTagging) returns (keys: seq<string>)
      ensures Values(keys) == AppliedKeys(entity.status)
    {
      keys := [];
      if entity.status.applied.None? {
        return;
      }
      var tags := entity.status.applied.value.tags;
      for i := 0 to |tags|
        invariant |keys| == i && forall j :: 0 <= j < i ==> keys[j] == tags[j].key
      {
        keys := keys + [tags[i].key];
      }
    }

    /** Deletes the applied keys from the entities that left the spec and keeps the others, in any order. */
    method RemoveAndKeep(entity: EntityTagging, managed: map<string, string>, desired: set<string>,
                         fails: string -> bool)
      returns (failed: bool, final: seq<ManagedEntity>)
      modifies api`remote, api`mutations
      ensures failed ==> exists g :: fails(g)
      ensures failed ==> exists names | names <= managed.Keys - desired ::
                           CleanedBehind(old(api.remote), api.remote, managed, names, AppliedKeys(entity.status))
      ensures !failed ==> DistinctEntityNames(final) &&
                          forall e :: e in final <==>
                                      e.name in managed && e.name in desired && e.guid == managed[e.name]
      ensures !failed ==> CleanedBehind(old(api.remote), api.remote, managed, managed.Keys - desired,
              AppliedKeys(entity.status))
    {
      hide Delete;
      failed, final := false, [];
      var keys := AppliedTagKeys(entity);
      NonemptyValues(keys);
      var rest := managed.Keys;
      NothingCleaned(api.remote, managed, AppliedKeys(entity.status));
      while rest != {}
        invariant rest <= managed.Keys && DistinctEntityNames(final)
        invariant forall e :: e in final <==> e.name in managed && e.name !in rest && e.name in desired &&
                                              e.guid == managed[e.name]
        invariant CleanedBehind(old(api.remote), api.remote, managed, managed.Keys - rest - desired,
                AppliedKeys(entity.status))
      {
        var name :| name in rest;
        if name !in desired {
          ghost var before := api.remote;
          if |keys| > 0 {
            var ok := api.TaggingDeleteTagFromEntity(managed[name], keys, fails(managed[name]));
            if !ok {
              assert fails(managed[name]);
              return true, [];
            }
          }
          OneCleaned(old(api.remote), before, api.remote, managed, managed.Keys - rest - desired, name,
                     AppliedKeys(entity.status));
          assert managed.Keys - (rest - {name}) - desired == managed.Keys - rest - desired + {name};
        } else {
          final := final + [ManagedEntity(name, managed[name])];
          assert managed.Keys - (rest - {name}) - desired == managed.Keys - rest - desired;
        }
        rest := rest - {name};
      }
      assert managed.Keys - {} - desired == managed.Keys - desired;
    }

    method ReconcileEntities(entity: EntityTagging, f: TaggingFaults) returns (failed: bool)
      requires entity.status.managed.Some?
      modifies entity`status, api`remote, api`mutations
      ensures failed ==> entity.status == old(entity.status) &&
                         exists guids: set<string> ::
                           guids <= GoneGuids(entity.status.managed.value, entity.spec) &&
                           SameOn(api.remote, CleanedRemote(old(api.remote), guids, AppliedKeys(entity.status)))
      ensures NothingFails(f) && (forall n :: n in Names(entity.spec) ==> NameAccepted(n)) ==> !failed
      ensures !failed ==>
                var managed := old(entity.status.managed.value);
                entity.status.applied == old(entity.status.applied) && entity.status.managed.Some? &&
                NextManaged(managed, entity.spec, api.directory, entity.status.managed.value) &&
                SameOn(api.remote, Cleaned(entity.spec, old(entity.status), old(api.remote)))
    {
      hide CleanedBehind, Fetched;
      var desired := set n | n in entity.spec.names;
      var managed := ManagedEntitiesMap(entity.status.managed.value);
      var final;
      failed, final := RemoveAndKeep(entity, managed, desired, f.cleanup);
      var keys := AppliedKeys(entity.status);
      if failed {
        ghost var names :| names <= managed.Keys - desired &&
                           CleanedBehind(old(api.remote), api.remote, managed, names, keys);
        BehindIsCleaned(old(api.remote), api.remote, managed, names, keys);
        assert Behind(managed, names) <= GoneGuids(entity.status.managed.value, entity.spec);
        return;
      }
      BehindIsCleaned(old(api.remote), api.remote, managed, managed.Keys - desired, keys);
      assert Behind(managed, managed.Keys - desired) == GoneGuids(entity.status.managed.value, entity.spec);
      var newNames := desired - managed.Keys;
      if newNames != {} {
        var found;
        failed, found := FetchEntitiesByName(newNames, entity.spec.accountId, f.search);
        if failed {
          return;
        }
        FetchedNames(api.directory, newNames, entity.spec.accountId);
        KeptAndFound(final, found, managed, newNames, api.directory, entity.spec.accountId);
        final := final + found;
      }
      if managed.Keys - desired != {} || newNames != {} {
        entity.status := entity.status.(managed := Some(final));
      }
      NothingFetched(api.directory, entity.spec.accountId);
    }

    /** The first run: every entity found gets all tags. */
    method FirstRun(entity: EntityTagging, f: TaggingFaults) returns (failed: bool, found: seq<ManagedEntity>)
      modifies api`remote, api`mutations
      ensures NothingFails(f) && (forall n :: n in Names(entity.spec) ==> NameAccepted(n)) ==> !failed
      ensures failed ==> exists fails: nat -> bool ::
                           Interrupted(entity.spec, TagStatus(None, None), old(api.remote), api.directory,
                                       FirstRunStops(fails), api.remote)
      ensures !failed ==> found == Fetched(api.directory, Names(entity.spec), entity.spec.accountId)
      ensures !failed ==>
                api.remote == FirstRunUpTo(old(api.remote), found, entity.spec.tags, f.firstAdd, |found|) &&
                forall i :: 0 <= i < |found| ==> !f.firstAdd(i)
    {
      hide Fetched, Add;
      failed, found := FetchEntitiesByName(Names(entity.spec), entity.spec.accountId, f.search);
      if failed {
        AllAddsFail(entity.spec, api.remote, api.directory);
        return;
      }
      for i := 0 to |found|
        invariant api.remote == FirstRunUpTo(old(api.remote), found, entity.spec.tags, f.firstAdd, i)
        invariant failed <==> exists j :: 0 <= j < i && f.firstAdd(j)
      {
        var ok := api.TaggingAddTagsToEntity(found[i].guid, entity.spec.tags, f.firstAdd(i));
        failed := failed || !ok;
      }
      assert Interrupted(entity.spec, TagStatus(None, None), old(api.remote), api.directory, FirstRunStops(f.firstAdd),
                         api.remote);
    }

    /** One reconcile of an object that is not being deleted: it completes, or it stops with the status as it was. */
    method Reconcile(stored: EntityTagging, f: TaggingFaults) returns (failed: bool)
      requires AllTidy(api.remote) && ValidTags(stored.spec.tags)
      requires stored.status.managed.Some? ==> DistinctEntityNames(stored.status.managed.value)
      modifies stored`status, api`remote, api`mutations
      ensures NothingFails(f) && (forall n :: n in Names(stored.spec) ==> NameAccepted(n)) ==> !failed
      ensures !failed ==>
                Reconciled(stored.spec, old(stored.status), old(api.remote), api.directory, stored.status, api.remote)
      ensures failed ==> stored.status == old(stored.status) &&
                         exists x: Interruption ::
                           Interrupted(stored.spec, stored.status, old(api.remote), api.directory, x, api.remote)
    {
      hide Fetched, Add, Retag, Tidy, NextManaged, Delete, CleanedRemote, GoneGuids;
      var entity := new EntityTagging(stored.spec, stored.status);
      if stored.status.managed.None? {
        var found;
        failed, found := FirstRun(entity, f);
        if failed {
          ghost var fails: nat -> bool :|
            Interrupted(entity.spec, TagStatus(None, None), old(api.remote), api.directory, FirstRunStops(fails),
                        api.remote);
          assert Interrupted(stored.spec, stored.status, old(api.remote), api.directory, FirstRunStops(fails),
                             api.remote);
          return;
        }
        if |found| == 0 {
          return;
        }
        FirstRunTags(old(api.remote), found, stored.spec.tags, f.firstAdd);
        stored.status := TagStatus(Some(entity.spec), Some(found));
        return;
      }
      ghost var start, st := api.remote, stored.status;
      failed := ReconcileEntities(entity, f);
      if failed {
        ghost var guids: set<string> :| guids <= GoneGuids(st.managed.value, entity.spec) &&
                                        SameOn(api.remote, CleanedRemote(start, guids, AppliedKeys(st)));
        assert Interrupted(stored.spec, st, start, api.directory, CleanupStops(guids), api.remote);
        return;
      }
      ghost var cleaned, list := api.remote, entity.status.managed.value;
      CleanedTidy(stored.spec, st, start, cleaned);
      if |entity.status.managed.value| > 0 {
        failed := HandleTags(entity, f.tags);
        if failed {
          TurnsFrom(Cleaned(stored.spec, st, start), cleaned, list, Desired(stored.spec.tags), f.tags, |list|);
          assert Interrupted(stored.spec, st, start, api.directory, TurnsStop(list, f.tags), api.remote);
          return;
        }
      }
      entity.status := entity.status.(applied := Some(entity.spec));
      stored.status := entity.status;
      TagsAfterReconcile(start, cleaned, api.remote, stored.spec, st, list);
    }

    /** On deletion: the applied keys are deleted from every managed entity; failures do not hold the object back. */
    method Finalize(entity: EntityTagging, fails: nat -> bool)
      modifies api`remote, api`mutations
      ensures Finalized(entity.status, old(api.remote), fails, api.remote)
    {
      hide Delete;
      if entity.status.managed.None? {
        return;
      }
      var managed := entity.status.managed.value;
      var keys := AppliedTagKeys(entity);
      NonemptyValues(keys);
      if |keys| == 0 {
        forall g | true
          ensures Delete(On(api.remote, g), AppliedKeys(entity.status)) == On(api.remote, g)
        {
          DeleteTwice(On(api.remote, g), AppliedKeys(entity.status));
        }
        return;
      }
      for i := 0 to |managed|
        invariant forall g :: On(api.remote, g) ==
                              if Added(managed, fails, i, g) then Delete(On(old(api.remote), g), Values(keys))
                              else On(old(api.remote), g)
      {
        DeleteTwice(On(old(api.remote), managed[i].guid), Values(keys));
        var _ := api.TaggingDeleteTagFromEntity(managed[i].guid, keys, fails(i));
        assert forall g :: Added(managed, fails, i + 1, g) <==>
                           Added(managed, fails, i, g) || (managed[i].guid == g && !fails(i));
      }
    }

    method ManagedEntitiesMap(managed: seq<ManagedEntity>) returns (m: map<string, string>)
      ensures m == GuidOf(managed)
    {
      m := map[];
      for i := 0 to |managed|
        invariant m == GuidOf(managed[..i])
      {
        assert managed[..i + 1][..i] == managed[..i];
        m := m[managed[i].name := managed[i].guid];
      }
      assert managed[..|managed|] == managed;
    }
  }

  function Behind(managed: map<string, string>, names: set<string>): set<string>
    requires names <= managed.Keys
  {
    set n | n in names :: managed[n]
  }

  /** The applied keys are gone from the entities behind these names, and nothing else changed. */
  ghost predicate CleanedBehind(before: Remote, after: Remote, managed: map<string, string>, names: set<string>,
                                keys: set<string>)
    requires names <= managed.Keys
  {
    forall g :: On(after, g) == if g in Behind(managed, names) then Delete(On(before, g), keys) else On(before, g)
  }

  lemma BehindIsCleaned(before: Remote, after: Remote, managed: map<string, string>, names: set<string>,
                        keys: set<string>)
    requires names <= managed.Keys && CleanedBehind(before, after, managed, names, keys)
    ensures SameOn(after, CleanedRemote(before, Behind(managed, names), keys))
  {
    hide Delete, CleanedRemote;
    forall g
      ensures On(after, g) == On(CleanedRemote(before, Behind(managed, names), keys), g)
    {
      CleanedOn(before, Behind(managed, names), keys, g);
    }
  }

  lemma NothingCleaned(remote: Remote, managed: map<string, string>, keys: set<string>)
    ensures forall names: set<string> :: names == {} ==> CleanedBehind(remote, remote, managed, names, keys)
  {
  }

  lemma OneCleaned(start: Remote, before: Remote, after: Remote, managed: map<string, string>, names: set<string>,
                   name: string, keys: set<string>)
    requires names <= managed.Keys && name in managed && CleanedBehind(start, before, managed, names, keys)
    requires after == (if keys == {} then before else before[managed[name] := Delete(On(before, managed[name]), keys)])
    ensures CleanedBehind(start, after, managed, names + {name}, keys)
  {
    var guids := Behind(managed, names);
    assert Behind(managed, names + {name}) == guids + {managed[name]};
    forall g | true
      ensures On(after, g) == if g in guids + {managed[name]} then Delete(On(start, g), keys) else On(start, g)
    {
      DeleteTwice(On(start, g), keys);
    }
  }

  lemma DeleteTwice(t: Tags, keys: set<string>)
    ensures Delete(Delete(t, keys), keys) == Delete(t, keys)
    ensures keys == {} ==> Delete(t, keys) == t
  {
    assert Delete(Delete(t, keys), keys).values == Delete(t, keys).values;
    assert keys == {} ==> t.values - keys == t.values && t.placed - keys == t.placed;
  }

  lemma FirstRunTags(remote: Remote, found: seq<ManagedEntity>, tags: seq<Tag>, fails: nat -> bool)
    requires AllTidy(remote) && forall i :: 0 <= i < |found| ==> !fails(i)
    ensures forall g :: On(FirstRunUpTo(remote, found, tags, fails, |found|), g) ==
                        if g in Guids(found) then Add(On(remote, g), tags) else On(remote, g)
  {
    hide Add;
    assert found[..|found|] == found;
    forall g | true
      ensures On(FirstRunUpTo(remote, found, tags, fails, |found|), g) ==
              if g in Guids(found) then Add(On(remote, g), tags) else On(remote, g)
    {
      FirstRunAllOnce(remote, found, tags, fails, |found|, g);
    }
  }

  lemma AllAddsFail(spec: TagSpec, remote: Remote, directory: seq<Entity>)
    ensures exists fails: nat -> bool ::
              Interrupted(spec, TagStatus(None, None), remote, directory, FirstRunStops(fails), remote)
  {
    hide Fetched;
    var fails: nat -> bool := i => true;
    var found := Fetched(directory, Names(spec), spec.accountId);
    NothingAdded(remote, found, spec.tags, fails, |found|);
    assert Interrupted(spec, TagStatus(None, None), remote, directory, FirstRunStops(fails), remote);
  }

  lemma {:induction false} NothingAdded(remote: Remote, found: seq<ManagedEntity>, tags: seq<Tag>, fails: nat -> bool,
                                        n: nat)
    requires n <= |found| && forall i :: 0 <= i < n ==> fails(i)
    ensures FirstRunUpTo(remote, found, tags, fails, n) == remote
  {
    if n > 0 {
      NothingAdded(remote, found, tags, fails, n - 1);
    }
  }

  lemma CleanedTidy(spec: TagSpec, st: TagStatus, start: Remote, cleaned: Remote)
    requires st.managed.Some? && AllTidy(start) && SameOn(cleaned, Cleaned(spec, st, start))
    ensures AllTidy(cleaned)
  {
    hide Tidy, CleanedRemote, GoneGuids;
    forall g
      ensures Tidy(On(cleaned, g))
    {
      CleanedAt(start, GoneGuids(st.managed.value, spec), AppliedKeys(st), g, "");
    }
  }

  /** The turns see the tags only. */
  lemma {:induction false} TurnsFrom(a: Remote, b: Remote, list: seq<ManagedEntity>, desired: map<string, seq<string>>,
                                     f: nat -> EntityFaults, n: nat)
    requires SameOn(a, b) && n <= |list|
    ensures SameOn(RetagUpTo(a, list, desired, f, n), RetagUpTo(b, list, desired, f, n))
  {
    hide Retag;
    if n > 0 {
      TurnsFrom(a, b, list, desired, f, n - 1);
      var aBefore, bBefore := RetagUpTo(a, list, desired, f, n - 1), RetagUpTo(b, list, desired, f, n - 1);
      forall g
        ensures On(RetagUpTo(a, list, desired, f, n), g) == On(RetagUpTo(b, list, desired, f, n), g)
      {
        assert On(aBefore, g) == On(bBefore, g);
      }
    }
  }

  function NoFaults(): nat -> EntityFaults { i => NO_FAULTS }

  lemma TagsAfterReconcile(start: Remote, cleaned: Remote, after: Remote, spec: TagSpec, st: TagStatus,
                           list: seq<ManagedEntity>)
    requires AllTidy(cleaned) && ValidTags(spec.tags) && st.managed.Some?
    requires SameOn(cleaned, Cleaned(spec, st, start))
    requires SameOn(after, RetagUpTo(cleaned, list, Desired(spec.tags), NoFaults(), |list|))
    ensures forall g :: On(after, g) ==
                        TagsAfter(On(start, g), g in GoneGuids(st.managed.value, spec), g in Guids(list),
                                  AppliedKeys(st), Desired(spec.tags))
  {
    hide Retag, Delete, CleanedRemote, GoneGuids, RetagUpTo;
    DesiredHasValues(spec.tags);
    assert list[..|list|] == list;
    forall g
      ensures On(after, g) ==
              TagsAfter(On(start, g), g in GoneGuids(st.managed.value, spec), g in Guids(list), AppliedKeys(st),
                  Desired(spec.tags))
    {
      CleanedOn(start, GoneGuids(st.managed.value, spec), AppliedKeys(st), g);
      RetagAllOnce(cleaned, list, Desired(spec.tags), NoFaults(), |list|, g);
    }
  }

  lemma NothingFetched(directory: seq<Entity>, account: int)
    ensures Fetched(directory, {}, account) == []
  {
  }

  lemma KeptAndFound(kept: seq<ManagedEntity>, found: seq<ManagedEntity>, managed: map<string, string>,
                     newNames: set<string>, directory: seq<Entity>, account: int)
    requires DistinctEntityNames(kept) && DistinctEntityNames(found) && newNames !! managed.Keys
    requires forall e :: e in kept ==> e.name in managed
    requires found == Fetched(directory, newNames, account)
    ensures DistinctEntityNames(kept + found)
  {
    hide Fetched;
    var all := kept + found;
    forall i, j | 0 <= i < j < |all|
      ensures all[i].name != all[j].name
    {
      if i < |kept| {
        assert all[i] in kept;
      }
      if j >= |kept| {
        assert all[j] == found[j - |kept|];
        FetchedIn(directory, newNames, account, all[j]);
      }
    }
  }

  lemma FetchFailed(t: Tags, desired: map<string, seq<string>>, f: EntityFaults)
    requires f.fetch
    ensures Retag(t, desired, f) == t
  {
  }

  lemma NothingSent(t: Tags)
    requires Tidy(t)
    ensures Delete(t, Values([])) == t && Add(t, []) == t && Replace(t, []) == t
  {
    assert Values([]) == {} && KeysOf([]) == {};
    forall k
      ensures ValueOf(Add(t, []), k) == ValueOf(t, k) && (k in Add(t, []).placed <==> k in t.placed)
      ensures ValueOf(Replace(t, []), k) == ValueOf(t, k) && (k in Replace(t, []).placed <==> k in t.placed)
    {
      AddAt(t, [], k);
      ReplaceAt(t, [], k);
      NoValues([], k);
    }
    AddAt(t, [], "");
    ReplaceAt(t, [], "");
    Pointwise(Add(t, []), t);
    Pointwise(Replace(t, []), t);
  }

  /** Where nothing differs the plan is empty. */
  lemma IdlePlan(plan: Plan, remote: map<string, set<string>>, desired: map<string, seq<string>>)
    requires PlanFor(plan, remote, desired)
    ensures (forall k :: !Differs(remote, desired, k)) ==> plan == Plan([], [], [])
  {
    hide SameValues, Differs;
    PlanCoversDifference(plan, remote, desired);
    if plan != Plan([], [], []) {
      var k :=
        if plan.delete != [] then plan.delete[0]
        else if plan.add != [] then plan.add[0].key
        else plan.update[0].key;
      assert k in Values(plan.delete) + KeysOf(plan.add) + KeysOf(plan.update);
      assert Differs(remote, desired, k);
    }
  }
}

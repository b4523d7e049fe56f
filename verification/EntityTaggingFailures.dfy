/** What an interrupted tagging reconcile leaves behind: exactly when it has put tags on entities that the status does
    not record, and what becomes of them. */
module EntityTaggingFailures {
  import opened Options
  import opened EntityTags
  import opened EntityTaggings

  function ManagedGuids(st: TagStatus): set<string> { if st.managed.Some? then Guids(st.managed.value) else {} }

  /** Only such keys are deleted when the entity leaves the spec or the object is deleted. */
  predicate Recorded(st: TagStatus, guid: string, key: string) { guid in ManagedGuids(st) && key in AppliedKeys(st) }

  predicate Unrecorded(st: TagStatus, remote: Remote, guid: string, key: string) {
    key in On(remote, guid).placed && !Recorded(st, guid, key)
  }

  /** Tags that the operator placed are on managed entities only, under applied keys. */
  ghost predicate Contained(st: TagStatus, remote: Remote) { forall g, k :: !Unrecorded(st, remote, g, k) }

  // ----- Interrupted reconciles -----

  /** How a reconcile stops before its status is written: the adds of a first run that fail, the entities whose applied
      keys were deleted before an error, or the turns of handleTags. A status that cannot be written after turns that
      all worked counts as the last. */
  datatype Interruption =
    | FirstRunStops(fails: nat -> bool)
    | CleanupStops(guids: set<string>)
    | TurnsStop(list: seq<ManagedEntity>, faults: nat -> EntityFaults)

  function CleanedRemote(remote: Remote, guids: set<string>, keys: set<string>): Remote {
    map g | g in remote :: if g in guids then Delete(remote[g], keys) else remote[g]
  }

  /** Tags after an interrupted reconcile; the status stays. */
  ghost predicate Interrupted(spec: TagSpec, st: TagStatus, remote: Remote, directory: seq<Entity>, x: Interruption,
                              remote': Remote) {
    match x
    case FirstRunStops(fails) =>
      var found := Fetched(directory, Names(spec), spec.accountId);
      st.managed.None? && SameOn(remote', FirstRunUpTo(remote, found, spec.tags, fails, |found|))
    case CleanupStops(guids) =>
      st.managed.Some? && guids <= GoneGuids(st.managed.value, spec) &&
      SameOn(remote', CleanedRemote(remote, guids, AppliedKeys(st)))
    case TurnsStop(list, f) =>
      st.managed.Some? && NextManaged(st.managed.value, spec, directory, list) &&
      SameOn(remote', RetagUpTo(Cleaned(spec, st, remote), list, Desired(spec.tags), f, |list|))
  }

  /** The tags once the applied keys are gone from the entities that left the spec. */
  function Cleaned(spec: TagSpec, st: TagStatus, remote: Remote): Remote
    requires st.managed.Some?
  {
    CleanedRemote(remote, GoneGuids(st.managed.value, spec), AppliedKeys(st))
  }

  /** The turn puts values under the key. */
  predicate Writes(t: Tags, desired: map<string, seq<string>>, f: EntityFaults, k: string) {
    !f.fetch && k in desired &&
    if k in t.values then !f.update && !SameValues(desired[k], t.values[k]) else !f.add
  }

  /** One of the first turns writes the key on the entity, judged by the tags before them all. */
  ghost predicate Written(remote: Remote, list: seq<ManagedEntity>, desired: map<string, seq<string>>,
                          f: nat -> EntityFaults, n: nat, g: string, k: string)
    requires n <= |list|
  {
    exists i :: 0 <= i < n && list[i].guid == g && Writes(On(remote, g), desired, f(i), k)
  }

  /** One of the first adds of a first run works on the entity. */
  predicate Added(found: seq<ManagedEntity>, fails: nat -> bool, n: nat, g: string)
    requires n <= |found|
  {
    exists i :: 0 <= i < n && found[i].guid == g && !fails(i)
  }

  /** The interrupted reconcile wrote a key where the status does not record it. */
  ghost predicate WritesUnrecorded(spec: TagSpec, st: TagStatus, remote: Remote, directory: seq<Entity>,
                                   x: Interruption, g: string, k: string) {
    match x
    case FirstRunStops(fails) =>
      var found := Fetched(directory, Names(spec), spec.accountId);
      k in KeysOf(spec.tags) && Added(found, fails, |found|, g)
    case CleanupStops(_) => false
    case TurnsStop(list, f) =>
      st.managed.Some? && !Recorded(st, g, k) &&
      Written(Cleaned(spec, st, remote), list, Desired(spec.tags), f, |list|, g, k)
  }

  // ----- What the calls place -----

  lemma CleanedOn(remote: Remote, guids: set<string>, keys: set<string>, g: string)
    ensures On(CleanedRemote(remote, guids, keys), g) ==
            if g in guids then Delete(On(remote, g), keys) else On(remote, g)
  {
    assert Delete(NO_TAGS, keys) == NO_TAGS;
  }

  lemma CleanedAt(remote: Remote, guids: set<string>, keys: set<string>, g: string, k: string)
    requires AllTidy(remote)
    ensures var r := CleanedRemote(remote, guids, keys);
            Tidy(On(r, g)) &&
            (k in On(r, g).placed <==> k in On(remote, g).placed && !(g in guids && k in keys))
  {
    hide Tidy;
    CleanedOn(remote, guids, keys, g);
    assert Tidy(On(remote, g));
    DeleteAt(On(remote, g), keys, k);
  }

  lemma TurnPlaces(t: Tags, desired: map<string, seq<string>>, f: EntityFaults, k: string)
    requires Tidy(t) && AllHaveValues(desired)
    ensures var r := Retag(t, desired, f);
            Tidy(r) && (k in r.placed ==> k in t.placed || Writes(t, desired, f, k)) &&
            (Writes(t, desired, f, k) || (k in desired && k in t.placed) ==> k in r.placed) &&
            (k in desired && !Writes(t, desired, f, k) ==> ValueOf(r, k) == ValueOf(t, k))
  {
    hide SameValues, Values;
    RetagTidy(t, desired, f);
    if !f.fetch {
      RetagAt(t, desired, f, k);
      if k in desired {
        NonemptyValues(desired[k]);
      }
    }
  }

  lemma WrittenStep(remote: Remote, list: seq<ManagedEntity>, desired: map<string, seq<string>>,
                    f: nat -> EntityFaults, n: nat, g: string, k: string)
    requires n < |list|
    ensures Written(remote, list, desired, f, n + 1, g, k) <==>
            Written(remote, list, desired, f, n, g, k) ||
            (list[n].guid == g && Writes(On(remote, g), desired, f(n), k))
  {
  }

  /** The turns place a key on an entity exactly if one of them writes it, judged by the tags before them all. */
  lemma {:induction false} TurnsPlace(remote: Remote, list: seq<ManagedEntity>, desired: map<string, seq<string>>,
                                      f: nat -> EntityFaults, n: nat, g: string, k: string)
    requires n <= |list| && AllTidy(remote) && AllHaveValues(desired)
    ensures var t, r := On(remote, g), On(RetagUpTo(remote, list, desired, f, n), g);
            Tidy(r) && (k in r.placed ==> k in t.placed || Written(remote, list, desired, f, n, g, k)) &&
            (Written(remote, list, desired, f, n, g, k) ==> k in r.placed && k in desired) &&
            (k in desired && !Written(remote, list, desired, f, n, g, k) ==> ValueOf(r, k) == ValueOf(t, k))
  {
    hide Retag, Written, SameValues, Tidy;
    assert Tidy(On(remote, g));
    if n == 0 {
      assert !Written(remote, list, desired, f, 0, g, k) by { NothingWritten(remote, list, desired, f, g, k); }
    } else {
      TurnsPlace(remote, list, desired, f, n - 1, g, k);
      WrittenStep(remote, list, desired, f, n - 1, g, k);
      var before := On(RetagUpTo(remote, list, desired, f, n - 1), g);
      TurnPlaces(before, desired, f(n - 1), k);
      SameWrites(On(remote, g), before, desired, f(n - 1), k);
    }
  }

  lemma NothingWritten(remote: Remote, list: seq<ManagedEntity>, desired: map<string, seq<string>>,
                       f: nat -> EntityFaults, g: string, k: string)
    ensures !Written(remote, list, desired, f, 0, g, k)
  {
  }

  lemma SameWrites(t: Tags, u: Tags, desired: map<string, seq<string>>, f: EntityFaults, k: string)
    requires Tidy(t) && Tidy(u)
    ensures ValueOf(t, k) == ValueOf(u, k) ==> (Writes(t, desired, f, k) <==> Writes(u, desired, f, k))
    ensures Writes(t, desired, f, k) ==> k in desired
  {
  }

  /** The adds of a first run place a key on an entity exactly if one of them works. */
  lemma {:induction false} FirstRunPlaces(remote: Remote, found: seq<ManagedEntity>, tags: seq<Tag>,
                                          fails: nat -> bool, n: nat, g: string, k: string)
    requires n <= |found| && ValidTags(tags) && AllTidy(remote)
    ensures var r := On(FirstRunUpTo(remote, found, tags, fails, n), g);
            Tidy(r) && (k in r.placed <==>
                        k in On(remote, g).placed ||
                        (k in KeysOf(tags) && Added(found, fails, n, g)))
  {
    hide Tidy, Add, KeysOf;
    assert Tidy(On(remote, g));
    if n > 0 {
      FirstRunPlaces(remote, found, tags, fails, n - 1, g, k);
      AddPlaces(On(FirstRunUpTo(remote, found, tags, fails, n - 1), g), tags, k);
    }
  }

  lemma AddPlaces(t: Tags, tags: seq<Tag>, k: string)
    requires Tidy(t) && ValidTags(tags)
    ensures var r := Add(t, tags); Tidy(r) && (k in r.placed <==> k in t.placed || k in KeysOf(tags))
  {
    AddAt(t, tags, k);
    if k in KeysOf(tags) {
      var i :| 0 <= i < |tags| && tags[i].key == k;
      assert tags[i].values[0] in tags[i].values;
      assert tags[i].values[0] in ValuesFor(tags, k);
    }
  }

  // ----- Exactly when a tag is left outside the record -----

  /** Where a key was not unrecorded before, it is after an interrupted reconcile exactly if that reconcile wrote it
      unrecorded. So one failure among several entities leaves what was put on the others unrecorded. */
  lemma InterruptedUnrecordedIff(spec: TagSpec, st: TagStatus, remote: Remote, directory: seq<Entity>, x: Interruption,
                                 after: Remote, g: string, k: string)
    requires ValidTags(spec.tags) && AllTidy(remote) && Interrupted(spec, st, remote, directory, x, after)
    ensures Tidy(On(after, g))
    ensures !Unrecorded(st, remote, g, k) ==>
              (Unrecorded(st, after, g, k) <==> WritesUnrecorded(spec, st, remote, directory, x, g, k))
  {
    hide Fetched, Tidy, GoneGuids, NextManaged, RetagUpTo, FirstRunUpTo, CleanedRemote, KeysOf, Added, Written;
    match x {
      case FirstRunStops(fails) =>
        var found := Fetched(directory, Names(spec), spec.accountId);
        FirstRunPlaces(remote, found, spec.tags, fails, |found|, g, k);
      case CleanupStops(guids) =>
        CleanedAt(remote, guids, AppliedKeys(st), g, k);
      case TurnsStop(list, f) =>
        DesiredHasValues(spec.tags);
        var guids := GoneGuids(st.managed.value, spec);
        forall h
          ensures Tidy(On(Cleaned(spec, st, remote), h))
        {
          CleanedAt(remote, guids, AppliedKeys(st), h, k);
        }
        CleanedAt(remote, guids, AppliedKeys(st), g, k);
        TurnsPlace(Cleaned(spec, st, remote), list, Desired(spec.tags), f, |list|, g, k);
    }
  }

  /** An interrupted reconcile keeps everything recorded exactly if it wrote recorded keys only. */
  lemma InterruptedContainedIff(spec: TagSpec, st: TagStatus, remote: Remote, directory: seq<Entity>, x: Interruption,
                                after: Remote)
    requires ValidTags(spec.tags) && AllTidy(remote) && Interrupted(spec, st, remote, directory, x, after)
    requires Contained(st, remote)
    ensures Contained(st, after) <==> forall g, k :: !WritesUnrecorded(spec, st, remote, directory, x, g, k)
  {
    hide Unrecorded, Interrupted, WritesUnrecorded;
    forall g, k
      ensures Unrecorded(st, after, g, k) <==> WritesUnrecorded(spec, st, remote, directory, x, g, k)
    {
      assert !Unrecorded(st, remote, g, k);
      InterruptedUnrecordedIff(spec, st, remote, directory, x, after, g, k);
    }
  }

  /** A first run that stops keeps everything recorded exactly if it put tags on no entity at all. */
  lemma FirstRunContainedIff(spec: TagSpec, remote: Remote, directory: seq<Entity>, fails: nat -> bool, after: Remote)
    requires ValidTags(spec.tags) && AllTidy(remote) && Contained(TagStatus(None, None), remote)
    requires Interrupted(spec, TagStatus(None, None), remote, directory, FirstRunStops(fails), after)
    ensures var found := Fetched(directory, Names(spec), spec.accountId);
            Contained(TagStatus(None, None), after) <==>
            spec.tags == [] || forall i :: 0 <= i < |found| ==> fails(i)
  {
    hide Fetched, Contained, Interrupted;
    var found := Fetched(directory, Names(spec), spec.accountId);
    InterruptedContainedIff(spec, TagStatus(None, None), remote, directory, FirstRunStops(fails), after);
    if spec.tags != [] {
      assert spec.tags[0].key in KeysOf(spec.tags);
      forall i | 0 <= i < |found| && !fails(i)
        ensures WritesUnrecorded(spec, TagStatus(None, None), remote, directory, FirstRunStops(fails), found[i].guid,
                                 spec.tags[0].key)
      {
        assert Added(found, fails, |found|, found[i].guid);
      }
    }
  }
}

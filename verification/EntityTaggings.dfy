/** Reconciling the managed entities of an EntityTagging: each in its own turn, the fetch by name, and who is managed
    afterwards. */
module EntityTaggings {
  import opened Options
  import opened EntityTags

  /** What New Relic has on every entity; an entity that is not listed has no tags. */
  type Remote = map<string, Tags>

  function On(remote: Remote, guid: string): Tags { if guid in remote then remote[guid] else NO_TAGS }

  ghost predicate AllTidy(remote: Remote) { forall g :: Tidy(On(remote, g)) }

  /** Tags are the same on every entity. */
  ghost predicate SameOn(a: Remote, b: Remote) { forall g :: On(a, g) == On(b, g) }

  // ----- handleTags: every managed entity in its own turn -----

  function RetagUpTo(remote: Remote, managed: seq<ManagedEntity>, desired: map<string, seq<string>>,
                     f: nat -> EntityFaults, n: nat): Remote
    requires n <= |managed|
  {
    if n == 0 then remote
    else
      var before := RetagUpTo(remote, managed, desired, f, n - 1);
      var guid := managed[n - 1].guid;
      before[guid := Retag(On(before, guid), desired, f(n - 1))]
  }

  predicate DistinctGuids(managed: seq<ManagedEntity>) {
    forall i, j :: 0 <= i < j < |managed| ==> managed[i].guid != managed[j].guid
  }

  function Guids(managed: seq<ManagedEntity>): set<string> { set i | 0 <= i < |managed| :: managed[i].guid }

  /** Failure isolation: an entity ends as its own calls leave it, whatever happens to the others; an entity that is
      not managed is not touched. */
  lemma {:induction false} RetagIsolated(remote: Remote, managed: seq<ManagedEntity>, desired: map<string, seq<string>>,
                                         f: nat -> EntityFaults, n: nat, i: nat)
    requires n <= |managed| && DistinctGuids(managed) && i < |managed|
    ensures var r := RetagUpTo(remote, managed, desired, f, n);
            On(r, managed[i].guid) ==
            if i < n then Retag(On(remote, managed[i].guid), desired, f(i)) else On(remote, managed[i].guid)
  {
    hide Retag;
    if n > 0 {
      RetagIsolated(remote, managed, desired, f, n - 1, i);
    }
  }

  lemma {:induction false} RetagElsewhere(remote: Remote, managed: seq<ManagedEntity>,
                                          desired: map<string, seq<string>>,
                                          f: nat -> EntityFaults, n: nat, guid: string)
    requires n <= |managed| && guid !in Guids(managed)
    ensures On(RetagUpTo(remote, managed, desired, f, n), guid) == On(remote, guid)
  {
    hide Retag;
    if n > 0 {
      RetagElsewhere(remote, managed, desired, f, n - 1, guid);
    }
  }

  /** An entity whose own calls succeed ends with exactly the desired keys and values, and then only repeated values
      would make a second pass call anything. */
  lemma EntityConverges(remote: Remote, managed: seq<ManagedEntity>, desired: map<string, seq<string>>,
                        f: nat -> EntityFaults, i: nat, plan: Plan)
    requires AllTidy(remote) && DistinctGuids(managed) && i < |managed| && f(i) == NO_FAULTS && AllHaveValues(desired)
    ensures var t := On(RetagUpTo(remote, managed, desired, f, |managed|), managed[i].guid);
            t.values.Keys == desired.Keys && (forall k :: k in desired ==> t.values[k] == Values(desired[k])) &&
            (PlanFor(plan, t.values, desired) ==>
               (plan == Plan([], [], []) <==> forall k :: k in desired ==> NoDuplicates(desired[k])))
  {
    hide Retag, PlanFor, NoDuplicates;
    RetagIsolated(remote, managed, desired, f, |managed|, i);
    var t := On(remote, managed[i].guid);
    RetagConverges(t, desired);
    if PlanFor(plan, Retag(t, desired, NO_FAULTS).values, desired) {
      SecondPassIdleIff(t, desired, plan);
    }
  }

  /** Without failures entities may share a GUID: a second turn changes nothing. */
  lemma {:induction false} RetagAllOnce(remote: Remote, managed: seq<ManagedEntity>, desired: map<string, seq<string>>,
                                        f: nat -> EntityFaults, n: nat, guid: string)
    requires n <= |managed| && AllTidy(remote) && AllHaveValues(desired) && forall i :: 0 <= i < n ==> f(i) == NO_FAULTS
    ensures On(RetagUpTo(remote, managed, desired, f, n), guid) ==
            if guid in Guids(managed[..n]) then Retag(On(remote, guid), desired, NO_FAULTS) else On(remote, guid)
  {
    hide Retag, Tidy;
    if n > 0 {
      RetagAllOnce(remote, managed, desired, f, n - 1, guid);
      RetagIdempotent(On(remote, guid), desired);
      AppendedGuids(managed, n);
    }
  }

  // ----- Fetching entities by name -----

  datatype Entity = Entity(name: string, guid: string, account: int)

  /** What the search query matches; an account of 0 matches every account. */
  predicate Matches(e: Entity, names: set<string>, account: int) {
    e.name in names && (account > 0 ==> e.account == account)
  }

  function NamesOf(managed: seq<ManagedEntity>): set<string> { set i | 0 <= i < |managed| :: managed[i].name }

  /** Only the first match of a name is kept. */
  function Fetched(directory: seq<Entity>, names: set<string>, account: int): seq<ManagedEntity> {
    if directory == [] then []
    else
      var e := directory[|directory| - 1];
      var before := Fetched(directory[..|directory| - 1], names, account);
      if Matches(e, names, account) && e.name !in NamesOf(before) then before + [ManagedEntity(e.name, e.guid)]
      else before
  }

  predicate DistinctEntityNames(managed: seq<ManagedEntity>) {
    forall i, j :: 0 <= i < j < |managed| ==> managed[i].name != managed[j].name
  }

  /** The fetched names are distinct and are exactly the names asked for that some entity matches. */
  lemma {:induction false} FetchedNames(directory: seq<Entity>, names: set<string>, account: int)
    ensures var found := Fetched(directory, names, account);
            DistinctEntityNames(found) &&
            forall n :: n in NamesOf(found) <==>
                        exists i :: 0 <= i < |directory| && directory[i].name == n &&
                            Matches(directory[i], names, account)
  {
    if directory != [] {
      var last := |directory| - 1;
      FetchedNames(directory[..last], names, account);
      var before, found := Fetched(directory[..last], names, account), Fetched(directory, names, account);
      forall n
        ensures n in NamesOf(found) <==>
                exists i :: 0 <= i < |directory| && directory[i].name == n && Matches(directory[i], names, account)
      {
        AppendedNames(before, directory[last]);
        if i :| 0 <= i < |directory| && directory[i].name == n && Matches(directory[i], names, account) {
          if i < last {
            assert directory[..last][i] == directory[i];
          }
        }
        if n in NamesOf(before) {
          var i :| 0 <= i < last && directory[..last][i].name == n && Matches(directory[..last][i], names, account);
          assert directory[i].name == n;
        }
      }
    }
  }

  predicate OfAccount(e: Entity, account: int) { account <= 0 || e.account == account }

  /** The first entity of a name in the listing that is of the account. */
  predicate FirstOf(directory: seq<Entity>, name: string, account: int, i: nat) {
    i < |directory| && directory[i].name == name && OfAccount(directory[i], account) &&
    forall k :: 0 <= k < i && directory[k].name == name ==> !OfAccount(directory[k], account)
  }

  lemma FirstOfPrefix(directory: seq<Entity>, name: string, account: int)
    requires directory != []
    ensures var last := |directory| - 1;
            forall i: nat :: FirstOf(directory, name, account, i) <==>
                             FirstOf(directory[..last], name, account, i) ||
                             (i == last && directory[last].name == name && OfAccount(directory[last], account) &&
                              forall k: nat :: !FirstOf(directory[..last], name, account, k))
  {
    var last := |directory| - 1;
    if (exists k :: 0 <= k < last && directory[k].name == name && OfAccount(directory[k], account)) {
      SomeFirst(directory[..last], name, account);
    }
  }

  lemma {:induction false} SomeFirst(directory: seq<Entity>, name: string, account: int)
    requires exists k :: 0 <= k < |directory| && directory[k].name == name && OfAccount(directory[k], account)
    ensures exists i: nat :: FirstOf(directory, name, account, i)
  {
    var k :| 0 <= k < |directory| && directory[k].name == name && OfAccount(directory[k], account);
    if !FirstOf(directory, name, account, k) {
      SomeFirst(directory[..k], name, account);
      var i: nat :| FirstOf(directory[..k], name, account, i);
      assert FirstOf(directory, name, account, i);
    }
  }

  predicate Named(directory: seq<Entity>, name: string, account: int) {
    exists k :: 0 <= k < |directory| && directory[k].name == name && OfAccount(directory[k], account)
  }

  /** The first entity listed that has the name and is of the account has this GUID. */
  ghost predicate Leads(directory: seq<Entity>, name: string, account: int, guid: string) {
    exists i: nat :: FirstOf(directory, name, account, i) && directory[i].guid == guid
  }

  lemma LeadsStep(directory: seq<Entity>, name: string, account: int, guid: string)
    requires directory != []
    ensures var last := |directory| - 1;
            Leads(directory, name, account, guid) <==>
            Leads(directory[..last], name, account, guid) ||
            (!Named(directory[..last], name, account) && directory[last].name == name &&
             OfAccount(directory[last], account) && directory[last].guid == guid)
  {
    var last := |directory| - 1;
    FirstOfPrefix(directory, name, account);
    if Named(directory[..last], name, account) {
      SomeFirst(directory[..last], name, account);
    }
    if Leads(directory[..last], name, account, guid) {
      var i: nat :| FirstOf(directory[..last], name, account, i) && directory[..last][i].guid == guid;
      assert FirstOf(directory, name, account, i) && directory[i].guid == guid;
    }
    if i: nat :| FirstOf(directory, name, account, i) && directory[i].guid == guid {
      if i < last {
        assert FirstOf(directory[..last], name, account, i) && directory[..last][i].guid == guid;
      }
    }
  }

  lemma FetchedNamed(directory: seq<Entity>, names: set<string>, account: int, n: string)
    ensures n in NamesOf(Fetched(directory, names, account)) <==> n in names && Named(directory, n, account)
  {
    FetchedNames(directory, names, account);
  }

  /** What is fetched: for each name asked for the first entity listed that has it and is of the account, if any. */
  lemma {:induction false} FetchedExact(directory: seq<Entity>, names: set<string>, account: int, e: ManagedEntity)
    ensures e in Fetched(directory, names, account) <==>
            e.name in names && Leads(directory, e.name, account, e.guid)
  {
    hide Leads, Named;
    if directory == [] {
      assert !Leads(directory, e.name, account, e.guid) by { NothingLeads(e.name, account, e.guid); }
    } else {
      var last := |directory| - 1;
      FetchedExact(directory[..last], names, account, e);
      FetchedNamed(directory[..last], names, account, e.name);
      LeadsStep(directory, e.name, account, e.guid);
    }
  }

  lemma NothingLeads(name: string, account: int, guid: string)
    ensures !Leads([], name, account, guid)
  {
  }

  function Search(directory: seq<Entity>, names: set<string>, account: int): (r: seq<Entity>)
    ensures forall e :: e in r ==> Matches(e, names, account)
  {
    if directory == [] then []
    else
      var e := directory[|directory| - 1];
      var before := Search(directory[..|directory| - 1], names, account);
      if Matches(e, names, account) then before + [e] else before
  }

  lemma {:induction false} SearchThenFetch(directory: seq<Entity>, names: set<string>, account: int)
    ensures Fetched(Search(directory, names, account), names, account) == Fetched(directory, names, account)
  {
    if directory != [] {
      var last := |directory| - 1;
      var before := Search(directory[..last], names, account);
      SearchThenFetch(directory[..last], names, account);
      assert (before + [directory[last]])[..|before|] == before;
    }
  }

  lemma AppendedNames(before: seq<ManagedEntity>, e: Entity)
    ensures NamesOf(before + [ManagedEntity(e.name, e.guid)]) == NamesOf(before) + {e.name}
  {
    var after := before + [ManagedEntity(e.name, e.guid)];
    assert forall i :: 0 <= i < |before| ==> after[i] == before[i];
    assert after[|before|].name == e.name;
  }

  // ----- reconcileEntities -----

  /** The managed entities by name; of a repeated name the last counts. */
  function GuidOf(managed: seq<ManagedEntity>): (m: map<string, string>)
    ensures m.Keys == NamesOf(managed)
  {
    if managed == [] then map[]
    else
      var last := |managed| - 1;
      AppendedNames(managed[..last], Entity(managed[last].name, managed[last].guid, 0));
      assert managed == managed[..last] + [managed[last]];
      GuidOf(managed[..last])[managed[last].name := managed[last].guid]
  }

  function Names(spec: TagSpec): set<string> { set n | n in spec.names }

  function Gone(managed: seq<ManagedEntity>, spec: TagSpec): set<string> { NamesOf(managed) - Names(spec) }

  function Fresh(managed: seq<ManagedEntity>, spec: TagSpec): set<string> { Names(spec) - NamesOf(managed) }

  function GoneGuids(managed: seq<ManagedEntity>, spec: TagSpec): set<string> {
    set n | n in Gone(managed, spec) :: GuidOf(managed)[n]
  }

  function AppliedKeys(st: TagStatus): set<string> {
    if st.applied.Some? then KeysOf(st.applied.value.tags) else {}
  }

  /** The managed entities after a reconcile, in any order: those that stay and those that were found. */
  ghost predicate NextManaged(managed: seq<ManagedEntity>, spec: TagSpec, directory: seq<Entity>,
                              list: seq<ManagedEntity>) {
    if Gone(managed, spec) == {} && Fresh(managed, spec) == {} then list == managed
    else
      DistinctEntityNames(list) &&
      forall e :: e in list <==>
                  (e.name in Names(spec) && e.name in NamesOf(managed) && e.guid == GuidOf(managed)[e.name]) ||
                  e in Fetched(directory, Fresh(managed, spec), spec.accountId)
  }

  lemma {:induction false} FetchedIn(directory: seq<Entity>, names: set<string>, account: int, e: ManagedEntity)
    requires e in Fetched(directory, names, account)
    ensures e.name in names
  {
    if e !in Fetched(directory[..|directory| - 1], names, account) {
    } else {
      FetchedIn(directory[..|directory| - 1], names, account, e);
    }
  }

  lemma NameIn(managed: seq<ManagedEntity>, n: string)
    ensures n in NamesOf(managed) <==> exists e :: e in managed && e.name == n
  {
    if e :| e in managed && e.name == n {
      var i :| 0 <= i < |managed| && managed[i] == e;
      assert managed[i].name == n;
    }
    if n in NamesOf(managed) {
      var i :| 0 <= i < |managed| && managed[i].name == n;
      assert managed[i] in managed;
    }
  }

  /** Who is managed afterwards: of the desired names, those managed before keep their entity, and each other one gets
      the first entity listed that has it and is of the account, if there is one. */
  lemma NextManagedExact(managed: seq<ManagedEntity>, spec: TagSpec, directory: seq<Entity>, list: seq<ManagedEntity>,
                         e: ManagedEntity)
    requires DistinctEntityNames(managed) && NextManaged(managed, spec, directory, list)
    ensures e in list <==>
            e.name in spec.names &&
            if exists m :: m in managed && m.name == e.name then e in managed
            else Leads(directory, e.name, spec.accountId, e.guid)
  {
    hide Fetched, Leads, GuidOf;
    NameIn(managed, e.name);
    ManagedGuid(managed, e);
    FetchedExact(directory, Fresh(managed, spec), spec.accountId, e);
    assert e.name in NamesOf(managed) && e.name !in Names(spec) ==> e.name in Gone(managed, spec);
  }

  lemma ManagedGuid(managed: seq<ManagedEntity>, e: ManagedEntity)
    requires DistinctEntityNames(managed)
    ensures e in managed <==> e.name in NamesOf(managed) && GuidOf(managed)[e.name] == e.guid
  {
    hide GuidOf;
    if e in managed {
      var i :| 0 <= i < |managed| && managed[i] == e;
      GuidOfEntry(managed, i);
    }
    if e.name in NamesOf(managed) {
      var i :| 0 <= i < |managed| && managed[i].name == e.name;
      GuidOfEntry(managed, i);
    }
  }

  /** Managed names stay distinct, and are exactly the desired names that were managed already or were found. */
  lemma ManagedNamesExact(managed: seq<ManagedEntity>, spec: TagSpec, directory: seq<Entity>, list: seq<ManagedEntity>)
    requires DistinctEntityNames(managed) && NextManaged(managed, spec, directory, list)
    ensures DistinctEntityNames(list)
    ensures forall n :: n in NamesOf(list) <==>
                        n in Names(spec) &&
                        (n in NamesOf(managed) ||
                         n in NamesOf(Fetched(directory, Fresh(managed, spec), spec.accountId)))
  {
    hide Fetched, DistinctEntityNames;
    var found := Fetched(directory, Fresh(managed, spec), spec.accountId);
    forall n
      ensures n in NamesOf(list) <==> n in Names(spec) && (n in NamesOf(managed) || n in NamesOf(found))
    {
      NameIn(list, n);
      NameIn(found, n);
      if n in NamesOf(found) {
        var e :| e in found && e.name == n;
        FetchedIn(directory, Fresh(managed, spec), spec.accountId, e);
      }
      if n in NamesOf(managed) && n in Names(spec) {
        assert Gone(managed, spec) != {} || Fresh(managed, spec) != {} ==> ManagedEntity(n, GuidOf(managed)[n]) in list;
      }
      assert n in NamesOf(managed) && n !in Names(spec) ==> n in Gone(managed, spec);
    }
  }

  lemma GuidOfStep(managed: seq<ManagedEntity>)
    requires managed != []
    ensures var last := |managed| - 1;
            GuidOf(managed) == GuidOf(managed[..last])[managed[last].name := managed[last].guid]
  {
  }

  lemma {:induction false} GuidOfEntry(managed: seq<ManagedEntity>, i: nat)
    requires DistinctEntityNames(managed) && i < |managed|
    ensures managed[i].name in GuidOf(managed) && GuidOf(managed)[managed[i].name] == managed[i].guid
  {
    hide GuidOf;
    var last := |managed| - 1;
    GuidOfStep(managed);
    if i < last {
      assert managed[..last][i] == managed[i];
      GuidOfEntry(managed[..last], i);
    }
  }

  // ----- A whole reconcile without failures -----

  /** What happens to the tags of one entity. */
  function TagsAfter(t: Tags, gone: bool, managed: bool, applied: set<string>,
                     desired: map<string, seq<string>>): Tags
  {
    var cleaned := if gone then Delete(t, applied) else t;
    if managed then Retag(cleaned, desired, NO_FAULTS) else cleaned
  }

  ghost predicate Reconciled(spec: TagSpec, st: TagStatus, remote: Remote, directory: seq<Entity>, st': TagStatus,
                             remote': Remote) {
    match st.managed
    case None =>
      var found := Fetched(directory, Names(spec), spec.accountId);
      if found == [] then st' == st && remote' == remote
      else
        st' == TagStatus(Some(spec), Some(found)) &&
        forall g :: On(remote', g) == if g in Guids(found) then Add(On(remote, g), spec.tags) else On(remote, g)
    case Some(managed) =>
      st'.applied == Some(spec) && st'.managed.Some? && NextManaged(managed, spec, directory, st'.managed.value) &&
      forall g :: On(remote', g) ==
                  TagsAfter(On(remote, g), g in GoneGuids(managed, spec), g in Guids(st'.managed.value),
                            AppliedKeys(st), Desired(spec.tags))
  }

  /** A first run records something exactly if some desired name is that of an entity of the account; if not, it changes
      nothing, and the next reconcile is a first run again. */
  lemma FirstRunRecordsIff(spec: TagSpec, st: TagStatus, remote: Remote, directory: seq<Entity>, st': TagStatus,
                           remote': Remote)
    requires st.managed.None? && Reconciled(spec, st, remote, directory, st', remote')
    ensures st'.managed.Some? <==> exists n :: n in spec.names && Named(directory, n, spec.accountId)
    ensures st'.managed.Some? ==>
              st'.applied == Some(spec) && DistinctEntityNames(st'.managed.value) &&
              forall e :: e in st'.managed.value <==>
                          e.name in spec.names && Leads(directory, e.name, spec.accountId, e.guid)
    ensures st'.managed.None? ==> st' == st && remote' == remote
  {
    hide Fetched, Leads, Named;
    var found := Fetched(directory, Names(spec), spec.accountId);
    FetchedNames(directory, Names(spec), spec.accountId);
    forall n
      ensures n in NamesOf(found) <==> n in spec.names && Named(directory, n, spec.accountId)
    {
      FetchedNamed(directory, Names(spec), spec.accountId, n);
    }
    if found != [] {
      assert found[0].name in NamesOf(found);
    }
    forall e: ManagedEntity
      ensures e in found <==> e.name in spec.names && Leads(directory, e.name, spec.accountId, e.guid)
    {
      FetchedExact(directory, Names(spec), spec.accountId, e);
    }
  }

  /** Every tag has values; the webhook requires it. */
  predicate ValidTags(tags: seq<Tag>) { forall i :: 0 <= i < |tags| ==> tags[i].values != [] }

  lemma {:induction false} DesiredHasValues(tags: seq<Tag>)
    requires ValidTags(tags)
    ensures AllHaveValues(Desired(tags))
  {
    if tags != [] {
      DesiredHasValues(tags[..|tags| - 1]);
    }
  }

  // ----- A first run -----

  function FirstRunUpTo(remote: Remote, found: seq<ManagedEntity>, tags: seq<Tag>, fails: nat -> bool, n: nat): Remote
    requires n <= |found|
  {
    if n == 0 then remote
    else
      var before := FirstRunUpTo(remote, found, tags, fails, n - 1);
      var guid := found[n - 1].guid;
      if fails(n - 1) then before else before[guid := Add(On(before, guid), tags)]
  }

  lemma AddTwice(t: Tags, tags: seq<Tag>)
    requires Tidy(t)
    ensures Tidy(Add(t, tags)) && Add(Add(t, tags), tags) == Add(t, tags)
  {
    hide Add, ValueOf, KeysOf, ValuesFor, Tidy;
    var a := Add(t, tags);
    AddAt(t, tags, "");
    AddAt(a, tags, "");
    forall k
      ensures ValueOf(Add(a, tags), k) == ValueOf(a, k) && (k in Add(a, tags).placed <==> k in a.placed)
    {
      AddAt(t, tags, k);
      AddAt(a, tags, k);
    }
    Pointwise(Add(a, tags), a);
  }

  lemma {:induction false} FirstRunAllOnce(remote: Remote, found: seq<ManagedEntity>, tags: seq<Tag>,
                                           fails: nat -> bool,
                                           n: nat, guid: string)
    requires n <= |found| && AllTidy(remote) && forall i :: 0 <= i < n ==> !fails(i)
    ensures On(FirstRunUpTo(remote, found, tags, fails, n), guid) ==
            if guid in Guids(found[..n]) then Add(On(remote, guid), tags) else On(remote, guid)
  {
    hide Add, Tidy;
    if n > 0 {
      FirstRunAllOnce(remote, found, tags, fails, n - 1, guid);
      AddTwice(On(remote, guid), tags);
      AppendedGuids(found, n);
    }
  }

  lemma AppendedGuids(managed: seq<ManagedEntity>, n: nat)
    requires 0 < n <= |managed|
    ensures Guids(managed[..n]) == Guids(managed[..n - 1]) + {managed[n - 1].guid}
  {
    assert forall i :: 0 <= i < n - 1 ==> managed[..n][i] == managed[..n - 1][i];
  }
}

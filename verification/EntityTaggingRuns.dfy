/** Whole runs of one EntityTagging, with edits, changes by others and reconciles that are interrupted anywhere: a tag
    is left behind on an entity that is not managed only where an interrupted reconcile put it unrecorded. */
module EntityTaggingRuns {
  import opened Options
  import opened EntityTags
  import opened EntityTaggings
  import opened EntityTaggingFailures

  datatype State = State(spec: TagSpec, status: TagStatus, remote: Remote)

  datatype Event =
    | Edited
    | Done(directory: seq<Entity>)
    | Stopped(directory: seq<Entity>, how: Interruption)
    | ChangedOutside

  /** Others may change any tags; what the operator placed and they delete is not outstanding any more. */
  ghost predicate Changed(remote: Remote, after: Remote) {
    forall g :: Tidy(On(after, g)) && On(after, g).placed == On(remote, g).placed * On(after, g).values.Keys
  }

  ghost predicate Step(a: State, e: Event, b: State) {
    match e
    case Edited => ValidTags(b.spec.tags) && b == a.(spec := b.spec)
    case Done(directory) =>
      b.spec == a.spec && Reconciled(a.spec, a.status, a.remote, directory, b.status, b.remote)
    case Stopped(directory, x) =>
      b == a.(remote := b.remote) && Interrupted(a.spec, a.status, a.remote, directory, x, b.remote)
    case ChangedOutside => b == a.(remote := b.remote) && Changed(a.remote, b.remote)
  }

  ghost predicate Run(trace: seq<State>, events: seq<Event>) {
    |trace| == |events| + 1 && ValidTags(trace[0].spec.tags) && trace[0].status == TagStatus(None, None) &&
    AllTidy(trace[0].remote) && (forall g :: On(trace[0].remote, g).placed == {}) &&
    forall i :: 0 <= i < |events| ==> Step(trace[i], events[i], trace[i + 1])
  }

  // ----- What every step keeps, whatever fails -----

  ghost predicate Orderly(s: State) {
    ValidTags(s.spec.tags) && AllTidy(s.remote) &&
    (s.status.managed.Some? ==> DistinctEntityNames(s.status.managed.value))
  }

  /** An entity that is dropped from the managed ones is among those whose applied keys are deleted. */
  lemma LeavingIsGone(managed: seq<ManagedEntity>, spec: TagSpec, directory: seq<Entity>, list: seq<ManagedEntity>,
                      guid: string)
    requires DistinctEntityNames(managed) && NextManaged(managed, spec, directory, list)
    requires guid in Guids(managed) && guid !in Guids(list)
    ensures guid in GoneGuids(managed, spec)
  {
    hide Fetched, DistinctEntityNames;
    var i :| 0 <= i < |managed| && managed[i].guid == guid;
    GuidOfEntry(managed, i);
    EntryHasGuid(list, managed[i]);
    assert managed[i] in managed;
  }

  lemma EntryHasGuid(managed: seq<ManagedEntity>, e: ManagedEntity)
    ensures e in managed ==> e.guid in Guids(managed)
  {
  }

  lemma {:induction false} GuidIsManaged(managed: seq<ManagedEntity>, name: string)
    requires name in GuidOf(managed)
    ensures GuidOf(managed)[name] in Guids(managed)
  {
    hide GuidOf;
    GuidOfStep(managed);
    var last := |managed| - 1;
    if managed[last].name != name {
      GuidIsManaged(managed[..last], name);
      var i :| 0 <= i < last && managed[..last][i].guid == GuidOf(managed[..last])[name];
      assert managed[i].guid == GuidOf(managed)[name];
    }
  }

  lemma GoneIsManaged(managed: seq<ManagedEntity>, spec: TagSpec, guid: string)
    requires guid in GoneGuids(managed, spec)
    ensures guid in Guids(managed)
  {
    hide GuidOf, Guids;
    var n :| n in Gone(managed, spec) && GuidOf(managed)[n] == guid;
    GuidIsManaged(managed, n);
  }

  /** A turn that works leaves placed tags under desired keys only; without one they are what cleaning leaves. */
  lemma TagsAfterAt(t: Tags, gone: bool, managed: bool, applied: set<string>, desired: map<string, seq<string>>,
                    k: string)
    requires Tidy(t) && AllHaveValues(desired)
    ensures var r := TagsAfter(t, gone, managed, applied, desired);
            Tidy(r) && (managed && k in r.placed ==> k in desired) &&
            (!managed ==> (k in r.placed <==> k in t.placed && !(gone && k in applied)))
    ensures gone && !managed ==> TagsAfter(t, gone, managed, applied, desired).values.Keys !! applied
  {
    hide Retag;
    var cleaned := if gone then Delete(t, applied) else t;
    DeleteAt(t, applied, k);
    RetagConverges(cleaned, desired);
  }

  /** A completed reconcile leaves a tag unrecorded exactly where it was so before and the entity is not managed now. */
  lemma DoneUnrecordedIff(a: State, directory: seq<Entity>, b: State, g: string, k: string)
    requires Orderly(a) && Step(a, Done(directory), b) && a.status.managed.Some?
    ensures Tidy(On(b.remote, g))
    ensures Unrecorded(b.status, b.remote, g, k) <==>
            Unrecorded(a.status, a.remote, g, k) && g !in ManagedGuids(b.status)
  {
    hide Fetched, TagsAfter, GoneGuids, Tidy, NextManaged, DistinctEntityNames, KeysOf, Guids;
    DesiredHasValues(a.spec.tags);
    var managed, list := a.status.managed.value, b.status.managed.value;
    var gone := g in GoneGuids(managed, a.spec);
    assert Tidy(On(a.remote, g));
    TagsAfterAt(On(a.remote, g), gone, g in Guids(list), AppliedKeys(a.status), Desired(a.spec.tags), k);
    if gone {
      GoneIsManaged(managed, a.spec, g);
    }
    if g in Guids(managed) && g !in Guids(list) {
      LeavingIsGone(managed, a.spec, directory, list, g);
    }
  }

  /** A first run that completes records what it adds. */
  lemma FirstDoneUnrecorded(a: State, directory: seq<Entity>, b: State, g: string, k: string)
    requires Orderly(a) && Step(a, Done(directory), b) && a.status.managed.None?
    ensures Tidy(On(b.remote, g))
    ensures Unrecorded(b.status, b.remote, g, k) ==> Unrecorded(a.status, a.remote, g, k)
  {
    hide Fetched, Tidy, Add, KeysOf, Guids;
    assert Tidy(On(a.remote, g));
    AddPlaces(On(a.remote, g), a.spec.tags, k);
  }

  lemma StepKeepsOrder(a: State, e: Event, b: State)
    requires Orderly(a) && Step(a, e, b)
    ensures Orderly(b)
  {
    hide Tidy, Reconciled, Interrupted, DistinctEntityNames;
    match e {
      case Edited =>
      case ChangedOutside =>
      case Stopped(directory, x) =>
        forall g
          ensures Tidy(On(b.remote, g))
        {
          InterruptedUnrecordedIff(a.spec, a.status, a.remote, directory, x, b.remote, g, "");
        }
      case Done(directory) =>
        NamesStayDistinct(a, directory, b);
        forall g
          ensures Tidy(On(b.remote, g))
        {
          if a.status.managed.Some? {
            DoneUnrecordedIff(a, directory, b, g, "");
          } else {
            FirstDoneUnrecorded(a, directory, b, g, "");
          }
        }
    }
  }

  lemma NamesStayDistinct(a: State, directory: seq<Entity>, b: State)
    requires Orderly(a) && Step(a, Done(directory), b)
    ensures b.status.managed.Some? ==> DistinctEntityNames(b.status.managed.value)
  {
    hide Fetched, TagsAfter, GoneGuids, Tidy, Add, Guids, DistinctEntityNames;
    if a.status.managed.None? {
      FetchedNames(directory, Names(a.spec), a.spec.accountId);
    } else {
      ManagedNamesExact(a.status.managed.value, a.spec, directory, b.status.managed.value);
    }
  }

  lemma {:induction false} RunIsOrderly(trace: seq<State>, events: seq<Event>, i: nat)
    requires Run(trace, events) && i < |trace|
    ensures Orderly(trace[i])
  {
    hide Step, Orderly, Tidy;
    if i == 0 {
      StartIsOrderly(trace, events);
    } else {
      RunIsOrderly(trace, events, i - 1);
      StepKeepsOrder(trace[i - 1], events[i - 1], trace[i]);
    }
  }

  lemma StartIsOrderly(trace: seq<State>, events: seq<Event>)
    requires Run(trace, events)
    ensures Orderly(trace[0])
  {
  }

  // ----- No tag leak -----

  /** None of the first events is an interrupted reconcile that wrote this key on this entity unrecorded. */
  ghost predicate NeverUnrecorded(trace: seq<State>, events: seq<Event>, i: nat, g: string, k: string)
    requires i <= |events| < |trace|
  {
    forall j :: 0 <= j < i && events[j].Stopped? ==>
      !WritesUnrecorded(trace[j].spec, trace[j].status, trace[j].remote, events[j].directory, events[j].how, g, k)
  }

  lemma StepKeepsRecord(a: State, e: Event, b: State, g: string, k: string)
    requires Orderly(a) && Step(a, e, b) && !Unrecorded(a.status, a.remote, g, k)
    ensures match e
            case Stopped(directory, x) =>
              Unrecorded(b.status, b.remote, g, k) <==>
              WritesUnrecorded(a.spec, a.status, a.remote, directory, x, g, k)
            case _ => !Unrecorded(b.status, b.remote, g, k)
  {
    hide Tidy, Reconciled, Interrupted, DistinctEntityNames, WritesUnrecorded;
    match e {
      case Edited =>
      case ChangedOutside =>
      case Stopped(directory, x) =>
        InterruptedUnrecordedIff(a.spec, a.status, a.remote, directory, x, b.remote, g, k);
      case Done(directory) =>
        if a.status.managed.Some? {
          DoneUnrecordedIff(a, directory, b, g, k);
        } else {
          FirstDoneUnrecorded(a, directory, b, g, k);
        }
    }
  }

  lemma {:induction false} RunKeepsRecord(trace: seq<State>, events: seq<Event>, i: nat, g: string, k: string)
    requires Run(trace, events) && i < |trace| && NeverUnrecorded(trace, events, i, g, k)
    ensures !Unrecorded(trace[i].status, trace[i].remote, g, k)
  {
    hide Step, Orderly, Tidy, WritesUnrecorded;
    if i > 0 {
      RunKeepsRecord(trace, events, i - 1, g, k);
      RunIsOrderly(trace, events, i - 1);
      StepKeepsRecord(trace[i - 1], events[i - 1], trace[i], g, k);
    }
  }

  /** No tag leak: in any run, with any edits, any changes by others and reconciles that stop anywhere, an entity that
      is not managed carries a tag of the operator only if a reconcile that stopped put it there unrecorded. */
  lemma NoTagLeak(trace: seq<State>, events: seq<Event>, i: nat, g: string, k: string)
    requires Run(trace, events) && i < |trace| && NeverUnrecorded(trace, events, i, g, k)
    ensures var s := trace[i];
            (g !in ManagedGuids(s.status) ==> k !in On(s.remote, g).placed) &&
            (s.status.managed.Some? ==> DistinctEntityNames(s.status.managed.value))
  {
    hide Step, Run, Tidy, NeverUnrecorded;
    RunKeepsRecord(trace, events, i, g, k);
    RunIsOrderly(trace, events, i);
  }

  /** In the reconcile in which an entity stops being managed, every key that was applied to it is deleted. */
  lemma LeavingIsCleaned(trace: seq<State>, events: seq<Event>, i: nat, g: string)
    requires Run(trace, events) && i < |events| && events[i].Done?
    requires g in ManagedGuids(trace[i].status) && g !in ManagedGuids(trace[i + 1].status)
    ensures On(trace[i + 1].remote, g).values.Keys !! AppliedKeys(trace[i].status)
  {
    hide Tidy, Fetched, GoneGuids, TagsAfter;
    RunIsOrderly(trace, events, i);
    var a, b := trace[i], trace[i + 1];
    assert Step(a, events[i], b);
    DesiredHasValues(a.spec.tags);
    LeavingIsGone(a.status.managed.value, a.spec, events[i].directory, b.status.managed.value, g);
    assert Tidy(On(a.remote, g));
    TagsAfterAt(On(a.remote, g), true, false, AppliedKeys(a.status), Desired(a.spec.tags), "");
  }

  // ----- The finalizer -----

  /** When the object is deleted every applied key is deleted from every managed entity for which a call works. */
  ghost predicate Finalized(st: TagStatus, remote: Remote, fails: nat -> bool, after: Remote) {
    forall g :: On(after, g) ==
                if st.managed.Some? && Added(st.managed.value, fails, |st.managed.value|, g) then
                  Delete(On(remote, g), AppliedKeys(st))
                else On(remote, g)
  }

  /** A recorded tag is left when the object goes exactly if every delete for its entity failed. */
  lemma FinalizerLeavesIff(trace: seq<State>, events: seq<Event>, i: nat, fails: nat -> bool, after: Remote, g: string,
                           k: string)
    requires Run(trace, events) && i < |trace| && NeverUnrecorded(trace, events, i, g, k)
    requires Finalized(trace[i].status, trace[i].remote, fails, after)
    ensures k in On(after, g).placed <==>
            k in On(trace[i].remote, g).placed &&
            !(trace[i].status.managed.Some? &&
              exists j :: 0 <= j < |trace[i].status.managed.value| && trace[i].status.managed.value[j].guid == g &&
                          !fails(j))
  {
    hide Step, Run, Tidy, NeverUnrecorded;
    RunKeepsRecord(trace, events, i, g, k);
  }

  // ----- Inputs for which a tag is left behind -----

  const TWO := [Entity("a", "A", 1), Entity("b", "B", 1)]
  const ENV := [Tag("env", ["prod"])]

  function Naming(names: seq<string>): TagSpec { TagSpec(1, names, ENV) }

  /** Two entities are found and the second add fails. The first entity leaves the spec, the next reconcile completes,
      and its tag stays although nothing manages it. */
  lemma FailedFirstRunLeavesTag()
    ensures exists trace: seq<State>, events: seq<Event>, g: string, k: string ::
              Run(trace, events) && events != [] && events[|events| - 1].Done? &&
              trace[|events|].status.managed.Some? && g !in ManagedGuids(trace[|events|].status) &&
              k in On(trace[|events|].remote, g).placed
  {
    hide Add, KeysOf, Fetched, Interrupted, Reconciled, Tidy;
    var t := Add(NO_TAGS, ENV);
    var fails: nat -> bool := i => i == 1;
    var none := TagStatus(None, None);
    var start := State(Naming(["a", "b"]), none, map[]);
    var stopped := start.(remote := map["A" := t]);
    var edited := stopped.(spec := Naming(["b"]));
    var done := State(edited.spec, TagStatus(Some(edited.spec), Some([ManagedEntity("b", "B")])),
                      map["A" := t, "B" := t]);
    var trace := [start, stopped, edited, done];
    var events := [Stopped(TWO, FirstRunStops(fails)), Edited, Done(TWO)];
    FirstIsStopped(fails, t);
    SecondIsDone(t, done.status);
    assert Tidy(NO_TAGS) by { NothingIsTidy(); }
    AddPlaces(NO_TAGS, ENV, "env");
    KeyIn(ENV, 0);
    assert Run(trace, events);
    assert trace[|events|] == done && events[|events| - 1] == Done(TWO);
    assert "A" !in ManagedGuids(done.status) && "env" in On(done.remote, "A").placed;
  }

  lemma NothingIsTidy()
    ensures Tidy(NO_TAGS)
  {
  }

  lemma KeyIn(tags: seq<Tag>, i: nat)
    requires i < |tags|
    ensures tags[i].key in KeysOf(tags)
  {
  }

  lemma FirstIsStopped(fails: nat -> bool, t: Tags)
    requires !fails(0) && fails(1) && t == Add(NO_TAGS, ENV)
    ensures Interrupted(Naming(["a", "b"]), TagStatus(None, None), map[], TWO, FirstRunStops(fails), map["A" := t])
  {
    hide Add, Fetched;
    var spec := Naming(["a", "b"]);
    FetchedTwo(Names(spec));
    assert spec.names[0] in Names(spec) && spec.names[1] in Names(spec);
    var found := [ManagedEntity("a", "A"), ManagedEntity("b", "B")];
    assert Fetched(TWO, Names(spec), 1) == found;
    assert FirstRunUpTo(map[], found, ENV, fails, 1) == map["A" := t];
  }

  lemma SecondIsDone(t: Tags, status: TagStatus)
    requires t == Add(NO_TAGS, ENV)
    requires status == TagStatus(Some(Naming(["b"])), Some([ManagedEntity("b", "B")]))
    ensures Reconciled(Naming(["b"]), TagStatus(None, None), map["A" := t], TWO, status, map["A" := t, "B" := t])
  {
    hide Add, Fetched;
    var spec := Naming(["b"]);
    FetchedTwo(Names(spec));
    assert spec.names[0] in Names(spec) && "a" !in Names(spec);
    var found := [ManagedEntity("b", "B")];
    assert Fetched(TWO, Names(spec), 1) == found && found[0].guid in Guids(found);
  }

  lemma FetchedTwo(names: set<string>)
    ensures Fetched(TWO, names, 1) ==
            (if "a" in names then [ManagedEntity("a", "A")] else []) +
            (if "b" in names then [ManagedEntity("b", "B")] else [])
  {
    assert TWO[..1] == [Entity("a", "A", 1)] && TWO[..1][..0] == [];
    AppendedNames([], TWO[0]);
    assert Fetched(TWO[..1], names, 1) == if "a" in names then [ManagedEntity("a", "A")] else [];
  }

  /** Two managed entities get a new tag and the turn of the second fails: the tag on the first is not recorded, so that
      it stays if that entity leaves the spec. */
  lemma FailedTurnLeavesTag()
    ensures exists spec: TagSpec, st: TagStatus, remote: Remote, directory: seq<Entity>, x: Interruption, after: Remote,
                g: string, k: string ::
              ValidTags(spec.tags) && AllTidy(remote) && Contained(st, remote) && st.managed.Some? &&
              Interrupted(spec, st, remote, directory, x, after) && Unrecorded(st, after, g, k)
  {
    hide Tidy;
    var list := [ManagedEntity("a", "A"), ManagedEntity("b", "B")];
    var spec := Naming(["a", "b"]);
    var st := TagStatus(Some(spec.(tags := [])), Some(list));
    var f: nat -> EntityFaults := i => if i == 0 then NO_FAULTS else NO_FAULTS.(add := true);
    var x := TurnsStop(list, f);
    var after := RetagUpTo(Cleaned(spec, st, map[]), list, Desired(ENV), f, 2);
    assert NamesOf(list) == Names(spec) by {
      assert list[0].name == spec.names[0] && list[1].name == spec.names[1];
    }
    assert Interrupted(spec, st, map[], [], x, after);
    assert Writes(On(Cleaned(spec, st, map[]), list[0].guid), Desired(ENV), f(0), "env") by { KeyIn(ENV, 0); }
    assert WritesUnrecorded(spec, st, map[], [], x, "A", "env");
    NothingIsTidy();
    assert AllTidy(map[]) && Contained(st, map[]);
    InterruptedUnrecordedIff(spec, st, map[], [], x, after, "A", "env");
  }
}

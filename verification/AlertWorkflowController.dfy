/** The AlertWorkflow reconciler over the object as it lies in memory: the applied spec is a pointer that comes to point
    at the spec itself. Calls succeed, but New Relic may refuse to delete a channel that is gone. */
module AlertWorkflowController {
  import opened Options
  import opened AlertWorkflows

  class WorkflowSpec {
    var channels: array<Channel>

    constructor (channels: array<Channel>)
      ensures this.channels == channels
    {
      this.channels := channels;
    }
  }

  class AlertWorkflow {
    const spec: WorkflowSpec
    var appliedSpec: WorkflowSpec?
    var workflowId: nat

    constructor (spec: WorkflowSpec, appliedSpec: WorkflowSpec?, workflowId: nat)
      ensures this.spec == spec && this.appliedSpec == appliedSpec && this.workflowId == workflowId
    {
      this.spec, this.appliedSpec, this.workflowId := spec, appliedSpec, workflowId;
    }

    ghost function Configured(): seq<Channel>
      reads this, spec, spec.channels
    {
      spec.channels[..]
    }

    ghost function Applied(): seq<Channel>
      requires appliedSpec != null
      reads this, appliedSpec, appliedSpec.channels
    {
      appliedSpec.channels[..]
    }
  }

  class NotificationsApi {
    var store: Channels
    const refusesGone: bool

    constructor (store: Channels, refusesGone: bool)
      ensures this.store == store && this.refusesGone == refusesGone
    {
      this.store, this.refusesGone := store, refusesGone;
    }

    /** The ID if a channel with it is live, else blank; with a blank ID the search finds no channel of that ID. */
    method GetExistingChannel(id: nat) returns (existing: nat)
      ensures existing == if id in store.live then id else 0
    {
      existing := if id in store.live then id else 0;
    }

    method CreateChannel(spec: ChannelSpec) returns (id: nat)
      modifies this
      ensures id == old(store.next) && store == Channels(old(store.live)[id := spec], id + 1)
    {
      id := store.next;
      store := Channels(store.live[id := spec], id + 1);
    }

    method UpdateChannel(id: nat, spec: ChannelSpec)
      requires id in store.live
      modifies this
      ensures store == old(store).(live := old(store.live)[id := Updated(old(store.live[id]), spec)])
    {
      store := store.(live := store.live[id := Updated(store.live[id], spec)]);
    }

    method DeleteChannel(id: nat) returns (ok: bool)
      modifies this
      ensures ok <==> id in old(store.live) || !refusesGone
      ensures store == old(store).(live := old(store.live) - {id})
    {
      ok := id in store.live || !refusesGone;
      store := store.(live := store.live - {id});
    }
  }

  datatype Handling = Completed | IndexOutOfRange | DeleteRefused

  datatype ProcessedChannel = ProcessedChannel(id: nat, name: string, processed: bool)

  /** The configured channel at a position after the applied IDs were copied by position and name. */
  function WithAppliedId(configured: seq<Channel>, applied: seq<Channel>, i: nat): Channel
    requires i < |configured|
  {
    configured[i].(id := WantedId(configured, applied, i))
  }

  ghost predicate Remembers(ps: seq<ProcessedChannel>, applied: seq<Channel>, n: nat)
    requires n <= |applied|
  {
    |ps| == n && forall j :: 0 <= j < n ==> ps[j].id == applied[j].id && ps[j].name == applied[j].spec.name
  }

  /** A configured destination configuration of the workflow. */
  datatype DestinationConfiguration = DestinationConfiguration(channelId: nat, triggers: seq<string>,
      updateOriginal: Option<bool>)

  class AlertWorkflowReconciler {
    const api: NotificationsApi

    constructor (api: NotificationsApi)
      ensures this.api == api
    {
      this.api := api;
    }

    method HaveChannelsChanged(workflow: AlertWorkflow) returns (changed: bool)
      requires workflow.appliedSpec != null
      ensures changed == ChannelsChanged(workflow.Configured(), workflow.Applied())
    {
      var configured, observed := workflow.spec.channels, workflow.appliedSpec.channels;
      if configured.Length != observed.Length {
        return true;
      }
      for i := 0 to configured.Length
        invariant forall k :: 0 <= k < i ==> configured[k].spec == observed[k].spec
      {
        if configured[i].spec != observed[i].spec {
          assert workflow.Configured()[i].spec != workflow.Applied()[i].spec;
          return true;
        }
      }
      changed := false;
    }

    /** The first loop of handleChannels. */
    method CopyAppliedIds(workflow: AlertWorkflow) returns (processed: seq<ProcessedChannel>)
      requires workflow.appliedSpec != null && workflow.appliedSpec.channels != workflow.spec.channels
      modifies workflow.spec.channels
      ensures Remembers(processed, workflow.Applied(), |workflow.Applied()|)
      ensures forall j :: 0 <= j < |processed| ==> !processed[j].processed
      ensures forall k :: 0 <= k < workflow.spec.channels.Length ==>
                            workflow.spec.channels[k] ==
                            WithAppliedId(old(workflow.Configured()), workflow.Applied(), k)
    {
      var channels, applied := workflow.spec.channels, workflow.appliedSpec.channels;
      ghost var configured := channels[..];
      processed := [];
      for i := 0 to applied.Length
        invariant applied[..] == old(applied[..]) && Remembers(processed, applied[..], i)
        invariant forall j :: 0 <= j < i ==> !processed[j].processed
        invariant forall k :: 0 <= k < channels.Length ==>
                                channels[k] ==
                                if k < i then WithAppliedId(configured, applied[..], k) else configured[k]
      {
        var existing := applied[i];
        processed := processed + [ProcessedChannel(existing.id, existing.spec.name, false)];
        if i < channels.Length {
          if existing.spec.name == channels[i].spec.name {
            channels[i] := channels[i].(id := existing.id);
          }
        }
      }
    }

    /** The inner loop over the applied channels: for one with the ID of the configured channel the entry at the place
        of the configured channel is marked. The index is out of range past the end of the applied list. */
    method KeepChannel(workflow: AlertWorkflow, i: nat, c: Channel, before: seq<ProcessedChannel>)
      returns (inRange: bool, processed: seq<ProcessedChannel>)
      requires workflow.appliedSpec != null && workflow.appliedSpec.channels != workflow.spec.channels
      requires |workflow.Applied()| == |before| && i < workflow.spec.channels.Length
      requires c.id in api.store.live && workflow.spec.channels[i] == c
      modifies workflow.spec.channels, api
      ensures workflow.Configured() == old(workflow.Configured())
      ensures var applied := c.id in Ids(workflow.Applied());
              (inRange <==> !applied || i < |before|) &&
              (inRange ==>
                 processed == (if applied then before[i := before[i].(processed := true)] else before) &&
                 api.store == HandleFound(old(api.store), workflow.Applied(), c))
      ensures !inRange ==> api.store == old(api.store)
    {
      var channels, applied := workflow.spec.channels, workflow.appliedSpec.channels;
      ghost var observed := applied[..];
      inRange, processed := true, before;
      NoneBefore(observed, c, api.store);
      for j := 0 to applied.Length
        invariant channels[..] == old(channels[..]) && applied[..] == observed && |processed| == |before|
        invariant c.id in Ids(observed[..j]) ==> i < |before|
        invariant processed == if c.id in Ids(observed[..j]) then before[i := before[i].(processed := true)] else before
        invariant api.store == HandleFound(old(api.store), observed[..j], c)
      {
        OneMore(observed, j, c, old(api.store));
        if applied[j].id == c.id {
          if i >= |processed| {
            assert applied[j].id in Ids(observed);
            NoneMarked(observed, j, c, old(api.store));
            return false, processed;
          }
          processed := processed[i := processed[i].(processed := true)];
          if c.spec != applied[j].spec {
            api.UpdateChannel(c.id, c.spec);
            channels[i] := c;
          }
        }
      }
      assert observed[..applied.Length] == observed;
    }

    /** One turn of the second loop. */
    method HandleChannel(workflow: AlertWorkflow, i: nat, before: seq<ProcessedChannel>, resolve: ChannelSpec -> nat,
                         ghost configured: seq<Channel>, ghost start: Channels)
      returns (inRange: bool, processed: seq<ProcessedChannel>)
      requires workflow.appliedSpec != null && workflow.appliedSpec.channels != workflow.spec.channels
      requires i < workflow.spec.channels.Length == |configured| && Issued(configured, start)
      requires workflow.spec.channels[i] == WithAppliedId(configured, workflow.Applied(), i)
      requires Wf(start) && Issued(workflow.Applied(), start)
      requires api.store == HandledUpTo(configured, workflow.Applied(), start, resolve, i)
      requires |before| == |workflow.Applied()|
      modifies workflow.spec.channels, api
      ensures inRange <==> !OutOfRangeAt(configured, workflow.Applied(), start, i)
      ensures !inRange ==> api.store == old(api.store)
      ensures inRange ==>
                api.store == HandledUpTo(configured, workflow.Applied(), start, resolve, i + 1) &&
                workflow.Configured() ==
                old(workflow.Configured())[i := Handled(configured, workflow.Applied(), start, resolve, i)] &&
                processed ==
                if Marked(configured, workflow.Applied(), start, i) then before[i := before[i].(processed := true)]
                else before
    {
      hide HandledUpTo, AppliedDiffers;
      var channels := workflow.spec.channels;
      ghost var applied := workflow.Applied();
      var c := channels[i];
      LiveBefore(configured, applied, start, resolve, i, c);
      HandledUpToStep(configured, applied, start, resolve, i);
      var existing := api.GetExistingChannel(c.id);
      if existing != 0 {
        inRange, processed := KeepChannel(workflow, i, c, before);
      } else {
        inRange, processed := true, before;
        c := c.(spec := c.spec.(destinationId := resolve(c.spec)));
        var id := api.CreateChannel(c.spec);
        channels[i] := c.(id := id);
      }
    }

    /** Three ways to end. The index of a mark is out of range exactly if a configured channel past the end of the
        applied list is found under an applied ID; then nothing has been deleted. A delete is refused exactly if an
        applied channel to delete is gone and New Relic minds. In both cases the applied spec is as it was. */
    method HandleChannels(workflow: AlertWorkflow, resolve: ChannelSpec -> nat) returns (outcome: Handling)
      requires workflow.appliedSpec != null && workflow.appliedSpec.channels != workflow.spec.channels
      requires Issued(workflow.Configured(), api.store) && Wf(api.store)
      requires Issued(workflow.Applied(), api.store)
      modifies workflow`appliedSpec, workflow.spec.channels, api
      ensures outcome == IndexOutOfRange <==>
              OutOfRange(old(workflow.Configured()), old(workflow.Applied()), old(api.store))
      ensures outcome == DeleteRefused <==>
              outcome != IndexOutOfRange && api.refusesGone &&
              exists k :: 0 <= k < |old(workflow.Applied())| &&
                          DeletesGone(old(workflow.Configured()), old(workflow.Applied()), old(api.store), k)
      ensures outcome != Completed ==> workflow.appliedSpec == old(workflow.appliedSpec)
      ensures outcome == IndexOutOfRange ==> old(api.store.live.Keys) <= api.store.live.Keys
      ensures outcome == DeleteRefused ==>
                Refused(old(workflow.Configured()), old(workflow.Applied()), old(api.store), resolve, api.store)
      ensures outcome == Completed ==>
                workflow.appliedSpec == workflow.spec &&
                workflow.Configured() ==
                HandledChannels(old(workflow.Configured()), old(workflow.Applied()), old(api.store), resolve) &&
                api.store == HandledStore(old(workflow.Configured()), old(workflow.Applied()), old(api.store), resolve)
    {
      hide Handled, HandledUpTo, Marked, WithAppliedId, Wf, Issued, OutOfRangeAt, DeletesGone, DroppedUpTo;
      var channels, applied := workflow.spec.channels, workflow.appliedSpec.channels;
      ghost var configured, observed, start := channels[..], applied[..], api.store;
      HandledUpToZero(configured, observed, start, resolve);
      MarkedInBounds(configured, observed, start);
      var processed := CopyAppliedIds(workflow);
      for i := 0 to channels.Length
        invariant workflow.appliedSpec == old(workflow.appliedSpec)
        invariant applied[..] == observed && Remembers(processed, observed, |observed|)
        invariant api.store == HandledUpTo(configured, observed, start, resolve, i)
        invariant forall k :: 0 <= k < i ==> channels[k] == Handled(configured, observed, start, resolve, k)
        invariant forall k :: i <= k < channels.Length ==> channels[k] == WithAppliedId(configured, observed, k)
        invariant forall k :: 0 <= k < i ==> !OutOfRangeAt(configured, observed, start, k)
        invariant forall j :: 0 <= j < |processed| ==>
                                (processed[j].processed <==> j < i && Marked(configured, observed, start, j))
      {
        ghost var before := channels[..];
        var inRange;
        inRange, processed := HandleChannel(workflow, i, processed, resolve, configured, start);
        if !inRange {
          return IndexOutOfRange;
        }
        assert forall k :: 0 <= k < channels.Length ==> channels[k] == workflow.Configured()[k];
        assert forall k :: 0 <= k < channels.Length && k != i ==> channels[k] == before[k];
      }
      assert channels[..] == HandledChannels(configured, observed, start, resolve);
      LiveIfIssued(configured, observed, start, resolve);
      ghost var stop;
      var ok;
      ok, stop := DeleteUnprocessed(processed, configured, observed, start);
      if !ok {
        assert DeletesGone(configured, observed, start, stop);
        assert api.store == RefusedAt(configured, observed, start, resolve, stop);
        return DeleteRefused;
      }
      workflow.appliedSpec := workflow.spec;
      outcome := Completed;
    }

    /** The third loop. */
    method DeleteUnprocessed(processed: seq<ProcessedChannel>, ghost configured: seq<Channel>,
                             ghost applied: seq<Channel>, ghost start: Channels)
      returns (ok: bool, ghost stop: nat)
      requires Remembers(processed, applied, |applied|)
      requires forall j :: 0 <= j < |applied| ==> (processed[j].processed <==> Marked(configured, applied, start, j))
      requires forall j :: 0 <= j < |applied| ==> (applied[j].id in api.store.live <==> applied[j].id in start.live)
      modifies api
      ensures stop <= |applied|
      ensures forall k :: 0 <= k < stop ==> !(api.refusesGone && DeletesGone(configured, applied, start, k))
      ensures !ok ==> stop < |applied| && api.refusesGone && DeletesGone(configured, applied, start, stop)
      ensures ok ==> stop == |applied|
      ensures api.store ==
              old(api.store).(live := old(api.store.live) - DroppedUpTo(configured, applied, start, stop))
    {
      hide Marked;
      stop := 0;
      for k := 0 to |processed|
        invariant stop == k
        invariant api.store ==
                  old(api.store).(live := old(api.store.live) - DroppedUpTo(configured, applied, start, k))
        invariant forall j :: 0 <= j < k ==> !(api.refusesGone && DeletesGone(configured, applied, start, j))
      {
        var entry := processed[k];
        DroppedStep(configured, applied, start, k);
        if !entry.processed {
          if entry.id != 0 {
            ghost var before := api.store;
            ok := api.DeleteChannel(entry.id);
            if !ok {
              assert api.store.live == before.live;
              return;
            }
          }
        }
        stop := k + 1;
      }
      ok := true;
    }

    /** What is sent to the workflow; the channel loops stay in bounds because both lists are equally long. */
    method UpdateWorkflow(workflow: AlertWorkflow) returns (sent: seq<DestinationConfiguration>)
      requires workflow.appliedSpec != null
      requires workflow.appliedSpec.channels.Length == workflow.spec.channels.Length
      modifies workflow`appliedSpec, workflow.spec.channels
      ensures workflow.appliedSpec == workflow.spec
      ensures |workflow.Configured()| == |old(workflow.Applied())| == |sent|
      ensures forall i :: 0 <= i < |sent| ==>
                workflow.Configured()[i] == old(workflow.Configured()[i]).(id := old(workflow.Applied()[i].id)) &&
                sent[i] == DestinationConfiguration(workflow.Configured()[i].id, workflow.Configured()[i].triggers,
                                                    workflow.Configured()[i].updateOriginal)
    {
      var channels, applied := workflow.spec.channels, workflow.appliedSpec.channels;
      for c := 0 to applied.Length
        invariant forall k :: 0 <= k < channels.Length ==>
                                channels[k] ==
                                if k < c then old(channels[k]).(id := old(applied[k].id)) else old(channels[k])
        invariant forall k :: 0 <= k < applied.Length ==> applied[k].id == old(applied[k].id)
      {
        channels[c] := channels[c].(id := applied[c].id);
      }
      sent := [];
      for i := 0 to channels.Length
        invariant |sent| == i
        invariant forall k :: 0 <= k < i ==>
                                sent[k] == DestinationConfiguration(old(applied[k].id), channels[k].triggers,
                                    channels[k].updateOriginal)
      {
        sent := sent + [DestinationConfiguration(applied[i].id, channels[i].triggers, channels[i].updateOriginal)];
      }
      workflow.appliedSpec := workflow.spec;
    }

    /** The reconcile of a workflow that exists in New Relic; whether its other settings changed is given. */
    method ReconcileExisting(workflow: AlertWorkflow, settingsChanged: bool, resolve: ChannelSpec -> nat)
      returns (outcome: Handling, sent: Option<seq<DestinationConfiguration>>)
      requires workflow.appliedSpec != null && workflow.appliedSpec.channels != workflow.spec.channels
      requires Issued(workflow.Configured(), api.store) && Wf(api.store)
      requires Issued(workflow.Applied(), api.store)
      modifies workflow`appliedSpec, workflow.spec.channels, api
      ensures workflow.appliedSpec != null
      ensures outcome == IndexOutOfRange <==>
              ChannelsChanged(old(workflow.Configured()), old(workflow.Applied())) &&
              OutOfRange(old(workflow.Configured()), old(workflow.Applied()), old(api.store))
      ensures outcome == DeleteRefused <==>
              old(workflow.Configured()) != [] && outcome != IndexOutOfRange && api.refusesGone &&
              ChannelsChanged(old(workflow.Configured()), old(workflow.Applied())) &&
              exists k :: 0 <= k < |old(workflow.Applied())| &&
                          DeletesGone(old(workflow.Configured()), old(workflow.Applied()), old(api.store), k)
      ensures outcome != Completed ==> workflow.appliedSpec == old(workflow.appliedSpec) && sent.None?
      ensures outcome == DeleteRefused ==>
                Refused(old(workflow.Configured()), old(workflow.Applied()), old(api.store), resolve, api.store)
      ensures outcome == Completed ==>
                var (a, t) := Reconciled(old(workflow.Configured()), old(workflow.Applied()), old(api.store), resolve);
                api.store == t && |workflow.Applied()| == |a| &&
                forall i :: 0 <= i < |a| ==>
                              workflow.Applied()[i].id == a[i].id && workflow.Applied()[i].spec == a[i].spec
      ensures sent.Some? ==> |sent.value| == |workflow.Applied()| &&
                             forall i :: 0 <= i < |sent.value| ==> sent.value[i].channelId == workflow.Applied()[i].id
      ensures outcome == Completed ==>
                (sent.Some? <==> old(workflow.Configured()) != [] &&
                                 (settingsChanged ||
                                  ChannelsChanged(old(workflow.Configured()), old(workflow.Applied()))))
    {
      hide HandledChannels, HandledStore, Refused, DeletesGone, OutOfRangeAt;
      outcome, sent := Completed, None;
      if workflow.spec.channels.Length == 0 {
        return;
      }
      var changed := HaveChannelsChanged(workflow);
      if changed {
        outcome := HandleChannels(workflow, resolve);
        if outcome != Completed {
          return;
        }
      }
      if changed || settingsChanged {
        var s := UpdateWorkflow(workflow);
        sent := Some(s);
      }
    }
  }

  lemma LiveIfIssued(configured: seq<Channel>, applied: seq<Channel>, s: Channels, resolve: ChannelSpec -> nat)
    requires Issued(applied, s) && Wf(s)
    ensures forall j :: 0 <= j < |applied| ==>
              (applied[j].id in HandledUpTo(configured, applied, s, resolve, |configured|).live <==>
               applied[j].id in s.live)
  {
    hide HandledUpTo, HandledChannels, Ids, Found, LookupId;
    var r := HandledChannels(configured, applied, s, resolve);
    LiveUpTo(configured, applied, s, resolve, |configured|);
    assert r[..|configured|] == r;
    forall j | 0 <= j < |applied|
      ensures applied[j].id in Ids(r) ==> applied[j].id in s.live
    {
      HandledUnder(configured, applied, s, resolve, applied[j].id);
      FoundUnderIsLive(configured, applied, s, applied[j].id);
    }
  }

  lemma MarkedInBounds(configured: seq<Channel>, applied: seq<Channel>, s: Channels)
    ensures forall j: nat :: Marked(configured, applied, s, j) ==> j < |configured| && j < |applied|
  {
  }

  /** A channel is found in its turn exactly if it was live to begin with. */
  lemma LiveBefore(configured: seq<Channel>, applied: seq<Channel>, s: Channels, resolve: ChannelSpec -> nat, i: nat,
                   c: Channel)
    requires i < |configured| && Issued(configured, s) && Issued(applied, s) && Wf(s)
    requires c == WithAppliedId(configured, applied, i)
    ensures var before := HandledUpTo(configured, applied, s, resolve, i);
            (c.id in before.live <==> Found(configured, applied, s, i)) && 0 !in before.live
    ensures OutOfRangeAt(configured, applied, s, i) <==>
            Found(configured, applied, s, i) && c.id in Ids(applied) && i >= |applied|
  {
    hide Handled;
    LiveUpTo(configured, applied, s, resolve, i);
    HandledIdsDistinctIff(configured, applied, s, resolve);
    LookupIsIssued(configured, applied, s, i);
  }

  lemma NoneBefore(applied: seq<Channel>, c: Channel, s: Channels)
    requires c.id in s.live
    ensures c.id !in Ids(applied[..0]) && HandleFound(s, applied[..0], c) == s
  {
  }

  lemma NoneMarked(applied: seq<Channel>, j: nat, c: Channel, s: Channels)
    requires j <= |applied| && c.id in s.live
    ensures c.id !in Ids(applied[..j]) ==> HandleFound(s, applied[..j], c) == s
  {
    if c.id !in Ids(applied[..j]) {
      assert forall k :: 0 <= k < j ==> applied[..j][k].id in Ids(applied[..j]);
    }
  }

  lemma OneMore(applied: seq<Channel>, j: nat, c: Channel, s: Channels)
    requires j < |applied| && c.id in s.live
    ensures c.id in Ids(applied[..j + 1]) <==> c.id in Ids(applied[..j]) || applied[j].id == c.id
    ensures var before := HandleFound(s, applied[..j], c);
            HandleFound(s, applied[..j + 1], c) ==
            if applied[j].id == c.id && applied[j].spec != c.spec then
              before.(live := before.live[c.id := Updated(before.live[c.id], c.spec)])
            else before
  {
    AppendedId(applied, j + 1);
    assert forall k :: 0 <= k < j ==> applied[..j + 1][k] == applied[..j][k];
    assert AppliedDiffers(applied[..j + 1], c) <==>
           AppliedDiffers(applied[..j], c) || (applied[j].id == c.id && applied[j].spec != c.spec) by {
      assert applied[..j + 1][j] == applied[j];
      if k :| 0 <= k < j && applied[..j][k].id == c.id && applied[..j][k].spec != c.spec {
        assert applied[..j + 1][k] == applied[..j][k];
      }
    }
    assert Updated(Updated(s.live[c.id], c.spec), c.spec) == Updated(s.live[c.id], c.spec);
  }

  lemma DroppedStep(configured: seq<Channel>, applied: seq<Channel>, s: Channels, n: nat)
    requires n < |applied|
    ensures DroppedUpTo(configured, applied, s, n + 1) ==
            DroppedUpTo(configured, applied, s, n) +
            if Marked(configured, applied, s, n) || applied[n].id == 0 then {} else {applied[n].id}
  {
  }
}

/** The channels of an AlertWorkflow: which are kept, created and deleted when the configured list changes. */
module AlertWorkflows {
  import opened Options

  /** The settings that only a create sends, and those that an update sends too. */
  datatype ChannelSpec = ChannelSpec(name: string, destinationName: string, destinationId: nat, kind: string,
      details: string)

  /** An ID of 0 is blank. */
  datatype Channel = Channel(id: nat, triggers: seq<string>, updateOriginal: Option<bool>, spec: ChannelSpec)

  /** New Relic: the live channels, and the next fresh ID. */
  datatype Channels = Channels(live: map<nat, ChannelSpec>, next: nat)

  ghost predicate Wf(s: Channels) { s.next > 0 && forall c :: c in s.live ==> 0 < c < s.next }

  function Ids(cs: seq<Channel>): set<nat> { set i | 0 <= i < |cs| :: cs[i].id }

  predicate DistinctIds(cs: seq<Channel>) { forall i, j :: 0 <= i < j < |cs| ==> cs[i].id != cs[j].id }

  predicate AllLive(cs: seq<Channel>, s: Channels) { forall i :: 0 <= i < |cs| ==> cs[i].id in s.live }

  /** A user may write the ID of a channel, but not one that is yet to be given out. */
  predicate Issued(cs: seq<Channel>, s: Channels) { forall i :: 0 <= i < |cs| ==> cs[i].id < s.next }

  predicate ChannelsChanged(configured: seq<Channel>, applied: seq<Channel>) {
    |configured| != |applied| || exists i :: 0 <= i < |configured| && configured[i].spec != applied[i].spec
  }

  // ----- handleChannels -----

  /** A channel takes over an applied ID when its position and its name are those of the applied channel. */
  predicate Keep(configured: seq<Channel>, applied: seq<Channel>, i: nat) {
    i < |configured| && i < |applied| && configured[i].spec.name == applied[i].spec.name
  }

  /** The ID a configured channel is searched by: the one taken over, or the one the user wrote. */
  function LookupId(configured: seq<Channel>, applied: seq<Channel>, i: nat): nat
    requires i < |configured|
  {
    if Keep(configured, applied, i) then applied[i].id else configured[i].id
  }

  predicate Found(configured: seq<Channel>, applied: seq<Channel>, s: Channels, i: nat) {
    i < |configured| && LookupId(configured, applied, i) in s.live
  }

  /** The applied channel at this position is spared: the configured one here is found under some applied ID. */
  predicate Marked(configured: seq<Channel>, applied: seq<Channel>, s: Channels, i: nat) {
    i < |applied| && Found(configured, applied, s, i) && LookupId(configured, applied, i) in Ids(applied)
  }

  /** A configured channel past the end of the applied list is found under an applied ID, so that it would be marked out
      of range. */
  predicate OutOfRangeAt(configured: seq<Channel>, applied: seq<Channel>, s: Channels, i: nat) {
    |applied| <= i < |configured| && configured[i].id in Ids(applied) && configured[i].id in s.live
  }

  predicate OutOfRange(configured: seq<Channel>, applied: seq<Channel>, s: Channels) {
    exists i :: 0 <= i < |configured| && OutOfRangeAt(configured, applied, s, i)
  }

  function CreatedBefore(configured: seq<Channel>, applied: seq<Channel>, s: Channels, i: nat): nat
    requires i <= |configured|
  {
    if i == 0 then 0
    else CreatedBefore(configured, applied, s, i - 1) + if Found(configured, applied, s, i - 1) then 0 else 1
  }

  /** The channel at a position once it is handled; resolve gives the destination a new channel is created with. */
  function Handled(configured: seq<Channel>, applied: seq<Channel>, s: Channels, resolve: ChannelSpec -> nat,
                   i: nat): Channel
    requires i < |configured|
  {
    var c := configured[i];
    if Found(configured, applied, s, i) then c.(id := LookupId(configured, applied, i))
    else
      c.(id := s.next + CreatedBefore(configured, applied, s, i),
         spec := c.spec.(destinationId := resolve(c.spec)))
  }

  function HandledChannels(configured: seq<Channel>, applied: seq<Channel>, s: Channels, resolve: ChannelSpec -> nat):
      (r: seq<Channel>)
    ensures |r| == |configured|
    ensures forall i :: 0 <= i < |r| ==> r[i] == Handled(configured, applied, s, resolve, i)
  {
    seq(|configured|, i requires 0 <= i < |configured| => Handled(configured, applied, s, resolve, i))
  }

  /** An update sends the name and the details; the rest of a live channel stays. */
  function Updated(remote: ChannelSpec, spec: ChannelSpec): ChannelSpec {
    remote.(name := spec.name, details := spec.details)
  }

  /** An applied channel with this ID has another spec. */
  predicate AppliedDiffers(applied: seq<Channel>, c: Channel) {
    exists j :: 0 <= j < |applied| && applied[j].id == c.id && applied[j].spec != c.spec
  }

  function HandleFound(s: Channels, applied: seq<Channel>, c: Channel): Channels
    requires c.id in s.live
  {
    if AppliedDiffers(applied, c) then s.(live := s.live[c.id := Updated(s.live[c.id], c.spec)]) else s
  }

  /** New Relic after the first i configured channels. */
  function HandledUpTo(configured: seq<Channel>, applied: seq<Channel>, s: Channels, resolve: ChannelSpec -> nat,
                       i: nat): (r: Channels)
    requires i <= |configured|
    ensures r.next == s.next + CreatedBefore(configured, applied, s, i) && s.live.Keys <= r.live.Keys
  {
    if i == 0 then s
    else
      var before := HandledUpTo(configured, applied, s, resolve, i - 1);
      var c := Handled(configured, applied, s, resolve, i - 1);
      if !Found(configured, applied, s, i - 1) then Channels(before.live[c.id := c.spec], before.next + 1)
      else HandleFound(before, applied, c)
  }

  /** The first applied channels that are not spared, which are deleted. */
  function DroppedUpTo(configured: seq<Channel>, applied: seq<Channel>, s: Channels, n: nat): set<nat> {
    set j | 0 <= j < n && j < |applied| && !Marked(configured, applied, s, j) && applied[j].id != 0 :: applied[j].id
  }

  function Dropped(configured: seq<Channel>, applied: seq<Channel>, s: Channels): set<nat> {
    DroppedUpTo(configured, applied, s, |applied|)
  }

  function HandledStore(configured: seq<Channel>, applied: seq<Channel>, s: Channels,
                        resolve: ChannelSpec -> nat): Channels
  {
    var r := HandledUpTo(configured, applied, s, resolve, |configured|);
    r.(live := r.live - Dropped(configured, applied, s))
  }

  /** The channel to delete for this entry is not there, because others deleted it. */
  predicate DeletesGone(configured: seq<Channel>, applied: seq<Channel>, s: Channels, k: nat) {
    k < |applied| && !Marked(configured, applied, s, k) && applied[k].id != 0 &&
    applied[k].id !in s.live.Keys - DroppedUpTo(configured, applied, s, k)
  }

  /** What is left if the first such delete is refused. */
  ghost predicate Refused(configured: seq<Channel>, applied: seq<Channel>, s: Channels, resolve: ChannelSpec -> nat,
                          t: Channels) {
    exists k :: 0 <= k < |applied| && DeletesGone(configured, applied, s, k) &&
                (forall j :: 0 <= j < k ==> !DeletesGone(configured, applied, s, j)) &&
                t == RefusedAt(configured, applied, s, resolve, k)
  }

  function RefusedAt(configured: seq<Channel>, applied: seq<Channel>, s: Channels, resolve: ChannelSpec -> nat,
                     k: nat): Channels
  {
    var r := HandledUpTo(configured, applied, s, resolve, |configured|);
    r.(live := r.live - DroppedUpTo(configured, applied, s, k))
  }

  // ----- What that means -----

  lemma {:induction false} CreatedGrows(configured: seq<Channel>, applied: seq<Channel>, s: Channels, i: nat, j: nat)
    requires i < j <= |configured|
    ensures CreatedBefore(configured, applied, s, i) <= CreatedBefore(configured, applied, s, j)
    ensures !Found(configured, applied, s, i) ==>
              CreatedBefore(configured, applied, s, i) < CreatedBefore(configured, applied, s, j)
  {
    if i < j - 1 {
      CreatedGrows(configured, applied, s, i, j - 1);
    }
  }

  /** No two configured channels are found under the same ID. */
  predicate DistinctLookups(configured: seq<Channel>, applied: seq<Channel>, s: Channels) {
    forall i, j :: 0 <= i < j < |configured| && Found(configured, applied, s, i) &&
                   Found(configured, applied, s, j) ==>
      LookupId(configured, applied, i) != LookupId(configured, applied, j)
  }

  /** Channels that are created get IDs of their own; so all IDs are distinct exactly if no two configured channels are
      found under the same one. */
  lemma HandledIdsDistinctIff(configured: seq<Channel>, applied: seq<Channel>, s: Channels,
                              resolve: ChannelSpec -> nat)
    requires Wf(s)
    ensures var r := HandledChannels(configured, applied, s, resolve);
            (DistinctIds(r) <==> DistinctLookups(configured, applied, s)) &&
            forall i :: 0 <= i < |r| ==>
              if Found(configured, applied, s, i) then r[i].id == LookupId(configured, applied, i) < s.next
              else r[i].id >= s.next
  {
    hide LookupId;
    var r := HandledChannels(configured, applied, s, resolve);
    forall i, j | 0 <= i < j < |r|
      ensures r[i].id == r[j].id <==>
              Found(configured, applied, s, i) && Found(configured, applied, s, j) &&
              LookupId(configured, applied, i) == LookupId(configured, applied, j)
    {
      CreatedGrows(configured, applied, s, i, j);
    }
  }

  lemma HandledUpToStep(configured: seq<Channel>, applied: seq<Channel>, s: Channels, resolve: ChannelSpec -> nat,
                        i: nat)
    requires i < |configured|
    ensures var before := HandledUpTo(configured, applied, s, resolve, i);
            var c := Handled(configured, applied, s, resolve, i);
            var found := Found(configured, applied, s, i);
            c.id == (if found then LookupId(configured, applied, i) else before.next) &&
            before.next == s.next + CreatedBefore(configured, applied, s, i) &&
            (found ==> c.id in before.live && c.spec == configured[i].spec) &&
            HandledUpTo(configured, applied, s, resolve, i + 1) ==
            if found then HandleFound(before, applied, c)
            else Channels(before.live[c.id := c.spec], before.next + 1)
  {
  }

  lemma HandledUpToZero(configured: seq<Channel>, applied: seq<Channel>, s: Channels, resolve: ChannelSpec -> nat)
    ensures HandledUpTo(configured, applied, s, resolve, 0) == s
    ensures Ids(HandledChannels(configured, applied, s, resolve)[..0]) == {}
  {
  }

  lemma {:induction false} LiveUpTo(configured: seq<Channel>, applied: seq<Channel>, s: Channels,
                                    resolve: ChannelSpec -> nat, i: nat)
    requires i <= |configured| && Wf(s)
    ensures var r := HandledUpTo(configured, applied, s, resolve, i);
            Wf(r) && r.live.Keys == s.live.Keys + Ids(HandledChannels(configured, applied, s, resolve)[..i])
  {
    hide Handled, HandledUpTo, Ids, Found, AppliedDiffers;
    HandledUpToZero(configured, applied, s, resolve);
    if i > 0 {
      LiveUpTo(configured, applied, s, resolve, i - 1);
      HandledUpToStep(configured, applied, s, resolve, i - 1);
      var all := HandledChannels(configured, applied, s, resolve);
      AppendedId(all, i);
      assert all[i - 1] == Handled(configured, applied, s, resolve, i - 1);
    }
  }

  lemma AppendedId(cs: seq<Channel>, i: nat)
    requires 0 < i <= |cs|
    ensures Ids(cs[..i]) == Ids(cs[..i - 1]) + {cs[i - 1].id}
  {
    assert forall k :: 0 <= k < i - 1 ==> cs[..i][k] == cs[..i - 1][k];
  }

  lemma IdIn(cs: seq<Channel>, i: nat)
    requires i < |cs|
    ensures cs[i].id in Ids(cs)
  {
  }

  /** Every applied channel that is there is spared exactly if its ID is found for some configured one. */
  ghost predicate MarksAreRight(configured: seq<Channel>, applied: seq<Channel>, s: Channels) {
    forall j :: 0 <= j < |applied| && applied[j].id in s.live ==>
      (Marked(configured, applied, s, j) <==> FoundUnder(configured, applied, s, applied[j].id))
  }

  /** Some configured channel is found under this ID. */
  predicate FoundUnder(configured: seq<Channel>, applied: seq<Channel>, s: Channels, id: nat) {
    exists i :: 0 <= i < |configured| && Found(configured, applied, s, i) && LookupId(configured, applied, i) == id
  }

  lemma DroppedIff(configured: seq<Channel>, applied: seq<Channel>, s: Channels)
    requires Wf(s) && DistinctIds(applied)
    ensures Dropped(configured, applied, s) <= Ids(applied)
    ensures forall j :: 0 <= j < |applied| && applied[j].id in s.live ==>
              (applied[j].id in Dropped(configured, applied, s) <==> !Marked(configured, applied, s, j))
  {
    hide Marked;
    forall j | 0 <= j < |applied|
      ensures applied[j].id in Ids(applied)
    {
      IdIn(applied, j);
    }
  }

  /** An ID that was given out before is that of a handled channel exactly if one is found under it. */
  lemma HandledUnder(configured: seq<Channel>, applied: seq<Channel>, s: Channels, resolve: ChannelSpec -> nat, id: nat)
    requires Wf(s) && id < s.next
    ensures id in Ids(HandledChannels(configured, applied, s, resolve)) <==> FoundUnder(configured, applied, s, id)
  {
    hide Handled, Found, LookupId;
    var r := HandledChannels(configured, applied, s, resolve);
    HandledIdsDistinctIff(configured, applied, s, resolve);
    if i :| 0 <= i < |configured| && Found(configured, applied, s, i) && LookupId(configured, applied, i) == id {
      IdIn(r, i);
    }
  }

  /** Conservation. The channels deleted are exactly the applied ones that are there and not spared, and nothing else
      goes. The live channels are those before, less the applied ones, plus the configured ones, and every configured
      one is live, exactly if the marks are right. Applied channels that others deleted are created anew. */
  lemma ChannelsConservedIff(configured: seq<Channel>, applied: seq<Channel>, s: Channels, resolve: ChannelSpec -> nat)
    requires Wf(s) && Issued(configured, s) && Issued(applied, s) && DistinctIds(applied)
    ensures var r := HandledChannels(configured, applied, s, resolve);
            var t := HandledStore(configured, applied, s, resolve);
            Wf(t) && s.live.Keys - t.live.Keys == Dropped(configured, applied, s) * s.live.Keys &&
            (AllLive(r, t) && t.live.Keys == s.live.Keys - Ids(applied) + Ids(r) <==>
             MarksAreRight(configured, applied, s))
  {
    hide HandledUpTo, HandledChannels, FoundUnder, Marked, Dropped, Ids;
    var r, t := HandledChannels(configured, applied, s, resolve), HandledStore(configured, applied, s, resolve);
    LiveUpTo(configured, applied, s, resolve, |configured|);
    assert r[..|configured|] == r;
    var live, a, h, d := s.live.Keys, Ids(applied), Ids(r), Dropped(configured, applied, s);
    assert t.live.Keys == live + h - d;
    DroppedIff(configured, applied, s);
    forall j | 0 <= j < |applied|
      ensures applied[j].id in a && (applied[j].id in h <==> FoundUnder(configured, applied, s, applied[j].id))
      ensures applied[j].id in h ==> applied[j].id in live
    {
      IdIn(applied, j);
      HandledUnder(configured, applied, s, resolve, applied[j].id);
      FoundUnderIsLive(configured, applied, s, applied[j].id);
    }
    forall x: nat | x in a
      ensures exists j :: 0 <= j < |applied| && applied[j].id == x
    {
      IdOf(applied, x);
    }
    SetsConserved(live, a, h, d);
    AllLiveIff(r, t);
  }

  lemma FoundUnderIsLive(configured: seq<Channel>, applied: seq<Channel>, s: Channels, id: nat)
    ensures FoundUnder(configured, applied, s, id) ==> id in s.live
  {
  }

  lemma SetsConserved(live: set<nat>, a: set<nat>, h: set<nat>, d: set<nat>)
    requires d <= a && a * h <= live
    ensures (h <= live + h - d && live + h - d == live - a + h) <==>
            forall x :: x in a && x in live ==> (x in d <==> x !in h)
  {
    if forall x :: x in a && x in live ==> (x in d <==> x !in h) {
      assert forall x :: x in live + h - d <==> x in live - a + h;
    }
    if h <= live + h - d && live + h - d == live - a + h {
      forall x | x in a && x in live
        ensures x in d <==> x !in h
      {
        assert x in live + h - d <==> x in live - a + h;
      }
    }
  }

  lemma AllLiveIff(cs: seq<Channel>, s: Channels)
    ensures AllLive(cs, s) <==> Ids(cs) <= s.live.Keys
  {
    forall i | 0 <= i < |cs|
      ensures cs[i].id in Ids(cs)
    {
      IdIn(cs, i);
    }
  }

  lemma IdOf(cs: seq<Channel>, x: nat)
    requires x in Ids(cs)
    ensures exists j :: 0 <= j < |cs| && cs[j].id == x
  {
  }

  lemma FoundAreLive(configured: seq<Channel>, applied: seq<Channel>, s: Channels)
    ensures forall i :: 0 <= i < |configured| && Found(configured, applied, s, i) ==>
                          LookupId(configured, applied, i) in s.live
  {
  }

  /** After a refused delete nothing that was given out before has come back. */
  lemma RefusedKeeps(configured: seq<Channel>, applied: seq<Channel>, s: Channels, resolve: ChannelSpec -> nat, k: nat)
    requires Wf(s) && Issued(applied, s)
    ensures var t, r := RefusedAt(configured, applied, s, resolve, k), HandledChannels(configured, applied, s, resolve);
            Wf(t) && t.next >= s.next && (forall x :: x in t.live && x < s.next ==> x in s.live) &&
            (forall x :: x in t.live ==> x !in DroppedUpTo(configured, applied, s, k)) &&
            forall x :: x in Ids(r) && x >= s.next ==> x in t.live
  {
    hide HandledUpTo, HandledChannels, DroppedUpTo, Ids, Found;
    var r := HandledChannels(configured, applied, s, resolve);
    LiveUpTo(configured, applied, s, resolve, |configured|);
    HandledIdsDistinctIff(configured, applied, s, resolve);
    assert r[..|configured|] == r;
    DroppedAreIssued(configured, applied, s, k);
    forall x | x in Ids(r) && x < s.next
      ensures x in s.live
    {
      IdOf(r, x);
      FoundAreLive(configured, applied, s);
    }
  }

  lemma DroppedAreIssued(configured: seq<Channel>, applied: seq<Channel>, s: Channels, k: nat)
    requires Issued(applied, s)
    ensures forall x :: x in DroppedUpTo(configured, applied, s, k) ==> x < s.next
  {
  }

  /** If New Relic refuses to delete a channel that is gone, handling is refused again at every retry, and each time the
      channels that were not found are created again: they stay, recorded nowhere. */
  lemma RefusedRepeats(configured: seq<Channel>, applied: seq<Channel>, s: Channels, resolve: ChannelSpec -> nat,
                       t: Channels)
    requires Wf(s) && Issued(configured, s) && Issued(applied, s) && Refused(configured, applied, s, resolve, t)
    ensures Wf(t) && Issued(configured, t) && Issued(applied, t)
    ensures exists k :: 0 <= k < |applied| && DeletesGone(configured, applied, t, k)
    ensures forall i :: 0 <= i < |configured| && !Found(configured, applied, s, i) ==>
                          !Found(configured, applied, t, i) &&
                          var id := Handled(configured, applied, s, resolve, i).id;
                          id in t.live && id !in s.live && id !in Ids(applied)
  {
    hide RefusedAt, HandledChannels, LookupId, DroppedUpTo, Ids;
    var k :| 0 <= k < |applied| && DeletesGone(configured, applied, s, k) &&
             t == RefusedAt(configured, applied, s, resolve, k);
    var r := HandledChannels(configured, applied, s, resolve);
    RefusedKeeps(configured, applied, s, resolve, k);
    HandledIdsDistinctIff(configured, applied, s, resolve);
    forall i | 0 <= i < |configured| && Found(configured, applied, t, i)
      ensures Found(configured, applied, s, i)
    {
      LookupIsIssued(configured, applied, s, i);
    }
    StillGone(configured, applied, s, t, k);
    forall i | 0 <= i < |configured| && !Found(configured, applied, s, i)
      ensures r[i].id in t.live && r[i].id !in s.live && r[i].id !in Ids(applied)
    {
      IdIn(r, i);
      OlderIds(applied, s, r[i].id);
    }
  }

  lemma OlderIds(applied: seq<Channel>, s: Channels, id: nat)
    requires Issued(applied, s) && id >= s.next
    ensures id !in Ids(applied)
  {
  }

  lemma LookupIsIssued(configured: seq<Channel>, applied: seq<Channel>, s: Channels, i: nat)
    requires Issued(configured, s) && Issued(applied, s) && i < |configured|
    ensures LookupId(configured, applied, i) < s.next
  {
  }

  /** Of the entries whose channel was gone, or was deleted before the refusal, some entry is gone again. */
  lemma StillGone(configured: seq<Channel>, applied: seq<Channel>, s: Channels, t: Channels, k: nat)
    requires DeletesGone(configured, applied, s, k) && Issued(applied, s)
    requires forall i :: 0 <= i < |configured| && Found(configured, applied, t, i) ==> Found(configured, applied, s, i)
    requires forall x :: x in t.live && x < s.next ==> x in s.live
    requires forall x :: x in t.live ==> x !in DroppedUpTo(configured, applied, s, k)
    ensures DeletesGone(configured, applied, t, k)
  {
    hide LookupId;
    assert Marked(configured, applied, t, k) ==> Marked(configured, applied, s, k);
  }

  /** After handling, the next reconcile of the same spec handles channels again exactly when a channel was created with
      a destination that the spec does not name by ID. */
  lemma ChangedAgainIff(configured: seq<Channel>, applied: seq<Channel>, s: Channels, resolve: ChannelSpec -> nat)
    ensures ChannelsChanged(configured, HandledChannels(configured, applied, s, resolve)) <==>
            exists i :: 0 <= i < |configured| && !Found(configured, applied, s, i) &&
                        resolve(configured[i].spec) != configured[i].spec.destinationId
  {
    var r := HandledChannels(configured, applied, s, resolve);
    forall i | 0 <= i < |configured|
      ensures configured[i].spec != r[i].spec <==>
              !Found(configured, applied, s, i) && resolve(configured[i].spec) != configured[i].spec.destinationId
    {
    }
  }

  // ----- What the live channels hold -----

  /** The applied channels with this ID have the spec of the configured one. */
  predicate AppliedAgree(applied: seq<Channel>, id: nat, spec: ChannelSpec) {
    forall j :: 0 <= j < |applied| && applied[j].id == id ==> applied[j].spec == spec
  }

  /** A channel that was there holds what it held, but for the name and the details of the configured channel that is
      found under its ID and whose spec differs from the applied one. */
  ghost predicate HeldUpTo(configured: seq<Channel>, applied: seq<Channel>, s: Channels, t: Channels, i: nat, x: nat)
    requires i <= |configured| && x in s.live
  {
    x in t.live &&
    (forall k :: 0 <= k < i && Found(configured, applied, s, k) && LookupId(configured, applied, k) == x ==>
       t.live[x] == if AppliedAgree(applied, x, configured[k].spec) then s.live[x]
                    else s.live[x].(name := configured[k].spec.name, details := configured[k].spec.details)) &&
    ((forall k :: 0 <= k < i && Found(configured, applied, s, k) ==> LookupId(configured, applied, k) != x) ==>
       t.live[x] == s.live[x])
  }

  lemma {:induction false} LoopHolds(configured: seq<Channel>, applied: seq<Channel>, s: Channels,
                                     resolve: ChannelSpec -> nat, i: nat, x: nat)
    requires i <= |configured| && Wf(s) && DistinctLookups(configured, applied, s) && x in s.live
    ensures HeldUpTo(configured, applied, s, HandledUpTo(configured, applied, s, resolve, i), i, x)
  {
    hide LookupId, HandledUpTo, HandleFound, Handled, Found, AppliedAgree;
    if i == 0 {
      HandledUpToZero(configured, applied, s, resolve);
    } else {
      LoopHolds(configured, applied, s, resolve, i - 1, x);
      HandledUpToStep(configured, applied, s, resolve, i - 1);
      var t := HandledUpTo(configured, applied, s, resolve, i - 1);
      if Found(configured, applied, s, i - 1) {
        FoundHolds(t, applied, Handled(configured, applied, s, resolve, i - 1), x);
      }
    }
  }

  lemma FoundHolds(t: Channels, applied: seq<Channel>, c: Channel, x: nat)
    requires c.id in t.live && x in t.live
    ensures var r := HandleFound(t, applied, c);
            x in r.live &&
            r.live[x] == if x != c.id || AppliedAgree(applied, x, c.spec) then t.live[x]
                         else t.live[x].(name := c.spec.name, details := c.spec.details)
  {
  }

  lemma {:induction false} LoopCreates(configured: seq<Channel>, applied: seq<Channel>, s: Channels,
                                       resolve: ChannelSpec -> nat, i: nat, k: nat)
    requires k < i <= |configured| && Wf(s) && !Found(configured, applied, s, k)
    ensures var t, spec := HandledUpTo(configured, applied, s, resolve, i), configured[k].spec;
            var id := Handled(configured, applied, s, resolve, k).id;
            id in t.live && t.live[id] == spec.(destinationId := resolve(spec))
  {
    hide LookupId, HandledUpTo, AppliedDiffers;
    HandledUpToStep(configured, applied, s, resolve, i - 1);
    if k < i - 1 {
      LoopCreates(configured, applied, s, resolve, i - 1, k);
      CreatedGrows(configured, applied, s, k, i - 1);
      FoundAreLive(configured, applied, s);
    }
  }

  predicate NoIdsWritten(configured: seq<Channel>) { forall i :: 0 <= i < |configured| ==> configured[i].id == 0 }

  /** The applied channel at this position is live, and the configured one there has its name. */
  predicate Stays(configured: seq<Channel>, applied: seq<Channel>, s: Channels, i: nat) {
    i < |configured| && i < |applied| && configured[i].spec.name == applied[i].spec.name && applied[i].id in s.live
  }

  /** The ID that a configured channel is to have: the applied one where position and name are those of the applied
      channel, and otherwise the one the user wrote. */
  function WantedId(configured: seq<Channel>, applied: seq<Channel>, i: nat): nat
    requires i < |configured|
  {
    if i < |applied| && configured[i].spec.name == applied[i].spec.name then applied[i].id else configured[i].id
  }

  /** Whatever IDs the user wrote: a channel gets the ID it is to have if such a channel is live, and else a new one;
      of its settings only the destination may be filled in. */
  lemma HandledIdsExact(configured: seq<Channel>, applied: seq<Channel>, s: Channels, resolve: ChannelSpec -> nat,
                        i: nat)
    requires Wf(s) && i < |configured|
    ensures var c, r := configured[i], HandledChannels(configured, applied, s, resolve)[i];
            (if WantedId(configured, applied, i) in s.live then r.id == WantedId(configured, applied, i)
             else r.id >= s.next) &&
            r == c.(id := r.id, spec := c.spec.(destinationId := r.spec.destinationId))
  {
    HandledIdsDistinctIff(configured, applied, s, resolve);
  }

  /** And of the live applied channels exactly those are deleted at whose position no channel is configured that is to
      have the ID of a live applied channel. */
  lemma DeletedExact(configured: seq<Channel>, applied: seq<Channel>, s: Channels, resolve: ChannelSpec -> nat, j: nat)
    requires Wf(s) && Issued(configured, s) && Issued(applied, s) && DistinctIds(applied)
    requires j < |applied| && applied[j].id in s.live
    ensures applied[j].id in HandledStore(configured, applied, s, resolve).live <==>
            j < |configured| && WantedId(configured, applied, j) in s.live &&
            exists k :: 0 <= k < |applied| && applied[k].id == WantedId(configured, applied, j)
  {
    hide HandledUpTo, HandledChannels, Dropped;
    ChannelsConservedIff(configured, applied, s, resolve);
    DroppedIff(configured, applied, s);
  }

  /** Without written IDs: a channel keeps its ID exactly if its position and its name are those of a live applied one,
      and of the live applied channels exactly the others are deleted. */
  lemma BlankIdsExact(configured: seq<Channel>, applied: seq<Channel>, s: Channels, resolve: ChannelSpec -> nat)
    requires Wf(s) && Issued(applied, s) && DistinctIds(applied) && NoIdsWritten(configured)
    ensures var r := HandledChannels(configured, applied, s, resolve);
            forall i :: 0 <= i < |r| ==>
              if Stays(configured, applied, s, i) then r[i].id == applied[i].id else r[i].id >= s.next
    ensures var t := HandledStore(configured, applied, s, resolve);
            forall j :: 0 <= j < |applied| && applied[j].id in s.live ==>
              (applied[j].id in t.live <==> Stays(configured, applied, s, j))
  {
    hide HandledUpTo, HandledChannels, Dropped;
    var r := HandledChannels(configured, applied, s, resolve);
    forall i | 0 <= i < |r|
      ensures if Stays(configured, applied, s, i) then r[i].id == applied[i].id else r[i].id >= s.next
    {
      HandledIdsExact(configured, applied, s, resolve, i);
    }
    DroppedIff(configured, applied, s);
    forall j | 0 <= j < |applied| && applied[j].id in s.live
      ensures Marked(configured, applied, s, j) <==> Stays(configured, applied, s, j)
    {
      IdIn(applied, j);
    }
  }

  lemma StayingHolds(configured: seq<Channel>, applied: seq<Channel>, s: Channels, resolve: ChannelSpec -> nat, i: nat)
    requires Wf(s) && Issued(applied, s) && DistinctIds(applied) && NoIdsWritten(configured)
    requires Stays(configured, applied, s, i)
    ensures var t, id, spec := HandledStore(configured, applied, s, resolve), applied[i].id, configured[i].spec;
            id in t.live &&
            t.live[id] == if applied[i].spec == spec then s.live[id]
                          else s.live[id].(name := spec.name, details := spec.details)
  {
    hide HandledUpTo, HandledChannels, Dropped, Wf, OutOfRange, MarksAreRight;
    BlankIdsExact(configured, applied, s, resolve);
    BlankIdsFit(configured, applied, s);
    LoopHolds(configured, applied, s, resolve, |configured|, applied[i].id);
    assert AppliedAgree(applied, applied[i].id, configured[i].spec) <==> applied[i].spec == configured[i].spec;
  }

  lemma CreatedHolds(configured: seq<Channel>, applied: seq<Channel>, s: Channels, resolve: ChannelSpec -> nat, i: nat)
    requires Wf(s) && Issued(applied, s) && DistinctIds(applied) && NoIdsWritten(configured)
    requires i < |configured| && !Stays(configured, applied, s, i)
    ensures var t, spec := HandledStore(configured, applied, s, resolve), configured[i].spec;
            var id := HandledChannels(configured, applied, s, resolve)[i].id;
            id in t.live && t.live[id] == spec.(destinationId := resolve(spec))
  {
    hide HandledUpTo, Dropped, Ids;
    BlankIdsExact(configured, applied, s, resolve);
    DroppedIff(configured, applied, s);
    LoopCreates(configured, applied, s, resolve, |configured|, i);
    OlderIds(applied, s, HandledChannels(configured, applied, s, resolve)[i].id);
  }

  lemma OthersHold(configured: seq<Channel>, applied: seq<Channel>, s: Channels, resolve: ChannelSpec -> nat, x: nat)
    requires Wf(s) && Issued(applied, s) && DistinctIds(applied) && NoIdsWritten(configured)
    requires x in s.live && x !in Ids(applied)
    ensures var t := HandledStore(configured, applied, s, resolve);
            x in t.live && t.live[x] == s.live[x]
  {
    hide HandledUpTo, Dropped, Ids, MarksAreRight;
    BlankIdsFit(configured, applied, s);
    DroppedIff(configured, applied, s);
    LoopHolds(configured, applied, s, resolve, |configured|, x);
  }

  /** And what they hold: a channel that stays gets the configured name and details if its spec differs from the applied
      one, and is as it was if not; every other configured one is created as configured, in the destination resolved for
      it; and no channel of others is touched. */
  lemma BlankIdsHold(configured: seq<Channel>, applied: seq<Channel>, s: Channels, resolve: ChannelSpec -> nat)
    requires Wf(s) && Issued(applied, s) && DistinctIds(applied) && NoIdsWritten(configured)
    ensures var r := HandledChannels(configured, applied, s, resolve);
            var t := HandledStore(configured, applied, s, resolve);
            (forall i :: 0 <= i < |r| ==>
               var id, spec := r[i].id, configured[i].spec;
               id in t.live &&
               t.live[id] ==
               if !Stays(configured, applied, s, i) then spec.(destinationId := resolve(spec))
               else if applied[i].spec == spec then s.live[id]
               else s.live[id].(name := spec.name, details := spec.details)) &&
            forall x :: x in s.live && x !in Ids(applied) ==> x in t.live && t.live[x] == s.live[x]
  {
    hide HandledStore, HandledChannels, Ids, Wf, Issued;
    var r := HandledChannels(configured, applied, s, resolve);
    var t := HandledStore(configured, applied, s, resolve);
    BlankIdsExact(configured, applied, s, resolve);
    forall i | 0 <= i < |r|
      ensures var id, spec := r[i].id, configured[i].spec;
              id in t.live &&
              t.live[id] ==
              if !Stays(configured, applied, s, i) then spec.(destinationId := resolve(spec))
              else if applied[i].spec == spec then s.live[id]
              else s.live[id].(name := spec.name, details := spec.details)
    {
      if Stays(configured, applied, s, i) {
        StayingHolds(configured, applied, s, resolve, i);
      } else {
        CreatedHolds(configured, applied, s, resolve, i);
      }
    }
    forall x | x in s.live && x !in Ids(applied)
      ensures x in t.live && t.live[x] == s.live[x]
    {
      OthersHold(configured, applied, s, resolve, x);
    }
  }

  /** Handling the same spec a second time creates and deletes nothing and settles it, whatever IDs the user wrote, if
      the channels are still live. */
  lemma SecondHandlingSettles(configured: seq<Channel>, applied: seq<Channel>, s: Channels, resolve: ChannelSpec -> nat,
                              later: Channels)
    requires AllLive(HandledChannels(configured, applied, s, resolve), later)
    ensures var r := HandledChannels(configured, applied, s, resolve);
            var again := HandledChannels(configured, r, later, resolve);
            (forall i :: 0 <= i < |r| ==> again[i].id == r[i].id) && Dropped(configured, r, later) == {} &&
            !ChannelsChanged(configured, again) && !OutOfRange(configured, r, later)
  {
    var r := HandledChannels(configured, applied, s, resolve);
    forall i | 0 <= i < |r|
      ensures LookupId(configured, r, i) == r[i].id && r[i].id in Ids(r)
    {
      IdIn(r, i);
    }
  }

  // ----- Runs -----

  /** The applied channels and New Relic after a reconcile of a spec whose workflow exists. */
  function Reconciled(configured: seq<Channel>, applied: seq<Channel>, s: Channels, resolve: ChannelSpec -> nat):
      (seq<Channel>, Channels)
  {
    if configured == [] || !ChannelsChanged(configured, applied) then (applied, s)
    else (HandledChannels(configured, applied, s, resolve), HandledStore(configured, applied, s, resolve))
  }

  /** Nothing but the applied channels is there beside those of others; others may have deleted some. */
  ghost predicate Owned(applied: seq<Channel>, s: Channels, others: set<nat>) {
    Wf(s) && Issued(applied, s) && DistinctIds(applied) && others !! Ids(applied) &&
    others <= s.live.Keys <= others + Ids(applied)
  }

  /** The IDs that the user wrote, if any, are applied ones, each once, and do not mislead the marks. */
  ghost predicate WrittenIdsFit(configured: seq<Channel>, applied: seq<Channel>, s: Channels) {
    (forall i :: 0 <= i < |configured| && Found(configured, applied, s, i) ==>
                   LookupId(configured, applied, i) in Ids(applied)) &&
    DistinctLookups(configured, applied, s) && MarksAreRight(configured, applied, s)
  }

  /** Handling keeps the channels owned, with every configured one live, exactly if the written IDs fit. */
  lemma HandlingKeepsOwnedIff(configured: seq<Channel>, applied: seq<Channel>, s: Channels,
                              resolve: ChannelSpec -> nat, others: set<nat>)
    requires Owned(applied, s, others) && Issued(configured, s)
    ensures var r := HandledChannels(configured, applied, s, resolve);
            var t := HandledStore(configured, applied, s, resolve);
            Owned(r, t, others) && AllLive(r, t) <==> WrittenIdsFit(configured, applied, s)
  {
    hide HandledUpTo, HandledStore, HandledChannels, Dropped, LookupId, MarksAreRight, DistinctLookups;
    ChannelsConservedIff(configured, applied, s, resolve);
    HandledIdsDistinctIff(configured, applied, s, resolve);
    var r := HandledChannels(configured, applied, s, resolve);
    var t := HandledStore(configured, applied, s, resolve);
    FoundAreLive(configured, applied, s);
    assert others !! Ids(r) <==> forall i :: 0 <= i < |r| ==> r[i].id !in others;
    assert forall x :: x in others ==> x < s.next;
    assert AllLive(r, t) ==> Ids(r) <= t.live.Keys;
    assert AllLive(r, t) && Wf(t) ==> Issued(r, t);
  }

  /** Without written IDs there is nothing to mislead. */
  lemma BlankIdsFit(configured: seq<Channel>, applied: seq<Channel>, s: Channels)
    requires Wf(s) && Issued(applied, s) && DistinctIds(applied)
    requires NoIdsWritten(configured)
    ensures WrittenIdsFit(configured, applied, s) && !OutOfRange(configured, applied, s) && Issued(configured, s)
  {
    forall i | 0 <= i < |configured|
      ensures Found(configured, applied, s, i) <==> Keep(configured, applied, i) && applied[i].id in s.live
      ensures Keep(configured, applied, i) ==> applied[i].id in Ids(applied)
    {
    }
  }

  /** What a user may submit next without misleading the reconciler. */
  ghost predicate Fits(configured: seq<Channel>, applied: seq<Channel>, s: Channels) {
    Issued(configured, s) && !OutOfRange(configured, applied, s) && WrittenIdsFit(configured, applied, s)
  }

  /** Others delete some channels, and then an edit is reconciled with a resolver of its own. */
  datatype Round = Round(deleted: set<nat>, configured: seq<Channel>, resolve: ChannelSpec -> nat)

  function Without(s: Channels, deleted: set<nat>): Channels { s.(live := s.live - deleted) }

  ghost predicate AllFit(applied: seq<Channel>, s: Channels, rounds: seq<Round>)
    decreases |rounds|
  {
    rounds == [] ||
    var u := Without(s, rounds[0].deleted);
    Fits(rounds[0].configured, applied, u) &&
    var (a, t) := Reconciled(rounds[0].configured, applied, u, rounds[0].resolve);
    AllFit(a, t, rounds[1..])
  }

  /** The state after a run. */
  ghost function Run(applied: seq<Channel>, s: Channels, rounds: seq<Round>): (seq<Channel>, Channels)
    decreases |rounds|
  {
    if rounds == [] then (applied, s)
    else
      var u := Without(s, rounds[0].deleted);
      var (a, t) := Reconciled(rounds[0].configured, applied, u, rounds[0].resolve);
      Run(a, t, rounds[1..])
  }

  /** The channels of others that nobody deletes in the run. */
  function Spared(others: set<nat>, rounds: seq<Round>): set<nat>
    decreases |rounds|
  {
    if rounds == [] then others else Spared(others - rounds[0].deleted, rounds[1..])
  }

  /** Over any run of edits whose written IDs fit, with channels deleted by others in between, no channel is leaked:
      beside the applied channels New Relic has exactly those of others that nobody deleted. */
  lemma {:induction false} NoChannelLeak(applied: seq<Channel>, s: Channels, rounds: seq<Round>, others: set<nat>)
    requires Owned(applied, s, others) && AllFit(applied, s, rounds)
    ensures var (a, t) := Run(applied, s, rounds);
            t.live.Keys - Ids(a) == Spared(others, rounds) && DistinctIds(a)
    decreases |rounds|
  {
    hide HandledStore, HandledChannels, WrittenIdsFit, OutOfRange;
    if rounds != [] {
      var u, rest := Without(s, rounds[0].deleted), others - rounds[0].deleted;
      assert Owned(applied, u, rest);
      HandlingKeepsOwnedIff(rounds[0].configured, applied, u, rounds[0].resolve, rest);
      var (a, t) := Reconciled(rounds[0].configured, applied, u, rounds[0].resolve);
      NoChannelLeak(a, t, rounds[1..], rest);
    }
  }

  /** Every applied channel that is live has the name and the details that are recorded for it. */
  predicate UpToDate(applied: seq<Channel>, s: Channels) {
    forall j :: 0 <= j < |applied| && applied[j].id in s.live ==>
      var remote := s.live[applied[j].id];
      remote.name == applied[j].spec.name && remote.details == applied[j].spec.details
  }

  /** The channels recorded are the configured ones, position by position, the destination aside. */
  predicate RecordedAs(applied: seq<Channel>, configured: seq<Channel>) {
    |applied| == |configured| &&
    forall i :: 0 <= i < |applied| ==>
      applied[i].spec == configured[i].spec.(destinationId := applied[i].spec.destinationId)
  }

  lemma HandlingKeepsUpToDate(configured: seq<Channel>, applied: seq<Channel>, s: Channels,
                              resolve: ChannelSpec -> nat)
    requires Wf(s) && Issued(applied, s) && DistinctIds(applied) && NoIdsWritten(configured) && UpToDate(applied, s)
    ensures var r := HandledChannels(configured, applied, s, resolve);
            UpToDate(r, HandledStore(configured, applied, s, resolve)) && RecordedAs(r, configured)
  {
    hide HandledStore, HandledUpTo;
    BlankIdsHold(configured, applied, s, resolve);
    BlankIdsExact(configured, applied, s, resolve);
  }

  lemma ReconcileRecords(configured: seq<Channel>, applied: seq<Channel>, s: Channels, resolve: ChannelSpec -> nat)
    requires Wf(s) && Issued(applied, s) && DistinctIds(applied) && NoIdsWritten(configured) && UpToDate(applied, s)
    ensures var (a, t) := Reconciled(configured, applied, s, resolve);
            UpToDate(a, t) && (configured != [] ==> RecordedAs(a, configured))
  {
    hide HandledStore, HandledChannels, RecordedAs, UpToDate;
    HandlingKeepsUpToDate(configured, applied, s, resolve);
    if !ChannelsChanged(configured, applied) {
      UnchangedIsRecorded(configured, applied);
    }
  }

  lemma UnchangedIsRecorded(configured: seq<Channel>, applied: seq<Channel>)
    requires !ChannelsChanged(configured, applied)
    ensures RecordedAs(applied, configured)
  {
  }

  /** The settings that only a create sends. */
  predicate SameOrigin(a: ChannelSpec, b: ChannelSpec) {
    a.kind == b.kind && a.destinationName == b.destinationName && a.destinationId == b.destinationId
  }

  /** After handling every channel is recorded as configured, but New Relic has it so exactly if it was created or its
      kind and destination were those configured: an edit of these is recorded as applied and never sent. */
  lemma LiveAsRecordedIff(configured: seq<Channel>, applied: seq<Channel>, s: Channels, resolve: ChannelSpec -> nat,
                          i: nat)
    requires Wf(s) && Issued(applied, s) && DistinctIds(applied) && NoIdsWritten(configured) && UpToDate(applied, s)
    requires i < |configured|
    ensures var c := HandledChannels(configured, applied, s, resolve)[i];
            var t := HandledStore(configured, applied, s, resolve);
            c.id in t.live &&
            (t.live[c.id] == c.spec <==>
             (Stays(configured, applied, s, i) ==> SameOrigin(s.live[applied[i].id], configured[i].spec)))
  {
    hide HandledStore, HandledUpTo;
    BlankIdsHold(configured, applied, s, resolve);
    BlankIdsExact(configured, applied, s, resolve);
    HandledIdsDistinctIff(configured, applied, s, resolve);
  }

  /** A channel "a" is applied as 1; the user changes its kind. That is recorded as applied, New Relic keeps the old
      kind, and the next reconcile finds nothing to do. */
  lemma KindEditNeverSent()
    ensures exists configured: seq<Channel>, applied: seq<Channel>, s: Channels, resolve: ChannelSpec -> nat ::
              Owned(applied, s, {}) && NoIdsWritten(configured) && UpToDate(applied, s) && |configured| == 1 &&
              ChannelsChanged(configured, applied) &&
              var r := HandledChannels(configured, applied, s, resolve);
              var t := HandledStore(configured, applied, s, resolve);
              r[0].id in t.live && t.live[r[0].id].kind != r[0].spec.kind && !ChannelsChanged(configured, r)
  {
    hide HandledUpTo, HandledStore;
    var a := Channel(1, [], None, ChannelSpec("a", "", 0, "SLACK", ""));
    var configured, applied := [a.(id := 0, spec := a.spec.(kind := "EMAIL"))], [a];
    var s := Channels(map[1 := a.spec], 2);
    var resolve: ChannelSpec -> nat := spec => 0;
    assert Ids(applied) == {1} by { IdIn(applied, 0); }
    assert configured[0].spec != applied[0].spec && Stays(configured, applied, s, 0);
    BlankIdsHold(configured, applied, s, resolve);
    BlankIdsExact(configured, applied, s, resolve);
    ChangedAgainIff(configured, applied, s, resolve);
    HandledIdsDistinctIff(configured, applied, s, resolve);
  }

  predicate AllBlank(rounds: seq<Round>) { forall k :: 0 <= k < |rounds| ==> NoIdsWritten(rounds[k].configured) }

  /** A reconcile deletes a live applied channel exactly if channels are configured and none at its position has its
      name. With no channels configured all the applied ones stay, and stay recorded. */
  lemma ReconcileDeletesIff(configured: seq<Channel>, applied: seq<Channel>, s: Channels, resolve: ChannelSpec -> nat,
                            j: nat)
    requires Wf(s) && Issued(applied, s) && DistinctIds(applied) && NoIdsWritten(configured)
    requires j < |applied| && applied[j].id in s.live
    ensures var (a, t) := Reconciled(configured, applied, s, resolve);
            (applied[j].id in t.live <==> configured == [] || Stays(configured, applied, s, j)) &&
            (configured == [] ==> a == applied && t == s)
  {
    hide HandledStore, HandledChannels;
    BlankIdsExact(configured, applied, s, resolve);
  }

  /** Over any run of edits without written IDs, with channels deleted by others in between: the channels recorded are
      those configured last, and each that is live has the name and the details configured last. */
  lemma {:induction false} NoEditOverlooked(applied: seq<Channel>, s: Channels, rounds: seq<Round>, others: set<nat>)
    requires Owned(applied, s, others) && AllBlank(rounds) && UpToDate(applied, s)
    requires rounds != [] && rounds[|rounds| - 1].configured != []
    ensures var (a, t) := Run(applied, s, rounds);
            UpToDate(a, t) && RecordedAs(a, rounds[|rounds| - 1].configured)
    decreases |rounds|
  {
    hide HandledStore, HandledChannels, UpToDate, RecordedAs, NoIdsWritten, WrittenIdsFit;
    var u, rest := Without(s, rounds[0].deleted), others - rounds[0].deleted;
    assert Owned(applied, u, rest);
    assert UpToDate(applied, u) by { StillUpToDate(applied, s, rounds[0].deleted); }
    var (a, t) := Reconciled(rounds[0].configured, applied, u, rounds[0].resolve);
    ReconcileRecords(rounds[0].configured, applied, u, rounds[0].resolve);
    BlankIdsFit(rounds[0].configured, applied, u);
    HandlingKeepsOwnedIff(rounds[0].configured, applied, u, rounds[0].resolve, rest);
    if |rounds| > 1 {
      NoEditOverlooked(a, t, rounds[1..], rest);
    } else {
      assert rounds[1..] == [];
    }
  }

  lemma StillUpToDate(applied: seq<Channel>, s: Channels, deleted: set<nat>)
    requires UpToDate(applied, s)
    ensures UpToDate(applied, Without(s, deleted))
  {
  }

  /** Two channels "a" and "b" are applied as 1 and 2; the user removes "a" and writes the ID of "b" at its new
      position. The mark spares "a", which is configured no more, and "b" is deleted although it is configured. */
  lemma WrittenIdLosesChannel()
    ensures exists configured: seq<Channel>, applied: seq<Channel>, s: Channels, resolve: ChannelSpec -> nat ::
              Owned(applied, s, {}) && Issued(configured, s) && ChannelsChanged(configured, applied) &&
              !OutOfRange(configured, applied, s) && configured != [] &&
              var r := HandledChannels(configured, applied, s, resolve);
              r[0].id in Ids(applied) && r[0].id !in HandledStore(configured, applied, s, resolve).live
  {
    hide HandledUpTo;
    var a := Channel(1, [], None, ChannelSpec("a", "", 0, "", ""));
    var b := Channel(2, [], None, ChannelSpec("b", "", 0, "", ""));
    var s := Channels(map[1 := a.spec, 2 := b.spec], 3);
    var configured, applied := [b], [a, b];
    var resolve: ChannelSpec -> nat := spec => 0;
    assert applied[0].id in Ids(applied) && applied[1].id in Ids(applied);
    assert applied[1].id in Dropped(configured, applied, s);
    assert HandledChannels(configured, applied, s, resolve)[0] == b;
  }

  /** With "a" applied as 1, the user adds a channel and writes the ID 1 for it, too: the mark would be out of range. */
  lemma WrittenIdOutOfRange()
    ensures exists configured: seq<Channel>, applied: seq<Channel>, s: Channels ::
              Owned(applied, s, {}) && Issued(configured, s) && ChannelsChanged(configured, applied) &&
              OutOfRange(configured, applied, s)
  {
    var a := Channel(1, [], None, ChannelSpec("a", "", 0, "", ""));
    var configured, applied := [a.(id := 0), a.(spec := a.spec.(name := "c"))], [a];
    var s := Channels(map[1 := a.spec], 2);
    assert applied[0].id in Ids(applied);
    assert OutOfRangeAt(configured, applied, s, 1);
    assert Owned(applied, s, {}) && Issued(configured, s) && ChannelsChanged(configured, applied);
    assert OutOfRange(configured, applied, s);
  }

  /** "a" is applied as 1, others delete it, and the user edits it. If New Relic refuses to delete the missing channel,
      the reconcile fails after it has created another one, which is recorded nowhere. */
  lemma RefusedDeleteLeaksChannel()
    ensures exists configured: seq<Channel>, applied: seq<Channel>, s: Channels, resolve: ChannelSpec -> nat,
                t: Channels ::
              Owned(applied, s, {}) && Issued(configured, s) && ChannelsChanged(configured, applied) &&
              Refused(configured, applied, s, resolve, t) && !Owned(applied, t, {})
  {
    var a := Channel(1, [], None, ChannelSpec("a", "", 0, "", ""));
    var configured, applied := [a.(id := 0, spec := a.spec.(details := "new"))], [a];
    var s := Channels(map[], 2);
    var resolve: ChannelSpec -> nat := spec => 0;
    var t := RefusedAt(configured, applied, s, resolve, 0);
    assert DeletesGone(configured, applied, s, 0);
    assert Refused(configured, applied, s, resolve, t);
    RefusedRepeats(configured, applied, s, resolve, t);
    assert !Found(configured, applied, s, 0);
    assert Owned(applied, s, {}) && ChannelsChanged(configured, applied);
  }
}

# A verified model of the New Relic Kubernetes operator

The operator keeps alert policies, service levels, entity tags and alert workflows in New Relic as Kubernetes objects
declare them. Each object carries a status with an "applied" snapshot, which lets a reconcile skip work. The project
models the reconcilers and the admission webhooks around them, and proves what every reconcile and every run keeps.

New Relic is an abstract store: creates give fresh IDs, updates replace, deletes remove, and any call may fail without
effect. Which calls fail is an argument, so a lemma that does not constrain it holds for every pattern of failures.
Reconcilers that work in place are classes and methods with loops; each is tied by its contract to a function on values,
and the lemmas speak of that function.

| files | subject |
|---|---|
| Accounts, Options, Text, Strings, Decimals | shared parts: account defaults, trimming, sorting, decimal text as numbers |
| ServiceLevelSpecs, ServiceLevelWebhook, ServiceLevelSync, ServiceLevelController, ServiceLevelRuns | ServiceLevel: admission, normal form, translation and projection, the reconciler, runs |
| NrqlConditions, AlertStore | NRQL conditions as sent and as projected back; New Relic's policies and conditions |
| AlertPolicies, AlertPolicyWebhook, AlertPolicyController | AlertPolicy: the reconciler as functions, admission, the reconciler as methods |
| AlertPolicyConditions, AlertPolicyRecords, AlertPolicySync, AlertPolicyDeletes, AlertPolicyConvergence | AlertPolicy: handleConditions, what the status records whatever fails, truth of the snapshot, what is deleted, convergence |
| AlertPolicyIdentity, AlertPolicyQuiescence, AlertPolicyConditionCalls, AlertPolicyCalls, AlertPolicyFailures, AlertPolicyRuns | AlertPolicy: identity and account, quiescence, the exact calls and reports, exact failure conditions and inputs, runs |
| EntityTags, EntityTaggings, EntityTaggingFailures, EntityTaggingRuns, EntityTaggingController | EntityTagging: plans, managed entities, interrupted reconciles, runs, the reconciler |
| AlertWorkflows, AlertWorkflowController | AlertWorkflow: matching of channels, the reconciler |

`dafny verify dfyconfig.toml` checks everything.

## Findings

Some promises do not hold of the code as it is. Each is stated with an input for which it fails and with the exact
condition under which it does hold.

- A condition whose search, create or update failed is not retried: the snapshot takes the whole spec regardless, and
  the next reconcile finds nothing to do. For a policy that exists, `AlertPolicyQuiescence.FailedConditionIsNotRetried`
  has the exact condition, with `AlertPolicyDeletes.FailedSearchLeaves`; for a policy that is created,
  `FailedCreateIsNotRetried` and `AlertPolicySync.CreatePolicyExact`. Inputs:
  `AlertPolicyFailures.FailedCreateLosesCondition`, `FailedSearchNeverCreates`.
- A failed search for one condition can delete a condition of that name, exactly as
  `AlertPolicyDeletes.FailedSearchDeletesIff` says. Input: `AlertPolicyFailures.FailedSearchLosesCondition`.
- A condition ID written by the user is recorded if the search, create or update of its condition fails. When that
  condition is removed from the spec, the condition with this ID is deleted, even if it is configured under another name
  or belongs to another policy, and not its own (`AlertPolicyDeletes.RemovalDeletesIff`, and in general
  `HandleConditionsDeletesIff`). Input: `AlertPolicyFailures.WrittenIdLosesCondition`. Without written IDs it cannot
  happen in any run (`AlertPolicyRuns.DeleteSafeOverRuns`, `BlankIsOrderly`).
- If a recorded policy is gone and cannot be recreated, the old snapshot stays. Adopting a policy of the same name later
  takes its conditions for up to date by that snapshot (`AlertPolicyFailures.AdoptionExact`,
  `AlertPolicySync.SyncSoundIff`). Input: `StaleAdoptionHidesDifference`. If nobody else deletes the policy it cannot
  happen (`AlertPolicyRuns.UndisturbedRuns`).
- A status that cannot be written, because five edits in a row win the race, is lost while New Relic is changed already;
  going back to the old spec then passes the cache check. After an edit carried out without an error, that removes no
  name of two conditions, the old status is still true exactly if the edited spec asks for the same policy and for every
  condition that was asked for (`AlertPolicyFailures.LostStatusTrueIff`). Inputs: `LostStatusHidesDifference`,
  `LostStatusLosesCondition`.
- Of two conditions of a managed name in the policy one survives that nothing records
  (`AlertPolicyConvergence.HandleConditionsConvergesIff`). Input: `AlertPolicyFailures.DuplicateStays`.
- A tagging reconcile that fails for one entity leaves what it put on the others unrecorded, so that it stays when they
  leave the spec (`EntityTaggingFailures.InterruptedContainedIff`, `FirstRunContainedIff`,
  `EntityTaggingRuns.NoTagLeak`). Inputs: `FailedFirstRunLeavesTag`, `FailedTurnLeavesTag`.
- If New Relic keeps the values of a tag as a set, a desired tag that repeats a value is replaced in every pass
  (`EntityTags.SecondPassIdleIff`). Input: `RepeatedValueNeverSettles`.
- A channel ID written by the user past the end of the applied list can run out of the range of the list of marks
  (`AlertWorkflowController.AlertWorkflowReconciler.HandleChannels`), and elsewhere can spare the wrong channel
  (`AlertWorkflows.ChannelsConservedIff`). Inputs: `WrittenIdOutOfRange`, `WrittenIdLosesChannel`.
- If New Relic refuses to delete a channel that others deleted already, every retry of the same spec is refused again
  and leaves another copy of each channel it had to create, recorded nowhere; exactly when, says `HandleChannels`, and
  what follows, `AlertWorkflows.RefusedRepeats`. Input: `RefusedDeleteLeaksChannel`.
- An edit of the kind or the destination of a channel whose position and name stay is recorded as applied and never
  sent: updates carry the name and the details only (`AlertWorkflows.LiveAsRecordedIff`). Input: `KindEditNeverSent`.

Also, a target of NaN is admitted although it is not between 0 and 100 (`ServiceLevelSpecs.TargetAcceptedIff`); it is
never sent (`ServiceLevelRuns.NaNNeverSent`).

## Model

| member | source | states |
|---|---|---|
| Decimals.FormatParses | api/v1/common.go:72-79 | Every canonical number is what its printed form parses to. |
| Decimals.NormalizeKeepsNumber | api/v1/common.go:72-79 | Normalising text that parses keeps the number it stands for. |
| Decimals.NormalizeIdempotent | api/v1/common.go:72-79 | Normalising twice is normalising once, for all text. |
| Decimals.CanonKeepsValue | api/v1/common.go:72-79 | The canonical form of a decimal has its real value. |
| Decimals.NormalizeEqualIff | api/v1/common.go:72-79 | Two finite decimals, neither of them a negative zero, normalise to the same text exactly if their real values are equal. |
| Decimals.NatOfConcat | api/v1/common.go:72-79 | Digits written one after the other denote their number in base ten. |
| Decimals.DigitValues | api/v1/common.go:72-79 | The ten digits have the values zero to nine. |
| Decimals.LiteralIsRead | api/v1/common.go:67-79 | A written number, with sign, digits, point and exponent in any combination, is read as what it denotes: its digits as a whole number, times ten to its signed exponent less the digits after the point. |
| Decimals.ReadableIff | api/v1/common.go:67-79 | Text is read exactly if it is such a number, NaN, or an infinity, the last two in any case. |
| Decimals.LiteralsEqualIff | api/v1/common.go:67-79 | Two written numbers of one sign have one normal form exactly if they denote the same: an exponent makes no difference, nor do zeros that could be left out. |
| Decimals.SameNumberIff | api/v1/common.go:67-79 | Decimals that are read have one normal form exactly if the same number is read. |
| Decimals.FormatIsShortest | api/v1/common.go:72-79 | A normal form has no exponent, no plus sign and no zero that could be left out. |
| Decimals.PlacesOfFormat | api/v1/servicelevel_webhook.go:351-358 | The places counted in a printed number are those of its canonical exponent. |
| Decimals.FivePlacesIff | api/v1/servicelevel_webhook.go:325-332 | At most five places are counted exactly if the value times 10^5 is a whole number. |
| Decimals.RoundQuotientNearest | api/v1/servicelevel_webhook.go:325-332 | The rounding done by the server is to the nearest integer, halves upwards. |
| Decimals.RoundIdentityIff | api/v1/servicelevel_webhook.go:325-332 | Rounding to a number of places changes nothing exactly if the number has no more places. |
| Text.TrimSpaceTrimmed | api/v1/common.go:81-88 | What is trimmed has no space at either end. |
| Text.TrimSpaceFixedIff | api/v1/common.go:81-88 | Trimming changes nothing exactly if there is no space at either end. |
| Text.TrimSpaceKeeps | api/v1/common.go:81-88 | Text is spaces, its trimmed form, and spaces: nothing inside is touched. |
| Text.ToUpperIdempotent | api/v1/alertpolicy_webhook.go:135-138 | Upper-casing twice is upper-casing once, as far as letters with an ASCII upper case go. |
| Accounts.AccountDefaults.SetDefaultAccountID | api/v1/common.go:14-34 | Afterwards a resource that omits its account gets the given one if it is positive; an account that is given is never overwritten, and a default that is not positive changes no resource. |
| ServiceLevelSpecs.InRangeIff | api/v1/servicelevel_webhook.go:321-323 | The range test accepts a finite target exactly if its value is from 0 to 100. |
| ServiceLevelSpecs.TargetAcceptedIff | api/v1/servicelevel_webhook.go:317-332 | A parsable target passes validation exactly if it is NaN, or is from 0 to 100 and a whole number of hundred-thousandths. |
| ServiceLevelSpecs.DefaultFixedIff | api/v1/servicelevel_webhook.go:114-168 | Defaulting leaves an indicator as it is exactly if it is trimmed, in canonical decimals, and has its functions and units set. |
| ServiceLevelSpecs.DefaultDefaulted | api/v1/servicelevel_webhook.go:114-168 | Whatever it starts from, defaulting produces such an indicator. |
| ServiceLevelSpecs.ApplyDefaultsAgainIff | api/v1/servicelevel_webhook.go:114-140 | Defaulting again under another operator default changes nothing exactly if an account was settled before or there is no default now. |
| ServiceLevelSpecs.ApplyDefaultsIdempotent | api/v1/servicelevel_webhook.go:114-140 | Admission defaulting is idempotent. |
| ServiceLevelSpecs.OmittedMeansDefault | api/v1/servicelevel_webhook.go:114-168 | A region, an account, a unit or a select that is left out is taken as if its default had been written. |
| ServiceLevelSpecs.DefaultKeepsNormalForm | internal/controller/servicelevel_controller.go:390-453 | Defaulting changes nothing that the comparison sees, but for the units it fills in. |
| ServiceLevelSpecs.AdmittedIsNormal | internal/controller/servicelevel_controller.go:390-453 | A spec that was defaulted and then validated is a fixed point of the normal form used for comparison. |
| ServiceLevelSpecs.DefaultedIsNormal | internal/controller/servicelevel_controller.go:390-453 | The same for any defaulted indicator whose queries carry no fields the normal form drops. |
| ServiceLevelWebhook.ApplyEventsQueryDefaults | api/v1/servicelevel_webhook.go:142-168 | Writes the defaults through the query pointer; new memory only for a missing select, nothing else written. |
| ServiceLevelWebhook.DefaultObjectives | api/v1/servicelevel_webhook.go:127-139 | Defaults every objective of the slice in place. |
| ServiceLevelWebhook.Indicator.ApplyDefaults | api/v1/servicelevel_webhook.go:121-139 | The indicator in memory becomes its defaulted value, writing only what it reaches; its queries still share no memory. |
| ServiceLevelWebhook.ServiceLevel.ApplyDefaults | api/v1/servicelevel_webhook.go:114-140 | The whole object becomes its defaulted value; the configuration is not written. |
| ServiceLevelWebhook.ValidateEventsQuery | api/v1/servicelevel_webhook.go:243-295 | No error exactly if the query is absent or consistent: source, attribute and threshold fit the function. |
| ServiceLevelWebhook.ServiceLevel.ValidateAPIKeyOrSecret | api/v1/servicelevel_webhook.go:171-194 | No error exactly if the account is positive and exactly one of a key and a complete secret is given. |
| ServiceLevelWebhook.ServiceLevel.ValidateServiceLevelSchema | api/v1/servicelevel_webhook.go:197-214 | No error exactly if region, name and entity are acceptable. |
| ServiceLevelWebhook.ServiceLevel.ValidateEventsSchema | api/v1/servicelevel_webhook.go:217-239 | No error exactly if valid events are given with exactly one of good and bad, all consistent. |
| ServiceLevelWebhook.ServiceLevel.ValidateObjectivesSchema | api/v1/servicelevel_webhook.go:300-347 | No error exactly if there is one objective, with an acceptable target of at most five places and an acceptable window. |
| ServiceLevelWebhook.ServiceLevel.ValidateImmutableFields | api/v1/servicelevel_webhook.go:363-388 | No error exactly if entity, account and region are unchanged. |
| ServiceLevelWebhook.ServiceLevel.ValidateCreate | api/v1/servicelevel_webhook.go:66-82 | No error exactly if the spec is valid. |
| ServiceLevelWebhook.ServiceLevel.ValidateUpdate | api/v1/servicelevel_webhook.go:85-103 | No error exactly if the spec is valid and keeps what is immutable. |
| ServiceLevelWebhook.NormalizeEventsQuery | internal/controller/servicelevel_controller.go:417-453 | Returns the query in normal form in fresh memory and writes nothing it was given. |
| ServiceLevelWebhook.NormalizeObjectives | internal/controller/servicelevel_controller.go:390-413 | Returns the objectives in normal form in a fresh slice and writes nothing it was given. |
| ServiceLevelWebhook.Indicator.Normalize | internal/controller/servicelevel_controller.go:390-413 | Returns the normal form in memory that is all fresh; nothing reachable from the input is written or shared. |
| ServiceLevelSync.FindIndicatorExact | internal/controller/servicelevel_controller.go:284-313 | An indicator is found exactly if one is listed that has the recorded nonblank GUID or the name, and it is the first with the GUID, or without one the first of the name. |
| ServiceLevelSync.TranslatesIff | internal/controller/servicelevel_controller.go:478-585 | A spec is sent exactly if all its decimals are read, and then field by field. |
| ServiceLevelSync.QueriesAgreeIff | internal/controller/servicelevel_controller.go:417-453 | Two queries that can be sent have one normal form exactly if New Relic would hold the same for both. |
| ServiceLevelSync.QueryRoundTrip | internal/controller/servicelevel_controller.go:522-560 | A defaulted valid query comes back from the server as it was. |
| ServiceLevelSync.ObjectiveRoundTripIff | internal/controller/servicelevel_controller.go:562-585 | A defaulted objective comes back as it was exactly if its target has at most five places. |
| ServiceLevelSync.TargetRoundTripIff | internal/controller/servicelevel_controller.go:329-355 | A number prints the same after the server rounded it exactly if it has at most five places. |
| ServiceLevelSync.RoundTripIff | internal/controller/servicelevel_controller.go:478-695 | Translating, storing and projecting back an admitted indicator gives the indicator itself exactly if its target has at most five places. |
| ServiceLevelController.TranslateObjectivesInput | internal/controller/servicelevel_controller.go:562-585 | The loop translates every objective, or fails as a whole if one target does not parse. |
| ServiceLevelController.FindRemote | internal/controller/servicelevel_controller.go:284-314 | Nothing is found exactly if no indicator is listed with the recorded GUID or the name; otherwise it is the first with the GUID, or without one the first of the name. A total miss clears the recorded IDs and only then. |
| ServiceLevelController.RecordApplied | internal/controller/servicelevel_controller.go:471-476 | Records the IDs and the normal form of what the server answered. |
| ServiceLevelController.ReconcileResource | internal/controller/servicelevel_controller.go:131-178 | Object, remote indicators, mutations and number of calls after a reconcile are those of the reconcile function, whatever fails. |
| ServiceLevelRuns.SentIsAppliedIff | internal/controller/servicelevel_controller.go:471-476 | What is recorded after sending an admitted spec is the spec itself exactly if its target has at most five places. |
| ServiceLevelRuns.SyncedAfterIff | internal/controller/servicelevel_controller.go:131-170 | After one success the object is in sync exactly if it adopted or its target has at most five places. |
| ServiceLevelRuns.NoUpdateLoop | internal/controller/servicelevel_controller.go:131-170 | After one successful create, update or adoption of an admitted spec the next reconcile makes no call at all. |
| ServiceLevelRuns.AdmittedSpecsExist | api/v1/servicelevel_webhook.go:66-82 | There is an admitted spec with every target that is a number from 0 to 100 of at most five places, so the statements above speak of something. |
| ServiceLevelRuns.UpdateLoop | api/v1/servicelevel_webhook.go:325-332 | The loop that validation prevents is real: with more places, once the spec was sent by a create or an update, every later reconcile sends the same update again. |
| ServiceLevelRuns.NaNNeverSent | api/v1/servicelevel_webhook.go:317-323 | A target of NaN passes validation, but no reconcile ever sends it. |
| ServiceLevelRuns.CreatesIff | internal/controller/servicelevel_controller.go:203-313 | A reconcile creates exactly if the object is not in sync, the listing and the call work, the spec can be sent, and no indicator is listed with the recorded GUID or the name. |
| ServiceLevelRuns.UpdatesIff | internal/controller/servicelevel_controller.go:203-276 | The indicator meant is updated exactly if it is of the account and its projection differs from the spec in normal form; its IDs and its account stay, and so do all others. |
| ServiceLevelRuns.ReconcileConverges | internal/controller/servicelevel_controller.go:203-276 | After success the recorded indicator is there, in the account and with the name of the spec, and its projection is the spec in normal form; all others are as they were. |
| ServiceLevelRuns.OtherAccountsStay | internal/controller/servicelevel_controller.go:203-276 | No indicator of another account is adopted or changed. |
| ServiceLevelRuns.FailureChangesNothing | internal/controller/servicelevel_controller.go:156-170 | A reconcile that does not succeed leaves the stored object and the indicators as they were. |
| ServiceLevelRuns.ReconcileKeepsOne | internal/controller/servicelevel_controller.go:203-314 | A reconcile mutates no indicator but the one recorded afterwards, and keeps a listed one recorded. |
| ServiceLevelRuns.NextKeepsOne | internal/controller/servicelevel_controller.go:156-170 | So does every step of a run: edits and renames, changes by others, reconciles. |
| ServiceLevelRuns.OneIndicatorOverRuns | internal/controller/servicelevel_controller.go:278-314 | In any run in which the own indicator stays listed it is the only one mutated, at most one create is made, and the recorded GUID never changes. |
| NrqlConditions.FetchNrqlCreateInput | internal/controller/alertpolicy_controller.go:1254-1315 | The create input denotes the condition the spec asks for, setting by setting, over term lists of any length. |
| NrqlConditions.FetchNrqlUpdateInput | internal/controller/alertpolicy_controller.go:1190-1251 | The update input denotes the same condition as the create input. |
| NrqlConditions.BuildPolicyConditionSpecFromRemote | internal/controller/alertpolicy_controller.go:960-1024 | The loop projects a remote condition with all its terms. |
| NrqlConditions.ThresholdRoundTripIff | internal/controller/alertpolicy_controller.go:1007-1011 | A threshold comes back as written exactly if it parses and is in canonical form. |
| NrqlConditions.ConditionRoundTripIff | internal/controller/alertpolicy_controller.go:960-1024 | Projecting back what a create or update sends gives the spec itself exactly if its thresholds are canonical, its type is known and its unsent fields are zero. |
| NrqlConditions.DenoteWellFormed | internal/controller/alertpolicy_controller.go:1254-1315 | What is sent always has canonical numbers and a known type. |
| NrqlConditions.ProjectionDenotes | internal/controller/alertpolicy_controller.go:952-1024 | A spec equal to the projection of a remote condition asks for exactly that condition. |
| AlertPolicies.FindApplied | internal/controller/alertpolicy_controller.go:699-715 | The first applied condition with an identity, or none. |
| AlertPolicyConditions.CreateTurn | internal/controller/alertpolicy_controller.go:874-889 | A turn for a condition that is not there: created unless its call fails; nothing else changes but its processed mark. |
| AlertPolicyConditions.UpdateTurn | internal/controller/alertpolicy_controller.go:838-873 | A turn for a condition that is there: realised afterwards exactly if it was, or was not taken for up to date and its update works. |
| AlertPolicyConditions.SearchTurn | internal/controller/alertpolicy_controller.go:832-836 | A turn whose search fails: the condition stays as it is, and its applied entry is not marked. |
| AlertPolicyConditions.LoopProgress | internal/controller/alertpolicy_controller.go:829-890 | Invariant of the loop over the configured conditions, whatever searches, creates and updates fail: what is settled, marked and untouched. |
| AlertPolicyConditions.DeleteTrims | internal/controller/alertpolicy_controller.go:893-914 | The delete loop removes only targets of unprocessed entries, and all of those whose call works. |
| AlertPolicyConditions.TargetIsStale | internal/controller/alertpolicy_controller.go:898-912 | With recorded IDs in order, what that loop removes is a condition of this policy whose name is applied and not reached: no longer configured, or configured with a search that failed. |
| AlertPolicyConditions.HandleConditionsExact | internal/controller/alertpolicy_controller.go:810-923 | Whatever other calls fail: a configured condition whose own search succeeds is realised afterwards exactly if it was before, or its own create or update did not fail and it was not taken for up to date. |
| AlertPolicyConditions.AgreeingSkipIsRealised | internal/controller/alertpolicy_controller.go:838-861 | With an agreeing snapshot only realised conditions are taken for up to date. |
| AlertPolicyConditions.HandleConditionsDeleteSafe | internal/controller/alertpolicy_controller.go:816-914 | With recorded IDs in order, no live condition whose name is configured is ever deleted if the search for that name succeeds, whatever else fails. |
| AlertPolicyConditions.HandleConditionsFrame | internal/controller/alertpolicy_controller.go:810-923 | With recorded IDs in order, unmanaged conditions and those of other policies are untouched, whatever fails; what is new bears a configured name. |
| AlertPolicyConditions.HandleConditionsSnapshot | internal/controller/alertpolicy_controller.go:916 | The new snapshot is the spec with every condition spec as configured, whatever failed. |
| AlertPolicyConditions.SnapshotEntryHeldIff | internal/controller/alertpolicy_controller.go:829-916 | A snapshot entry none of whose calls failed names the first condition of its name, and is true of it exactly if the spec is realised. |
| AlertPolicyConditions.HandleConditionsHolds | internal/controller/alertpolicy_controller.go:810-923 | With an agreeing snapshot, every entry of the new one none of whose calls failed is true of New Relic. |
| AlertPolicyRecords.HandleRecords | internal/controller/alertpolicy_controller.go:810-923 | Whatever calls fail: the new snapshot has proper names, and its IDs are in order, if those the user configured are wherever a call fails. |
| AlertPolicyRecords.SyncKeepsRecords | internal/controller/alertpolicy_controller.go:308-425 | Whatever calls fail and whatever is adopted, a sync keeps the status locating its policy; and it keeps every recorded ID in order if names are proper and the configured IDs are in order wherever a condition call may fail. |
| AlertPolicyRecords.ReconcileKeepsRecords | internal/controller/alertpolicy_controller.go:260-303 | The same for the status that a whole reconcile writes; no ID is reused and no condition moved or renamed. |
| AlertPolicySync.SkipIsSound | internal/controller/alertpolicy_controller.go:750-787 | If the snapshot is true and the cache check passes, the policy and every configured condition are in New Relic as specified. |
| AlertPolicySync.HandleTruthIff | internal/controller/alertpolicy_controller.go:810-923 | When creates and updates succeed, every condition of the new snapshot is realised exactly if none was wrongly taken for up to date. |
| AlertPolicySync.IfNeededTruthIff | internal/controller/alertpolicy_controller.go:428-446 | The same after the decision whether conditions need work, even if its listing fails. |
| AlertPolicySync.ExistingTruthIff | internal/controller/alertpolicy_controller.go:381-424 | The exact condition under which a located policy ends up recorded truly, whatever the calls for the policy do. |
| AlertPolicySync.CreateAll | internal/controller/alertpolicy_controller.go:494-513 | Whatever creates fail: the new policy gets exactly the conditions whose create does not, each as its entry says. |
| AlertPolicySync.CreatePolicyExact | internal/controller/alertpolicy_controller.go:449-513 | Whatever creates of conditions fail, a configured condition is realised in a created policy exactly if its own create did not fail. |
| AlertPolicySync.CreateTruthIff | internal/controller/alertpolicy_controller.go:472-487 | So the status of a created policy is true exactly if no create of a condition failed. |
| AlertPolicySync.ForgottenIsSound | internal/controller/alertpolicy_controller.go:333-342 | After a typed NotFound the recorded ID can be dropped: the recorded conditions are gone too. |
| AlertPolicySync.SyncSoundIff | internal/controller/alertpolicy_controller.go:308-425 | Whatever the policy-level calls do, a sync whose condition calls succeed leaves a sound status sound exactly if it does not adopt a policy over applied conditions that mislead. |
| AlertPolicySync.ReconcileKeepsSound | internal/controller/alertpolicy_controller.go:260-303 | So the status that a whole reconcile writes is sound if it does not. |
| AlertPolicyDeletes.DeletedIff | internal/controller/alertpolicy_controller.go:893-914 | The delete loop deletes a condition exactly if it can be reached and some unprocessed entry aims at it with a call that works. |
| AlertPolicyDeletes.HandleConditionsDeletesIff | internal/controller/alertpolicy_controller.go:810-923 | Whatever searches, creates, updates and deletes fail and whatever IDs are recorded: a condition, whosever it is, is deleted exactly if it can be reached and an entry that is unwanted, or whose search failed, aims at it with a delete that works. |
| AlertPolicyDeletes.AppliedNameExact | internal/controller/alertpolicy_controller.go:829-914 | With recorded IDs in order, of the conditions of an applied name the one its entry aims at is deleted, and no other, exactly if the entry is unwanted or its search failed, and the listing and its delete work. |
| AlertPolicyDeletes.StaleNameExact | internal/controller/alertpolicy_controller.go:893-914 | Of the conditions with an applied name that is no longer configured exactly one is deleted: that of the recorded ID, or the last of the name. |
| AlertPolicyDeletes.FailedSearchDeletesIff | internal/controller/alertpolicy_controller.go:832-836 | A condition whose name is both applied and configured is deleted exactly if the search for it failed, the listing and the delete worked, and the applied entry aims at it, by its recorded ID or as the last of its name. |
| AlertPolicyDeletes.FailedSearchLeaves | internal/controller/alertpolicy_controller.go:832-836 | A condition whose own search fails is neither created nor updated: what was there of its name stays as it was, but for what the delete loop takes. |
| AlertPolicyDeletes.FailedSearchExact | internal/controller/alertpolicy_controller.go:832-836 | If its name was not applied, it is realised afterwards exactly if it was before. |
| AlertPolicyDeletes.FailedCallKeepsEntry | internal/controller/alertpolicy_controller.go:829-890 | A condition whose search, or whose create or update, failed is recorded as the user wrote it, ID and all. |
| AlertPolicyDeletes.RemovalDeletesIff | internal/controller/alertpolicy_controller.go:829-914 | After the search, create or update of a condition failed, the user removes it from the spec and nothing fails any more: exactly the condition is deleted whose ID the user had written for it, whosever it is, or without a written ID the last of its name. |
| AlertPolicyDeletes.SyncSpares | internal/controller/alertpolicy_controller.go:308-425 | From a status in order, whatever fails: a whole sync deletes no condition with a configured name whose search succeeds, and leaves unmanaged conditions and those of other policies alone. |
| AlertPolicyConvergence.HandleConditionsConvergesIff | internal/controller/alertpolicy_controller.go:810-923 | With no failures the conditions with configured or formerly applied names become exactly the configured ones, each under the ID the snapshot records and with exactly its spec, if and only if no such name had two conditions before: of two one survives that nothing records. |
| AlertPolicyConvergence.NothingStaleLeft | internal/controller/alertpolicy_controller.go:893-914 | If handleConditions meets no error, an applied name that had one condition and is configured no more has none. |
| AlertPolicyConditionCalls.FirstNamedExact | internal/controller/alertpolicy_controller.go:1152-1187 | The condition found by name is the first listed with it; none is found exactly if there is none. |
| AlertPolicyConditionCalls.UpToDateTurn | internal/controller/alertpolicy_controller.go:838-862 | A condition that exists and needs nothing sent, because its spec is the applied one, or because nothing is applied under its name and its spec is the projection of the first condition of the name: whatever creates and updates would do, the turn makes the search and no other call, adds no error, and records the ID and the name of that condition. |
| AlertPolicyConditionCalls.MissingTurn | internal/controller/alertpolicy_controller.go:874-889 | A condition that does not exist is created by the one call after the search; the new ID is recorded, or the error. |
| AlertPolicyConditionCalls.StaleTurn | internal/controller/alertpolicy_controller.go:838-873 | A condition that exists and is not up to date is updated by the one call after the search, under the ID of the first of its name. |
| AlertPolicyConditionCalls.HandleCallsExact | internal/controller/alertpolicy_controller.go:810-923 | Whatever fails and whatever IDs are recorded: the calls of handleConditions, all of them and in order, judged by the store it starts from. |
| AlertPolicyConditionCalls.HandleOnlyReadsIff | internal/controller/alertpolicy_controller.go:810-923 | It only reads exactly if every configured condition whose search succeeds is up to date, and no applied entry is unwanted or the listing for the deletes fails. |
| AlertPolicyConditionCalls.EntryExact | internal/controller/alertpolicy_controller.go:829-916 | A condition that was there is recorded with the ID of the first of its name, or as the user wrote it exactly if its search or its needed update failed. |
| AlertPolicyConditionCalls.AdoptedConditionsAreLeft | internal/controller/alertpolicy_controller.go:858-862 | With nothing applied and every configured condition the projection of the first of its name: no mutating call, no failure, whatever creates and updates would do, and the IDs found are recorded. |
| AlertPolicyConditionCalls.HandleFailsIff | internal/controller/alertpolicy_controller.go:918-923 | With recorded IDs in order it fails exactly if a search fails, or a create or update that is needed, or the listing for the deletes, or a delete, to which the absence of the condition counts. |
| AlertPolicyConditionCalls.IfNeededCallsExact | internal/controller/alertpolicy_controller.go:428-446 | Conditions are handled exactly if their specs differ from the applied ones, or one of them is not what New Relic has last of its name; with the exact calls. |
| AlertPolicyCalls.SyncCallsExact | internal/controller/alertpolicy_controller.go:308-425 | Whatever fails: a sync makes one lookup, then a create exactly if the policy is missing or an update exactly if it is there under another name or preference, and then only calls for conditions of the account. |
| AlertPolicyCalls.ReportedExact | internal/controller/alertpolicy_controller.go:308-385 | Each reason for which a sync is blocked is reported exactly when it applies; a sync that is not blocked reports success exactly if nothing failed. |
| AlertPolicyCalls.ReconcileReportsExact | internal/controller/alertpolicy_controller.go:260-303 | The status a reconcile computes: as it was but for the report if the object is settled, else that of the sync, with a blank snapshot for a missing one. |
| AlertPolicyCalls.FinalizerExact | internal/controller/alertpolicy_controller.go:552-593 | Deletes go to the account in which the policy was applied; the exact calls, and exactly when the finalizer may go. |
| AlertPolicyCalls.UnknownPreferenceIsDefault | internal/controller/alertpolicy_controller.go:449-488 | An object that bypassed admission with a preference that is not known: a sync that succeeds leaves the policy with the default one. |
| AlertPolicyIdentity.HandleWorks | internal/controller/alertpolicy_controller.go:810-923 | handleConditions only calls condition operations in the account and changes no policy. |
| AlertPolicyIdentity.ExistingWorks | internal/controller/alertpolicy_controller.go:381-424 | With the policy located, calls stay in the account, no policy but it is changed, and its ID is the one recorded. |
| AlertPolicyIdentity.SyncIsConfined | internal/controller/alertpolicy_controller.go:308-425 | Every call of a sync targets the account of the spec, none deletes a policy, names are searched only when no ID is recorded, and no policy but the recorded one is created or changed. |
| AlertPolicyIdentity.BlockedChangesNothing | internal/controller/alertpolicy_controller.go:311-385 | A blocked sync makes no mutating call and leaves spec, recorded ID and snapshot as they were. |
| AlertPolicyIdentity.RecordedIdStands | internal/controller/alertpolicy_controller.go:323-353 | A recorded ID changes exactly after a typed NotFound for it, to the ID of a new policy or to none; no search by name follows. |
| AlertPolicyIdentity.AdoptionIsExact | internal/controller/alertpolicy_controller.go:353-404 | From a blank ID a policy is adopted only if it is the one exact match in the account, and created only if there is none. |
| AlertPolicyIdentity.ReleasedMeansGone | internal/controller/alertpolicy_controller.go:552-593 | The finalizer goes only if no ID was recorded or the policy is gone from the account it was applied in, and exactly then if the confirming lookup answers; nothing else is deleted. |
| AlertPolicyQuiescence.SettlesIff | internal/controller/alertpolicy_controller.go:750-787 | The cache check passes exactly if a policy is recorded and the snapshot has every field of the spec but the IDs and outer names of conditions. |
| AlertPolicyQuiescence.SettlesOneSpec | internal/controller/alertpolicy_controller.go:750-787 | So a status settles one spec at most: two that pass with it agree on name, preference, region, account, key, secret and every condition spec. |
| AlertPolicyQuiescence.FailedConditionIsNotRetried | internal/controller/alertpolicy_controller.go:810-923 | After handleConditions the cache check passes whatever failed, so the next reconcile makes no call; with the exact condition under which a condition is realised nevertheless, be it that its create or update failed, or its search. |
| AlertPolicyQuiescence.HandledWithoutError | internal/controller/alertpolicy_controller.go:810-923 | If handleConditions meets no error, a configured condition is realised afterwards exactly if it was before or was not taken for up to date. |
| AlertPolicyQuiescence.CreateSettles | internal/controller/alertpolicy_controller.go:472-487 | A created policy passes the cache check even if its conditions could not be created. |
| AlertPolicyQuiescence.FailedCreateIsNotRetried | internal/controller/alertpolicy_controller.go:472-513 | So what createPolicy leaves is final: the next reconcile makes no call, and a configured condition is there exactly if its own create did not fail. |
| AlertPolicyQuiescence.DoneSettles | internal/controller/alertpolicy_controller.go:308-425 | A sync that is neither blocked nor failed leaves a status that passes the cache check, for the object in hand and the stored one. |
| AlertPolicyQuiescence.NoErrorsAllPresent | internal/controller/alertpolicy_controller.go:829-890 | If the loop meets no error every configured name exists. |
| AlertPolicyQuiescence.SyncIsDone | internal/controller/alertpolicy_controller.go:308-425 | Such a sync leaves the policy as specified with every configured name, whatever faults it survived. |
| AlertPolicyQuiescence.HandleReads | internal/controller/alertpolicy_controller.go:810-923 | handleConditions of unchanged conditions that all exist only reads. |
| AlertPolicyQuiescence.NextSyncOnlyReads | internal/controller/alertpolicy_controller.go:683-766 | From there a further sync makes no create, update or delete, however thresholds are written. |
| AlertPolicyQuiescence.SyncQuiesces | internal/controller/alertpolicy_controller.go:308-446 | Both together: after a sync that is done the cache check holds, and a further sync would only read. |
| AlertPolicyFailures.AdoptionExact | internal/controller/alertpolicy_controller.go:353-421 | Adoption by name realises a condition exactly if it was realised, or the snapshot left from an earlier policy does not take it for up to date. |
| AlertPolicyFailures.FailedRecreateKeepsSnapshot | internal/controller/alertpolicy_controller.go:333-392 | How a stale snapshot comes about: the policy is gone and its replacement cannot be created. |
| AlertPolicyFailures.StaleAdoptionHidesDifference | internal/controller/alertpolicy_controller.go:333-421 | An input, from a sound status on, for which the adopted condition stays different although the object is reported in sync for good. |
| AlertPolicyFailures.FailedSearchLosesCondition | internal/controller/alertpolicy_controller.go:832-836 | An input, with a blank recorded ID, for which a failed search deletes a configured condition and the object passes the cache check from then on. |
| AlertPolicyFailures.FailedSearchNeverCreates | internal/controller/alertpolicy_controller.go:832-836 | An input for which a failed search leaves a new condition missing and the object passes the cache check from then on. |
| AlertPolicyFailures.FailedCreateLosesCondition | internal/controller/alertpolicy_controller.go:472-513 | An input for which the one condition of a new policy is missing and the object passes the cache check from then on. |
| AlertPolicyFailures.WrittenIdLosesCondition | internal/controller/alertpolicy_controller.go:898-912 | An input with a written ID for which a configured condition is deleted without any failing call, after one create had failed. |
| AlertPolicyFailures.LostStatusTrueIff | internal/controller/alertpolicy_controller.go:1026-1042 | After an edit was carried out by a sync that was neither blocked nor failed and its status was lost, the old status is still true exactly if the edited spec asks for the same policy and for every condition that was asked for. |
| AlertPolicyFailures.LostStatusHidesDifference | internal/controller/alertpolicy_controller.go:1029-1042 | An input for which a status that is never written makes a later cache check pass although New Relic has another preference. |
| AlertPolicyFailures.LostStatusLosesCondition | internal/controller/alertpolicy_controller.go:1029-1042 | An input for which it makes the cache check pass although a condition is gone. |
| AlertPolicyFailures.DuplicateStays | internal/controller/alertpolicy_controller.go:893-914 | An input with two conditions of one managed name that nothing deletes. |
| AlertPolicyWebhook.AlertPolicy.ApplyDefaults | api/v1/alertpolicy_webhook.go:128-139 | The spec becomes its defaulted value: account, region, preference in upper case. |
| AlertPolicyWebhook.AlertPolicy.ValidateAPIKeyOrSecret | api/v1/alertpolicy_webhook.go:142-165 | No error exactly if the account is positive and exactly one of a key and a complete secret is given. |
| AlertPolicyWebhook.AlertPolicy.ValidateAccountIDImmutable | api/v1/alertpolicy_webhook.go:169-184 | No error exactly if the account is the old one or there was none. |
| AlertPolicyWebhook.AlertPolicy.ValidatePolicySchema | api/v1/alertpolicy_webhook.go:187-199 | No error exactly if there is a name and the preference is one of the three. |
| AlertPolicyWebhook.ValidateTerm | api/v1/alertpolicy_webhook.go:229-271 | No error exactly if operator, threshold, priority, occurrences and duration of the term are acceptable for the type and the signal. |
| AlertPolicyWebhook.ValidateSignal | api/v1/alertpolicy_webhook.go:280-330 | No error exactly if the signal has a known method with the delay or timer that goes with it, in range, and no offset. |
| AlertPolicyWebhook.ValidateCondition | api/v1/alertpolicy_webhook.go:205-330 | No error exactly if name, type, direction, every term and the signal are acceptable. |
| AlertPolicyWebhook.AlertPolicy.ValidateConditionSchema | api/v1/alertpolicy_webhook.go:202-335 | No error exactly if every condition is acceptable. |
| AlertPolicyWebhook.AlertPolicy.ValidateTypeSwitch | api/v1/alertpolicy_webhook.go:338-355 | No error exactly if no condition switches between static and baseline against the first old one of its name. |
| AlertPolicyWebhook.AlertPolicy.ValidateCreate | api/v1/alertpolicy_webhook.go:67-89 | No error exactly if the spec is acceptable, and its condition list is not given empty. |
| AlertPolicyWebhook.AlertPolicy.ValidateUpdate | api/v1/alertpolicy_webhook.go:92-118 | No error exactly if it is an acceptable update of the old spec, and its condition list is not given empty. |
| AlertPolicyWebhook.DefaultedAgainIff | api/v1/alertpolicy_webhook.go:128-139 | Defaulting again under a later operator default changes nothing exactly if an account was settled or there is no default. |
| AlertPolicyWebhook.OmittedMeansDefault | api/v1/alertpolicy_webhook.go:128-139 | A region or a preference that is left out is taken as if its default had been written. |
| AlertPolicyWebhook.PreferenceInAnyCase | api/v1/alertpolicy_webhook.go:135-138 | A known preference may be written in any case. |
| AlertPolicyWebhook.UpdateAcceptableIff | api/v1/alertpolicy_webhook.go:92-118 | An update of an admitted spec is let through exactly if it is acceptable by itself, the account is the same, and every condition whose name was there has the type of the first that bore it. |
| AlertPolicyWebhook.AcceptableIsSendable | api/v1/alertpolicy_webhook.go:202-229 | Nothing admitted makes the reconciler dereference a missing result, and type and preference are sent as configured. |
| AlertPolicyWebhook.AccountNeverChanges | api/v1/alertpolicy_webhook.go:169-184 | In any history of creates and updates, admitted or rejected, every stored spec is acceptable and in the first account. |
| AlertPolicyWebhook.OmittedAccountAdmittedIff | api/v1/alertpolicy_webhook.go:169-181 | An update that leaves the account to the default is admitted exactly if the default is the stored account. |
| AlertPolicyRuns.EditIsSeenIff | internal/controller/alertpolicy_controller.go:260-303 | After any run, an object in sync is edited and reconciled: New Relic is called exactly if the admitted edit changed more than IDs and outer names of conditions, and the first call looks the policy up. |
| AlertPolicyRuns.ReconcileStaysInAccount | internal/controller/alertpolicy_controller.go:311-318 | A reconcile in the recorded account keeps it recorded and never reports a change of account. |
| AlertPolicyRuns.AccountIDChangedUnreachable | internal/controller/alertpolicy_controller.go:311-318 | In every run from a created object, with any faults, edits and outside changes, the account is constant and AccountIDChanged is never reported. |
| AlertPolicyRuns.SparingKeepsSound | internal/controller/alertpolicy_controller.go:750-787 | Outside changes that leave managed conditions alone, even deleting the policy, keep the status true. |
| AlertPolicyRuns.StepKeepsGood | internal/controller/alertpolicy_controller.go:260-303 | Every step keeps the invariant: edits at any moment, reads, reconciles with failing policy-level calls, outside changes that spare managed conditions. |
| AlertPolicyRuns.SkipIsSoundOverRuns | internal/controller/alertpolicy_controller.go:260-303 | In every such run, whenever the stored object passes the cache check while its policy exists, New Relic has the stored name, preference and every stored condition; an edit made during a reconcile is not lost. |
| AlertPolicyRuns.ReconcileStaysAnchored | internal/controller/alertpolicy_controller.go:323-405 | If nobody else deletes the policy, a reconcile keeps the recorded policy existing and recorded, and never adopts over conditions that mislead. |
| AlertPolicyRuns.UndisturbedRuns | internal/controller/alertpolicy_controller.go:194-303 | So in runs where nobody else deletes the policy its ID never changes once recorded, and skip soundness needs no hypothesis on adoptions. |
| AlertPolicyRuns.ReleasedOverRuns | internal/controller/alertpolicy_controller.go:240-258 | In runs with any failures, lost statuses, edits, adoptions and outside changes: once the finalizer of a deleted object may go, the recorded policy is in no account any more and neither is any of its conditions. |
| AlertPolicyRuns.LostKeepsRecords | internal/controller/alertpolicy_controller.go:1026-1042 | A status that could not be replaced still locates its policy after the reconcile, and the IDs it records stay in order. |
| AlertPolicyRuns.DeleteSafeOverRuns | internal/controller/alertpolicy_controller.go:810-923 | In runs in which every call fails at will and statuses are lost, a reconcile deletes no condition with a configured name for which its search succeeds and leaves unmanaged ones and those of other policies alone, if written IDs are in order wherever a condition call fails. |
| AlertPolicyRuns.QuiescesOverRuns | internal/controller/alertpolicy_controller.go:308-446 | In the same runs a reconcile that is neither blocked nor failed leaves an object that passes the cache check, and a further sync of it would only read. |
| AlertPolicyRuns.BlankIsOrderly | internal/controller/alertpolicy_controller.go:333-342 | If users write no IDs, that condition holds throughout, whatever fails. |
| AlertPolicyController.AlertsApi.SearchConditions | internal/controller/alertpolicy_controller.go:90-96 | The listing of a policy: its conditions in order of creation. |
| AlertPolicyController.FindAppliedConditionIndex | internal/controller/alertpolicy_controller.go:699-707 | The index of the first applied condition with the identity, or -1. |
| AlertPolicyController.HaveConditionsChanged | internal/controller/alertpolicy_controller.go:769-787 | True exactly if the lists of condition specs differ. |
| AlertPolicyController.AlertPolicyReconciler.GetExistingNrqlCondition | internal/controller/alertpolicy_controller.go:1152-1187 | The first listed condition of the name, after one search. |
| AlertPolicyController.AlertPolicyReconciler.GetExistingNrqlConditionsByName | internal/controller/alertpolicy_controller.go:925-950 | The map over the listing holds the last condition of every nonblank name. |
| AlertPolicyController.AlertPolicyReconciler.CreateCondition | internal/controller/alertpolicy_controller.go:1045-1079 | One create of the denoted condition in the account and policy; the result carries its ID and name. |
| AlertPolicyController.AlertPolicyReconciler.UpdateCondition | internal/controller/alertpolicy_controller.go:1082-1118 | One update of the condition with its ID to the denoted one. |
| AlertPolicyController.AlertPolicyReconciler.ProcessCondition | internal/controller/alertpolicy_controller.go:829-890 | One turn of the loop, on store, spec, marks and errors. |
| AlertPolicyController.AlertPolicyReconciler.DeleteStale | internal/controller/alertpolicy_controller.go:892-914 | The delete phase, on store and errors. |
| AlertPolicyController.AlertPolicyReconciler.HandleConditions | internal/controller/alertpolicy_controller.go:810-923 | Object, store and error after the in-place loops are those of the function the lemmas speak of. |
| AlertPolicyController.AlertPolicyReconciler.NeedsConditionReconcile | internal/controller/alertpolicy_controller.go:725-748 | Whether specs changed, or else some configured condition is missing from the listing or differs. |
| AlertPolicyController.AlertPolicyReconciler.ReconcileConditionsIfNeeded | internal/controller/alertpolicy_controller.go:428-446 | Object, store and error of the condition stage. |
| AlertPolicyController.AlertPolicyReconciler.CreatePolicyConditions | internal/controller/alertpolicy_controller.go:494-513 | Spec and snapshot are updated together by every create that works. |
| AlertPolicyController.AlertPolicyReconciler.CreatePolicy | internal/controller/alertpolicy_controller.go:449-488 | Object, store and error of creating a policy. |
| AlertPolicyController.AlertPolicyReconciler.UpdatePolicy | internal/controller/alertpolicy_controller.go:516-546 | Object, store and error of updating a policy. |
| AlertPolicyController.AlertPolicyReconciler.FindPolicyByName | internal/controller/alertpolicy_controller.go:598-618 | Exactly the policies of the account with exactly the name, each once. |
| AlertPolicyController.AlertPolicyReconciler.Forget | internal/controller/alertpolicy_controller.go:333-342 | Clears the recorded ID and the ID of every configured condition in place. |
| AlertPolicyController.AlertPolicyReconciler.SyncExisting | internal/controller/alertpolicy_controller.go:381-424 | Object, store and outcome once a policy is located. |
| AlertPolicyController.AlertPolicyReconciler.SyncByName | internal/controller/alertpolicy_controller.go:353-379 | Object, store and outcome of the search by name. |
| AlertPolicyController.AlertPolicyReconciler.SyncRemotePolicy | internal/controller/alertpolicy_controller.go:308-425 | Object, store, outcome and error of the whole sync are those of the sync function. |
| AlertPolicyController.AlertPolicyReconciler.DeletePolicy | internal/controller/alertpolicy_controller.go:552-583 | Store and permission to release the finalizer. |
| AlertPolicyController.AlertPolicyReconciler.MatchesAppliedPolicyState | internal/controller/alertpolicy_controller.go:750-766 | The cache check. |
| AlertPolicyController.AlertPolicyReconciler.UpdateStatusIfChanged | internal/controller/alertpolicy_controller.go:1026-1042 | Edits that win the race are kept; the status is written after fewer than five of them, and not at all if it is already there. |
| AlertPolicyController.AlertPolicyReconciler.Reconcile | internal/controller/alertpolicy_controller.go:232-303 | New Relic is that of the reconcile function, and so is the status unless five edits in a row lose it; the stored spec stays as edited; a deleted object loses its finalizer exactly as its policy is released. |
| Strings.SortedUnique | internal/controller/entitytagging_controller.go:251-254 | A multiset of strings has one sorted order. |
| Strings.SortStrings | internal/controller/entitytagging_controller.go:251-252 | Sorts the array in place: a sorted permutation. |
| EntityTags.SameAsListing | internal/controller/entitytagging_controller.go:241-255 | Comparing with a listing of remote values as multisets is: no repeated value, and the same set. |
| EntityTags.DesiredExact | internal/controller/entitytagging_controller.go:432-445 | Of several tags with one key the last counts. |
| EntityTags.PlanCoversDifference | internal/controller/entitytagging_controller.go:446-482 | The three lists share no key and together name exactly the keys that differ. |
| EntityTags.ExecuteIsRetag | internal/controller/entitytagging_controller.go:484-508 | Executing a plan has its promised effect key by key, whichever of its calls fail. |
| EntityTags.RetagConverges | internal/controller/entitytagging_controller.go:446-508 | Without failures an entity ends with exactly the desired keys and values. |
| EntityTags.SecondPassIdleIff | internal/controller/entitytagging_controller.go:446-508 | A second pass plans nothing exactly if no desired tag repeats a value. |
| EntityTags.RepeatedValueNeverSettles | internal/controller/entitytagging_controller.go:241-255 | An input for which every further pass has something to send. |
| EntityTags.RetagIdempotent | internal/controller/entitytagging_controller.go:446-508 | A second turn changes nothing, even if it makes calls. |
| EntityTaggings.RetagIsolated | internal/controller/entitytagging_controller.go:432-508 | An entity ends as its own calls leave it, whatever happens to the others. |
| EntityTaggings.RetagElsewhere | internal/controller/entitytagging_controller.go:432-508 | Entities that are not managed are not touched. |
| EntityTaggings.EntityConverges | internal/controller/entitytagging_controller.go:422-516 | An entity whose own calls succeed converges, and only repeated values would make a second pass call anything. |
| EntityTaggings.FetchedNames | internal/controller/entitytagging_controller.go:284-325 | Fetched names are distinct and are exactly the names asked for that some entity of the account has. |
| EntityTaggings.FetchedExact | internal/controller/entitytagging_controller.go:270-325 | What is fetched: for each name asked for the first entity listed that has it and is of the account, if the account is given. |
| EntityTaggings.NextManagedExact | internal/controller/entitytagging_controller.go:347-402 | Who is managed afterwards: desired names that were managed keep their entity, and every other one gets the first entity listed that has it and is of the account, if there is one. |
| EntityTaggings.FirstRunRecordsIff | internal/controller/entitytagging_controller.go:142-196 | A first run records something exactly if some desired name is that of an entity of the account, and then exactly those entities; if not, it changes nothing. |
| EntityTaggings.ManagedNamesExact | internal/controller/entitytagging_controller.go:347-402 | Managed names stay distinct and are exactly the desired names that were managed or were found. |
| EntityTaggingFailures.TurnsPlace | internal/controller/entitytagging_controller.go:432-508 | Whichever calls fail, the turns place a key on an entity exactly if one of them writes it, judged by the tags before them all. |
| EntityTaggingFailures.InterruptedUnrecordedIff | internal/controller/entitytagging_controller.go:140-224 | Where a key was not unrecorded before, it is after an interrupted reconcile of any kind exactly if that reconcile wrote it where the status does not record it. |
| EntityTaggingFailures.InterruptedContainedIff | internal/controller/entitytagging_controller.go:140-224 | So an interrupted reconcile keeps placed tags on managed entities under applied keys exactly if it wrote recorded keys only. |
| EntityTaggingFailures.FirstRunContainedIff | internal/controller/entitytagging_controller.go:168-193 | A first run that stops leaves nothing unrecorded exactly if it tagged no entity at all. |
| EntityTaggingRuns.LeavingIsGone | internal/controller/entitytagging_controller.go:347-367 | An entity that is dropped is among those whose applied keys are deleted. |
| EntityTaggingRuns.DoneUnrecordedIff | internal/controller/entitytagging_controller.go:200-221 | A completed reconcile leaves a tag unrecorded exactly where it was so before and the entity is not managed any more. |
| EntityTaggingRuns.StepKeepsRecord | internal/controller/entitytagging_controller.go:140-224 | A step makes a tag unrecorded exactly if it is an interrupted reconcile that wrote it so. |
| EntityTaggingRuns.NoTagLeak | internal/controller/entitytagging_controller.go:140-224 | In every run, with any edits, any changes by others and reconciles that stop anywhere, an entity that is not managed carries a tag of the operator only if a reconcile that stopped wrote it there unrecorded. |
| EntityTaggingRuns.LeavingIsCleaned | internal/controller/entitytagging_controller.go:347-367 | In the reconcile in which an entity stops being managed every key applied to it is deleted, whatever failed before. |
| EntityTaggingRuns.FinalizerLeavesIff | internal/controller/entitytagging_controller.go:114-134 | A recorded tag is left when the object goes exactly if every delete for its entity failed. |
| EntityTaggingRuns.FailedFirstRunLeavesTag | internal/controller/entitytagging_controller.go:168-193 | A run in which the second of two adds fails and the tag of the first entity stays for good. |
| EntityTaggingRuns.FailedTurnLeavesTag | internal/controller/entitytagging_controller.go:432-516 | An input for which one failed turn leaves a tag of another entity unrecorded. |
| EntityTaggingController.CompareTagValues | internal/controller/entitytagging_controller.go:241-255 | True exactly if the lists are equal as multisets; the inputs are not written. |
| EntityTaggingController.PlanTagChanges | internal/controller/entitytagging_controller.go:446-482 | The lists computed over maps in any order are a right plan. |
| EntityTaggingController.EntityTaggingReconciler.FetchEntitiesByName | internal/controller/entitytagging_controller.go:284-325 | Fails on a name that cannot be quoted or a failed search; otherwise the first match of every name. |
| EntityTaggingController.EntityTaggingReconciler.HandleEntity | internal/controller/entitytagging_controller.go:432-508 | The tags of one entity after its turn, whichever calls fail; those of a turn without failures if none is reported; no mutation if nothing differs. |
| EntityTaggingController.EntityTaggingReconciler.HandleTags | internal/controller/entitytagging_controller.go:422-516 | The tags of all entities after their turns. |
| EntityTaggingController.EntityTaggingReconciler.ReconcileEntities | internal/controller/entitytagging_controller.go:330-405 | Applied keys are deleted from the entities that left, and the managed list becomes those that stay and those found; on failure the status is unchanged and some of those entities are cleaned. |
| EntityTaggingController.EntityTaggingReconciler.FirstRun | internal/controller/entitytagging_controller.go:142-196 | All tags go to every entity found; it fails if one add fails, with the tags of the adds that work in place. |
| EntityTaggingController.EntityTaggingReconciler.Reconcile | internal/controller/entitytagging_controller.go:140-224 | Either it completes as the run lemmas have it, or it reports a failure, the status is as it was, and the tags are those of an interrupted reconcile. |
| EntityTaggingController.EntityTaggingReconciler.Finalize | internal/controller/entitytagging_controller.go:114-134 | Applied keys are deleted from exactly the managed entities for which a call works. |
| AlertWorkflows.HandledIdsDistinctIff | internal/controller/alertworkflow_controller.go:295-341 | Created channels get IDs of their own; all IDs end up distinct exactly if no two configured channels are found under the same one. |
| AlertWorkflows.ChannelsConservedIff | internal/controller/alertworkflow_controller.go:295-355 | Exactly the applied channels that are there and not marked are deleted; every configured channel is live, those that others deleted created anew, and the applied ones that are gone are those not configured any more, exactly if the marks are right. |
| AlertWorkflows.HandledIdsExact | internal/controller/alertworkflow_controller.go:296-341 | Whatever IDs the user wrote: a channel ends with the applied ID of its position if the names are equal, else with the written one, if such a channel is live, and otherwise with a new one; of its settings only the destination may be filled in. |
| AlertWorkflows.DeletedExact | internal/controller/alertworkflow_controller.go:343-355 | Of the live applied channels exactly those are deleted at whose position no configured channel ends with the ID of a live applied one. |
| AlertWorkflows.BlankIdsExact | internal/controller/alertworkflow_controller.go:304-355 | Without written IDs: a channel keeps its ID exactly if its position and name are those of a live applied one, and of the live applied ones exactly the others are deleted. |
| AlertWorkflows.BlankIdsHold | internal/controller/alertworkflow_controller.go:311-341 | And what they hold: a channel that stays gets the configured name and details if its spec differs from the applied one, any other is created as configured, and those of others are untouched. |
| AlertWorkflows.RefusedRepeats | internal/controller/alertworkflow_controller.go:343-355 | If New Relic refuses to delete a channel that is gone, handling is refused at every retry, and each time the channels that were not found are created again and recorded nowhere. |
| AlertWorkflows.ChangedAgainIff | internal/controller/alertworkflow_controller.go:269-285 | The next reconcile handles channels again exactly if one was created with a destination ID the spec does not give. |
| AlertWorkflows.SecondHandlingSettles | internal/controller/alertworkflow_controller.go:269-362 | Handling the same spec a second time creates and deletes nothing, and settles it, whatever IDs the user wrote. |
| AlertWorkflows.HandlingKeepsOwnedIff | internal/controller/alertworkflow_controller.go:295-362 | Handling makes every configured channel live and keeps them distinct and all that New Relic has beside those of others, whatever applied ones others deleted, exactly if the IDs the user wrote fit. |
| AlertWorkflows.BlankIdsFit | internal/controller/alertworkflow_controller.go:295-329 | Without written IDs they always do. |
| AlertWorkflows.NoChannelLeak | internal/controller/alertworkflow_controller.go:295-362 | So over any run of such edits, with channels deleted by others in between, New Relic has beside the applied channels exactly those of others that nobody deleted. |
| AlertWorkflows.ReconcileDeletesIff | internal/controller/alertworkflow_controller.go:138-178 | A reconcile deletes a live applied channel exactly if channels are configured and none at its position has its name. |
| AlertWorkflows.LiveAsRecordedIff | internal/controller/alertworkflow_controller.go:456-486 | Every channel is recorded as configured, but New Relic has it so exactly if it was created or its kind and destination were those configured: an edit of these is never sent. |
| AlertWorkflows.KindEditNeverSent | internal/controller/alertworkflow_controller.go:320-328 | An input for which an edited kind is recorded as applied, New Relic keeps the old one, and the next reconcile finds nothing to do. |
| AlertWorkflows.NoEditOverlooked | internal/controller/alertworkflow_controller.go:138-178 | Over any run of edits without written IDs, with channels deleted by others in between, the channels recorded are those configured last, and each that is live has the name and details configured last. |
| AlertWorkflows.WrittenIdOutOfRange | internal/controller/alertworkflow_controller.go:311-318 | An input with a written ID for which the index of the mark is out of range. |
| AlertWorkflows.WrittenIdLosesChannel | internal/controller/alertworkflow_controller.go:311-355 | An input with a written ID for which a configured channel is deleted and a removed one spared. |
| AlertWorkflows.RefusedDeleteLeaksChannel | internal/controller/alertworkflow_controller.go:343-355 | An input for which a refused delete leaves a channel that is recorded nowhere. |
| AlertWorkflowController.AlertWorkflowReconciler.HaveChannelsChanged | internal/controller/alertworkflow_controller.go:269-285 | True exactly if the lists of channel specs differ. |
| AlertWorkflowController.AlertWorkflowReconciler.CopyAppliedIds | internal/controller/alertworkflow_controller.go:296-309 | Copies an applied ID to the configured channel of the same position and name, in bounds for lists of any two lengths. |
| AlertWorkflowController.AlertWorkflowReconciler.KeepChannel | internal/controller/alertworkflow_controller.go:315-329 | Marks the entry at the place of the configured channel and updates the channel if it differs; the index is out of range exactly if the channel carries an applied ID past the end of the applied list. |
| AlertWorkflowController.AlertWorkflowReconciler.HandleChannel | internal/controller/alertworkflow_controller.go:311-341 | One turn: the channel is found and kept, or created with a fresh ID, whatever given-out ID it carries, and whether or not its applied channel still exists. |
| AlertWorkflowController.AlertWorkflowReconciler.DeleteUnprocessed | internal/controller/alertworkflow_controller.go:343-355 | Deletes the applied channels that are not marked, up to the first that is gone if New Relic refuses such a delete. |
| AlertWorkflowController.AlertWorkflowReconciler.HandleChannels | internal/controller/alertworkflow_controller.go:295-362 | An index is out of range exactly if a configured channel past the end of the applied list is found under an applied ID, and then nothing is deleted; a delete is refused exactly if a channel to delete is gone and New Relic minds; else channels and New Relic are those of the specification functions, and the applied spec comes to point at the spec. |
| AlertWorkflowController.AlertWorkflowReconciler.UpdateWorkflow | internal/controller/alertworkflow_controller.go:621-672 | Both channel loops stay in bounds; every configured channel is sent with the applied ID. |
| AlertWorkflowController.AlertWorkflowReconciler.ReconcileExisting | internal/controller/alertworkflow_controller.go:138-178 | Applied IDs and specs and New Relic are those of the reconcile function unless handling ends in one of those two ways; channels are sent exactly if something changed. |

## Left out

- AlertPolicyRuns.SkipIsSoundOverRuns: condition calls succeed, statuses are written, conditions have proper names, managed conditions are not edited outside, and no policy is adopted over applied conditions that mislead; without the first two or the last it is false, as FailedConditionIsNotRetried, LostStatusHidesDifference and SyncSoundIff say.
- AlertPolicyConditions.HandleConditionsDeleteSafe: the search for the name succeeds, because a failed one can delete a wanted condition (FailedSearchDeletesIff), and recorded IDs are in order, because a written ID that is recorded after a failed call can make it false; HandleConditionsDeletesIff has neither hypothesis, and SyncKeepsRecords and DeleteSafeOverRuns say when the second holds.
- AlertPolicyConditions.HandleConditionsFrame: recorded IDs are in order, for the same reason.
- AlertPolicyFailures.LostStatusTrueIff: a name that the edit removes had one condition; with two the second can make the old snapshot true.
- AlertPolicyQuiescence.NextSyncOnlyReads: the condition searches of the further sync succeed, for the same reason as delete safety.
- AlertPolicyWebhook.AlertPolicy.ApplyDefaults: upper case reaches the letters whose upper case is an ASCII letter; a preference with any other lower-case letter stays as it is and is refused all the same.
- Text.ToUpperIdempotent: the same.
- AlertWorkflowController.AlertWorkflowReconciler.HandleChannels: calls succeed, but for deletes of channels that are gone, and no written or applied ID is one that New Relic has yet to give out.
- AlertWorkflowController.AlertWorkflowReconciler.HandleChannel: the same.
- AlertWorkflowController.AlertWorkflowReconciler.ReconcileExisting: the same.
- AlertWorkflows.NoChannelLeak: deleting a channel that is gone is no error; if it is, RefusedRepeats says what happens instead.
- ServiceLevelSync.RoundTripIff: the server echoes its input, rounds targets to five places and drops the attribute of COUNT, as the comments in the webhook say; more is not known of it.
- Floating point: decimals are exact, which is faithful up to 15 significant digits; overflow, hexadecimal and underscore syntax are not modelled.
- Interleaving: a sync or reconcile runs without outside changes between its calls; user edits and outside changes happen between reading, finishing and the next reading. A reconcile reads the object as last written.
- Order of listings: searches list policies and conditions by creation, channels and tags in any order.
- A policy ID is a number: the conversions from and to text and their errors are not modelled.
- A blank and a missing list (channels, terms) are the same here, except for the managed entities and, at admission, the conditions of a policy.
- Ready conditions carry a reason only, no message and no generation.
- Tag replacement is taken per key, as the comment on updateEntityTags has it, and the server keeps tag values as sets.
- The status writes of ServiceLevel succeed in the end.
- AlertWorkflow: destination lookup is a function argument; filters, enrichments, creation and deletion of the workflow and the comparison of its other settings are left out.
- ServiceLevel: finalizer and account access errors; the create and update inputs are one type here.
- EntityTagging: adding the finalizer, and the periodic requeue.
- New Relic echoes names, preferences, conditions and IDs as sent; what it does beyond that is not modelled.
- Classification of error texts: the kinds of outcome (not found, access denied, other) are given.
- Clients, secrets, API keys, logging, manager and webhook registration, deep copies: input and output, or generated code.
- The controllers of single conditions, destinations and channels and their validators: they would add only easy members.

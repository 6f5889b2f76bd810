# MARIN3R: the self-healing configuration protocol, modelled and proved

MARIN3R serves configuration to Envoy proxies. An EnvoyConfig holds the desired
resources of a node; each version of them becomes an EnvoyConfigRevision; one
revision is published and written as a snapshot into the xDS server's cache. Clients
that reject a configuration are counted; when all of them reject it, the revision is
tainted for good and the controller rolls back to an older one. This project models
that loop and proves what holds in every run of it. A second, small part models the
renewal of discovery service certificates.

## How the model is laid out

| file | what it models |
|---|---|
| `Strings.dfy`, `StatKeys.dfy` | statistics keys: printing, reading, substring filters |
| `Stats.dfy`, `Callbacks.dfy` | the statistics store as a class, and the stream callbacks that change it |
| `StatRuns.dfy`, `StatLookups.dfy` | the store against the history of stream events |
| `Metrics.dfy` | collection of the counter and info metrics |
| `Snapshots.dfy` | loading resources, snapshots, the cache reconciler |
| `Revisions.dfy` | sorting and selecting revisions |
| `Reconciler.dfy` | the EnvoyConfig controller's API writes, any of which may fail |
| `RevisionController.dfy` | the EnvoyConfigRevision controller: publish, taint, status, finalize |
| `Protocol.dfy` | all of it as one state machine, interleaved write by write |
| `Healing.dfy` | which histories of stream events make a revision tainted |
| `NoFlapping.dfy`, `ComingBack.dfy`, `Rollback.dfy` | publications while the desired version stays |
| `Pruning.dfy`, `CutShort.dfy` | retention of ten revisions |
| `Taint.dfy` | permanence and cause of taints over whole runs |
| `Delivery.dfy`, `LastServed.dfy` | what is delivered, and what a rollback goes back to, over whole runs |
| `Writes.dfy` | what is stored at each write of an EnvoyConfig reconcile |
| `ConfigStatus.dfy` | the EnvoyConfig controller end to end, with its status |
| `Certificates.dfy` | certificate renewal and its timing |

Code that changes things step by step is a class or a method with loops, proved
against a specification function or predicate; the theorems are about those. The
machine of `Protocol.dfy` has the steps: edit of the spec, begin of an EnvoyConfig
reconcile, one accepted API write of it, giving it up, reconcile of a revision (with a
failing patch or status update as the step chooses), stream event, finalization, crash
with loss of cache and statistics.

## Main results

- At every moment of every run from a fresh node at most one of the revisions the API
  holds, terminating ones included, is published, and no two have the same version
  (`Protocol.OnePublishedAlways`; for each single write of a reconcile that may stop
  anywhere, `Writes.EveryWriteKeepsOnePublished`). Equal timestamps do not matter.
- What is delivered is the spec. In every run in which a version stands for one list of
  resources, as a hash does, each revision holds the resources of its version, and a
  reconcile that loads the desired revision leaves in the cache exactly what the spec's
  own resources load to, name by name (`Delivery.CacheServesTheSpec`).
- Rollback goes to the revision served last: from the moment a publication is recorded,
  every revision of that time that has not been published since sorts no later
  (`LastServed.RecordedSortsHighest`), and with the desired revision tainted the one
  served last is selected (`LastServed.RollsBackToLastServed`). The ten that sort highest
  are kept (`Writes.CompletedKeepsNewestTen`).
- While the desired version stays and nothing is created, no version is published twice
  from any moment between two reconciles on (`NoFlapping.NoRepeatsOnceIdle`), so
  publications are bounded by the untainted revisions. This holds with equal timestamps
  too, listing order deciding between them. A reconcile still running when the stretch
  begins may publish one version once more (`NoFlapping.StretchPublications`), and
  `Rollback.RepeatsIff` says exactly when: the desired revision is stored and the running
  plan can still publish a revision that is not on top.
- "A version moved off is never published again" is false as it stands.
  `Rollback.ReturnsIff` says exactly when a version can come back, from any state: the
  desired revision is stored, and an untainted revision of the version is published with
  another sorting above it, or about to be unpublished by the running plan, or about to
  be published by it without being on top. Both equivalences are for untainted revisions
  that can turn out wrong, or be loaded and rejected; that is what leads back to them.
- In every run whose prunings are not cut short, with any timestamps, no plan deletes
  what it publishes, no deletion hits a published revision and no finalizer clears the
  live snapshot (`Pruning.FinalizersSpareTheLiveSnapshot`). The condition is needed:
  `CutShort.CutShortClearsTheCache` is a run from a fresh node in which one reconcile
  gives up before its deletion and a later one publishes and deletes the same revision.
  For a single reconcile the exact condition is `Pruning.PruningHitsSelected`.
- Taint is permanent, a tainted revision is never published again, and every taint is
  deserved: a wrong spec, or five rejections of the very version in the cache by every
  pod that asked for the type, if identifiers hold no colon (`Taint.TaintIsPermanent`,
  `Taint.PublishedAreUntainted`, `Taint.EveryTaintIsDeserved`). Self-healing also triggers
  when it should: if request keys that contain the node and the type are their own, a
  reconcile that loads a revision taints it if and only if the history holds those
  rejections (`Healing.TaintedIff`). On any store, five rejections of a response by the
  one subscriber make the failing fraction one (`Callbacks.FiveRejectionsFail`), and an
  acceptance leaves it as it is (`Callbacks.AcceptanceKeepsFraction`).
- The reported status agrees with what is stored (`ConfigStatus.StatusIsTruthful`).
- If identifiers hold no colon and deletions name a pod or a node, an aggregated
  counter is the sum of the per-version ones plus twice the rejections that strayed to
  the aggregate itself (`StatLookups.AggregateIsSum`); none strays
  unless an identifier ends in `nonce` (`StatLookups.QuietNeverStrays`,
  `StatLookups.StrayRejection`).
- The substring lookup of a nonce is the exact one if and only if no other unexpired
  nonce of the client contains it, as long as other clients' nonces are told apart by
  their identifiers and none of these ends in `nonce` (`StatLookups.LookupExactIff`);
  then rejections are charged to the response they answer.
- A certificate is valid at all times if wake-ups are late by less than the renewal
  window and none falls on its first instant exactly
  (`Certificates.AlwaysUnexpired`, `Certificates.BoundaryVisitLosesIt`). No trusted one is
  replaced before four fifths of its life are over (`Certificates.NeverReplacedEarly`).

## Assumptions

- API reads and writes are atomic; a revision's reconcile is one step; one EnvoyConfig
  per node ID. An EnvoyConfig reconcile reads once, then its writes are interleaved with
  everything else and compared by resource version.
- A pruned revision is finalized before the next EnvoyConfig reconcile reads the list,
  since the listing does not leave terminating revisions out.
- The clock never goes back; several steps may share an instant. Listing order is the
  stored order and decides between equal instants.
- The decoder of resources is the same throughout a run; secrets and endpoint slices may
  change at any time.
- The API gives every object a UID of its own and refuses to create one whose name is
  taken, also by an object that is terminating.
- Versions are not empty; hashes of resource sets are injective and not empty. Where a
  theorem says so, identifiers and hashes hold no colon and no hash is `*`.
- The list a controller reads is current, and `taintSelf`, which patches without
  comparing resource versions, patches the copy it has read.

## Where code and documents differ

`docs/design/discovery-service.md:33` says that when every revision is tainted the
failing one stays published; the code unpublishes it (the cache is left alone), and
`ConfigStatus.StatusIsTruthful` states that no revision is published then. Line 27 says the
published condition of the others is set to false; the code removes it.

## Model

| member | source | states |
|---|---|---|
| `StatKeys.ParsePrint` | pkg/discoveryservice/xdss/stats/kv.go:34-47 | reading a printed key gives the key back if the first four fields hold no colon, whatever the stat name holds |
| `StatKeys.PrintParse` | pkg/discoveryservice/xdss/stats/kv.go:34-47 | printing what was read gives the text back exactly when it has five parts or more |
| `StatKeys.PrintInjective` | pkg/discoveryservice/xdss/stats/kv.go:45-47 | different keys print differently |
| `StatKeys.PrintHasFiveParts` | pkg/discoveryservice/xdss/stats/kv.go:34-47 | no printed key makes the reader run past its end |
| `StatKeys.FilterWithinField` | pkg/discoveryservice/xdss/stats/kv.go:97-113 | a colon-free filter matches exactly when it lies inside one field |
| `Stats.StatsCache.GetCounter` | pkg/discoveryservice/xdss/stats/kv.go:75-87 | the integer under the key; an error for a missing key or another type |
| `Stats.StatsCache.IncrementCounter` | pkg/discoveryservice/xdss/stats/kv.go:91-95 | the whole new store: one counter raised, from zero if there was none |
| `Stats.StatsCache.FilterKeys` | pkg/discoveryservice/xdss/stats/kv.go:97-113 | exactly the items whose key contains every filter, in any iteration order |
| `Stats.StatsCache.DeleteKeysByFilter` | pkg/discoveryservice/xdss/stats/kv.go:115-120 | exactly the items whose key contains the filter are gone, and the others keep their values |
| `Stats.StatsCache.WriteResponseNonce` | pkg/discoveryservice/xdss/stats/stats.go:34-36 | the nonce is on record for its node, type, version and pod |
| `Stats.StatsCache.ReportNACK` | pkg/discoveryservice/xdss/stats/stats.go:38-57 | charged to the version of the one matching nonce and to the aggregate, with the new count returned; an error and no change unless exactly one nonce matches |
| `Stats.StatsCache.ReportACK` | pkg/discoveryservice/xdss/stats/stats.go:59-65 | both acceptance counters raised and the timestamp recorded |
| `Stats.StatsCache.ReportRequest` | pkg/discoveryservice/xdss/stats/stats.go:67-69 | the pod's request counter raised |
| `Stats.StatsCache.GetSubscribedPods` | pkg/discoveryservice/xdss/stats/stats.go:83-104 | the pods of all request keys that match |
| `Stats.StatsCache.GetPercentageFailing` | pkg/discoveryservice/xdss/stats/stats.go:106-121 | the fraction of subscribed pods with five rejections or more, 0 when there are none |
| `Stats.FractionMeaning` | pkg/discoveryservice/xdss/stats/stats.go:106-121 | times the number of subscribers it is the number of those with five rejections or more; it lies between 0 and 1, is 0 without subscribers, and is 1 exactly when there are some and each rejected five times |
| `StatRuns.RunWellKeyed` | pkg/discoveryservice/xdss/stats/stats.go:34-69 | in every run of colon-free identifiers keys read back, counters and timestamps are integers and nonces are text |
| `StatRuns.IncrementMoves` | pkg/discoveryservice/xdss/stats/kv.go:91-95 | raising one counter changes no other |
| `StatRuns.CounterStep` | pkg/discoveryservice/xdss/stats/stats.go:34-69 | how each event moves each rejection or acceptance counter |
| `StatRuns.CounterBackedByHistory` | pkg/discoveryservice/xdss/stats/stats.go:38-57 | the rejection counter of a version equals the number of rejections the pod sent of that version since it was cleared |
| `StatRuns.AskedIffOnRecord` | pkg/discoveryservice/xdss/stats/stats.go:67-69 | a pod is on record for a type exactly when the history says it asked |
| `StatRuns.OnRecordIsSubscribed` | pkg/discoveryservice/xdss/stats/stats.go:83-104 | the substring lookup misses no pod on record |
| `StatRuns.TaintBackedByRejections` | pkg/discoveryservice/xdss/stats/stats.go:83-121 | a failing fraction of 1 means five rejections of that version from every pod that asked for the type, and from at least one pod |
| `StatLookups.NonceInStat` | pkg/discoveryservice/xdss/stats/stats.go:38-39 | a nonce filter only matches inside the stat name |
| `StatLookups.AggregateIsSum` | pkg/discoveryservice/xdss/stats/stats.go:53-62 | in every run of reports, expiries, restarts and deletions by pod or node the `*` counter equals the sum over the versions plus twice the rejections charged to `*` itself |
| `StatLookups.QuietNeverStrays` | pkg/discoveryservice/xdss/stats/stats.go:38-56 | no rejection is charged to `*` if no identifier ends in `nonce`, so then the counter is the sum |
| `StatLookups.StrayRejection` | pkg/discoveryservice/xdss/stats/stats.go:38-56 | one is, for a pod named `nonce` that names a counter as its nonce |
| `StatLookups.NonceWasSent` | pkg/discoveryservice/xdss/stats/stats.go:34-36 | every nonce on record was written by a response of the history |
| `StatLookups.NonceLookupIsSuperset` | pkg/discoveryservice/xdss/stats/kv.go:97-113 | the substring lookup finds all an exact lookup would |
| `StatLookups.LookupExactIff` | pkg/discoveryservice/xdss/stats/stats.go:38-43 | on the store as it is: if nonces whose key contains the three identifiers are the client's own, the lookup finds exactly the client's nonce if and only if no other unexpired nonce of the client contains it |
| `StatLookups.LookalikeExtends` | pkg/discoveryservice/xdss/stats/stats.go:34-43 | for nonces without colons, to contain it is to extend it |
| `StatLookups.RejectionChargedToItsResponse` | pkg/discoveryservice/xdss/stats/stats.go:38-53 | then the version charged is that of a response with that very nonce to that very client |
| `StatLookups.PrefixNonceMischarged` | pkg/discoveryservice/xdss/stats/stats.go:39-53 | without it they do not: a nonce never sent is charged to one it is a prefix of |
| `Callbacks.StreamCallbacks.OnStreamRequest` | pkg/discoveryservice/xdss/v3/callbacks.go:56-93 | key by key: without a nonce the pod's request counter rises by one; with a nonce and error detail the rejection counters of the version on record and of `*` rise by one, if exactly one key names the client and the nonce; with a nonce alone the acceptance counters of the version named rise by one and the time is recorded; no other key changes, and a missing pod name reads `unknown` |
| `Callbacks.StreamCallbacks.OnStreamResponse` | pkg/discoveryservice/xdss/v3/callbacks.go:97-122 | the nonce is put on record under its node, type, version and pod, and nothing else changes; a client without pod name is not tracked |
| `Callbacks.StreamCallbacks.OnPodDeleted` | pkg/discoveryservice/xdss/stats/garbage_collector.go:32-41 | the keys that contain the pod name are gone, and no other changes |
| `Callbacks.ChargedToSoleMatch` | pkg/discoveryservice/xdss/stats/stats.go:38-53 | a rejection is charged if and only if exactly one key contains the three identifiers and the nonce, and then to the version in that key |
| `Callbacks.RequestAccepts` | pkg/discoveryservice/xdss/v3/callbacks.go:67-84 | the three keys an acceptance writes are different, whatever the identifiers hold, and each gets its own value |
| `Callbacks.RejectionsAddUp` | pkg/discoveryservice/xdss/v3/callbacks.go:67-84 | on any store, every repetition of a rejecting request is counted against the version sent, and nothing but that counter and the `*` one moves |
| `Callbacks.FiveRejectionsFail` | pkg/discoveryservice/xdss/stats/stats.go:38-121 | on any store, five rejections of a response by the only subscriber make the failing fraction one |
| `Callbacks.AcceptanceKeepsFraction` | pkg/discoveryservice/xdss/stats/stats.go:59-121 | an acceptance leaves the failing fraction of every version as it is, unless its own keys pass for request counters |
| `Callbacks.AcceptancesNeverTaint` | pkg/discoveryservice/xdss/v3/callbacks.go:79-84 | an accepting request never changes whether the history holds five rejections by every pod that asked |
| `Metrics.ReachableIsCollectable` | pkg/discoveryservice/xdss/stats/metrics_collector.go:44-105 | no reachable store, whatever the identifiers hold, makes a key reader or a type assertion of collection fail |
| `Metrics.CollectCounters` | pkg/discoveryservice/xdss/stats/metrics_collector.go:46-78 | one line for every aggregated counter on record, with its value, and no other |
| `Metrics.LatestVersions` | pkg/discoveryservice/xdss/stats/metrics_collector.go:80-95 | the running maximum, in any order, is the latest acceptance of every group |
| `Metrics.CollectInfo` | pkg/discoveryservice/xdss/stats/metrics_collector.go:80-105 | one line per node, type and pod, never two, none missing, each naming a version whose timestamp is maximal |
| `Snapshots.SameVersionsSameResources` | pkg/reconcilers/marin3r/envoyconfigrevision/cache.go:253-261 | equal versions of the eight types exactly when the resources are equal |
| `Snapshots.CacheReconciler.LoadLists` | pkg/reconcilers/marin3r/envoyconfigrevision/cache.go:74-231 | resources partitioned by type in order, or the first failure |
| `Snapshots.CacheReconciler.GenerateSnapshot` | pkg/reconcilers/marin3r/envoyconfigrevision/cache.go:74-243 | all or nothing: an error exactly when some resource fails, that of the first; otherwise each type holds under a name what the last of its definitions with that name loads to, and nothing else |
| `Snapshots.CacheReconciler.Fill` | pkg/discoveryservice/xdss/v3/snapshot.go:51-99 | each type holds under a name the last message of that name, none lost and none added, under the version of their content |
| `Snapshots.CacheReconciler.AreDifferent` | pkg/reconcilers/marin3r/envoyconfigrevision/cache.go:253-261 | true exactly when some type's versions differ |
| `Snapshots.CacheReconciler.Reconcile` | pkg/reconcilers/marin3r/envoyconfigrevision/cache.go:43-72 | written or skipped, the node's snapshot then holds, for each type, a message under a name if and only if some definition of the type loads to it and no later one of the type loads to that name; the tracker holds its versions; on an error the cache is as it was; other nodes are untouched |
| `Snapshots.ByNameHolds` | pkg/discoveryservice/xdss/v3/snapshot.go:51-64 | indexing by name keeps a message if and only if no later one has its name |
| `Snapshots.RepresentsServes` | pkg/reconcilers/marin3r/envoyconfigrevision/cache.go:74-243 | the same from the definitions: through loading, partition by type and indexing, what the last definition of a type and name loads to, and nothing else |
| `Snapshots.SecretContents` | pkg/reconcilers/marin3r/envoyconfigrevision/cache.go:160-200 | a TLS secret gives its key and certificate each in its place, or the certificate alone for a validation context; an opaque one the value of the key asked for under its alias; one of another kind is an error that may pass |
| `Snapshots.OtherContents` | pkg/reconcilers/marin3r/envoyconfigrevision/cache.go:89-158 | generated endpoints are what discovery finds, every other resource what the decoder makes of its text |
| `Revisions.ComparatorIsOrder` | pkg/reconcilers/marin3r/envoyconfig/revisions/sort.go:18-45 | a strict weak order on revisions of different versions |
| `Revisions.SinkInPlace` | pkg/reconcilers/marin3r/envoyconfig/revisions/sort.go:18-45 | one pass of the in-place sort puts the next element in its place |
| `Revisions.SortByPublication` | pkg/reconcilers/marin3r/envoyconfig/revisions/sort.go:14-48 | the sorted copy; with the next row, the one stable ordering |
| `Revisions.SortedIsTheStableSort` | pkg/reconcilers/marin3r/envoyconfig/revisions/sort.go:14-48 | a list is the result if and only if it is a permutation of the input in stable order |
| `Revisions.DesiredSortsLast` | pkg/reconcilers/marin3r/envoyconfig/revisions/sort.go:22-27 | the desired revision comes last |
| `Revisions.GetVersionToPublish` | pkg/reconcilers/marin3r/envoyconfig/reconcile_revisions.go:176-200 | the last untainted version; failed exactly when all are tainted, in sync exactly when it is the last |
| `Revisions.SelectionIsTop` | pkg/reconcilers/marin3r/envoyconfig/reconcile_revisions.go:132-134 | what is selected from the sorted list is the untainted revision all other untainted ones come before, list order deciding ties |
| `Reconciler.ApiServer.Send` | pkg/reconcilers/marin3r/envoyconfig/reconcile_revisions.go:142-167 | a write takes effect whole or not at all; a stale copy conflicts |
| `Reconciler.RevisionReconciler.CountMatches` | pkg/reconcilers/marin3r/envoyconfig/revisions/crud.go:36-57 | none, one or many revisions of the desired version |
| `Reconciler.RevisionReconciler.IsRevisionPublishedConditionReconciled` | pkg/reconcilers/marin3r/envoyconfig/reconcile_revisions.go:206-232 | the revision to publish and those to unpublish, in list order |
| `Reconciler.RevisionReconciler.IsRevisionRetentionReconciled` | pkg/reconcilers/marin3r/envoyconfig/reconcile_revisions.go:236-255 | the lowest revisions over the limit, popped in order, and what is kept |
| `Reconciler.RevisionReconciler.SendAll` | pkg/reconcilers/marin3r/envoyconfig/reconcile_revisions.go:142-167 | writes go out in order and stop at the first that fails; each intermediate state is the previous one with one write applied |
| `Reconciler.RevisionReconciler.PublishSelected` | pkg/reconcilers/marin3r/envoyconfig/reconcile_revisions.go:132-158 | unpublications come before the publication; the reported version and state are those of the selection |
| `Reconciler.RevisionReconciler.Rollout` | pkg/reconcilers/marin3r/envoyconfig/reconcile_revisions.go:132-167 | deletions come last, and only after all other writes went through |
| `Reconciler.RevisionReconciler.Reconcile` | pkg/reconcilers/marin3r/envoyconfig/reconcile_revisions.go:104-171 | whatever fails, the stored states are those of a prefix of the plan; success means the whole plan; a missing revision is created, with the spec's resources, the present as creation time and no publication or taint, and nothing else is written |
| `Reconciler.PublishedConditionOnly` | pkg/reconcilers/marin3r/envoyconfig/reconcile_revisions.go:142-158 | publishing and unpublishing change the published condition and nothing else |
| `RevisionController.CalculateRevisionTaintedCondition` | pkg/reconcilers/marin3r/envoyconfigrevision/status.go:106-125 | true exactly when for some of the eight types every subscriber rejects the served version |
| `RevisionController.ReconcileConditions` | pkg/reconcilers/marin3r/envoyconfigrevision/status.go:36-56 | taint only added, in-sync condition set or removed with publication; reports whether anything changed |
| `RevisionController.IsStatusReconciled` | pkg/reconcilers/marin3r/envoyconfigrevision/status.go:20-78 | the new status, and true exactly when it is the old one; the time of publication is recorded exactly when the published condition is true and the flag was not yet set |
| `RevisionController.StatusMeaning` | pkg/reconcilers/marin3r/envoyconfigrevision/status.go:20-78 | field by field: versions served, taint for rejection only, in-sync condition true or false with the cache and gone when unpublished, other conditions as they were, flags as their conditions, time of publication |
| `RevisionController.StatusIsFixpoint` | pkg/reconcilers/marin3r/envoyconfigrevision/status.go:20-78 | a second run changes nothing, and the published and tainted fields agree with their conditions |
| `RevisionController.RevisionReconciler.LoadResources` | controllers/marin3r/envoyconfigrevision_controller.go:93-126 | a published revision is loaded into the cache; a wrong spec taints it, anything else that fails ends the reconcile; other nodes keep their snapshots |
| `RevisionController.RevisionReconciler.Reconcile` | controllers/marin3r/envoyconfigrevision_controller.go:93-141 | the stored revision after loading, tainting and status update, each of which may fail, with the cache as the loading left it and other nodes untouched; a reconcile that reaches the status of a revision newly published records the time, every other leaves it |
| `RevisionController.RevisionReconciler.CleanupLogic` | pkg/reconcilers/marin3r/envoyconfigrevision/finalize.go:12-19 | a published revision takes its node's statistics and snapshot along, another takes nothing |
| `RevisionController.ReconcileEvolves` | controllers/marin3r/envoyconfigrevision_controller.go:93-163 | a reconcile neither publishes nor unpublishes, never removes a taint, taints only a published revision, and moves the sort time only of a published one and only to the present |
| `RevisionController.PublicationRecorded` | pkg/reconcilers/marin3r/envoyconfigrevision/status.go:58-62 | a revision newly published sorts by the present once its status update goes through; every other reconcile leaves the time it sorts by |
| `RevisionController.TaintSelfMeaning` | controllers/marin3r/envoyconfigrevision_controller.go:143-163 | tainted for failing to load and otherwise as it was; one already tainted is left alone |
| `RevisionController.NewTaintHasCause` | controllers/marin3r/envoyconfigrevision_controller.go:109-133 | a new taint comes from a wrong spec or from rejection by every subscriber |
| `RevisionController.LoadFailureTaints` | controllers/marin3r/envoyconfigrevision_controller.go:109-126 | a failed load leaves the cache and taints exactly when the first failing resource is a wrong spec; an unreadable secret never does |
| `RevisionController.TaintIsDeserved` | pkg/reconcilers/marin3r/envoyconfigrevision/status.go:29-42 | the two causes spelled out against the event history and the snapshot in the cache |
| `Healing.SubscribedIffAsked` | pkg/discoveryservice/xdss/stats/stats.go:83-104 | if request keys that contain node and type are their own, the subscribed pods are exactly those that asked since they were cleared |
| `Healing.FractionIff` | pkg/discoveryservice/xdss/stats/stats.go:106-121 | then the failing fraction is 1 if and only if some pod asked and every pod that did rejected the version five times |
| `Healing.TaintedIff` | pkg/reconcilers/marin3r/envoyconfigrevision/status.go:29-42 | then a reconcile that loads the revision and writes its status taints it if and only if that holds for some type |
| `Healing.RejectingIsEnough` | pkg/discoveryservice/xdss/stats/stats.go:34-69 | after a restart, a request, a response and five rejections of one client are enough |
| `Protocol.PlanFits` | pkg/reconcilers/marin3r/envoyconfig/reconcile_revisions.go:104-171 | every plan unpublishes the only published revision, if another is selected, before it publishes an untainted one |
| `Protocol.SendUnpublish` | pkg/reconcilers/marin3r/envoyconfig/reconcile_revisions.go:142-148 | it goes through only on an unchanged revision and leaves none published |
| `Protocol.SendPublish` | pkg/reconcilers/marin3r/envoyconfig/reconcile_revisions.go:150-158 | it goes through only on an untainted revision while none is published |
| `Protocol.SendDelete` | pkg/reconcilers/marin3r/envoyconfig/reconcile_revisions.go:160-167 | exactly the named revision goes, into termination |
| `Protocol.SendCreate` | pkg/reconcilers/marin3r/envoyconfig/reconcile_revisions.go:110-123 | one new revision of a version not yet there, with the resources of the write, created at present, never published, and it is the only addition |
| `Protocol.ReconcileKeeps` | controllers/marin3r/envoyconfigrevision_controller.go:93-141 | one revision evolves, the others stay, and a pending write over the old copy will conflict |
| `Protocol.StepKeepsInv` | pkg/reconcilers/marin3r/envoyconfig/reconcile_revisions.go:104-171 | every step of the machine keeps the invariant |
| `Protocol.RunKeepsInv` | pkg/reconcilers/marin3r/envoyconfig/reconcile_revisions.go:104-171 | the invariant holds throughout every run, with any failures and any timestamps |
| `Protocol.StepKeepsHeld` | pkg/reconcilers/marin3r/envoyconfig/reconcile_revisions.go:160-167 | objects that are terminating share no version, UID or publication with the others |
| `Protocol.OnePublishedAlways` | docs/design/discovery-service.md:22-27 | in every run, at every moment, at most one revision the API holds is published and no two have one version |
| `Protocol.StepKeepsSound` | pkg/reconcilers/marin3r/envoyconfigrevision/status.go:58-62 | no revision ever sorts by an instant still to come |
| `Protocol.StepKeepsOrder` | pkg/reconcilers/marin3r/envoyconfig/revisions/sort.go:14-48 | every step but a creation keeps the order in which revisions are listed, which decides between equal instants |
| `NoFlapping.TopmostCarried` | pkg/reconcilers/marin3r/envoyconfig/revisions/sort.go:18-45 | the topmost revision stays so when its own timestamp is rewritten, also if others then tie with it |
| `NoFlapping.WindowStep` | pkg/reconcilers/marin3r/envoyconfig/reconcile_revisions.go:132-158 | what was published stays on top until tainted, although publishing rewrites the time it is sorted by and times may be equal |
| `NoFlapping.PublicationsNeverRepeat` | pkg/reconcilers/marin3r/envoyconfig/reconcile_revisions.go:132-158 | under one desired version, from a moment between two reconciles, publications are of pairwise different versions and no more than were untainted |
| `NoFlapping.NoRepeatsOnceIdle` | pkg/reconcilers/marin3r/envoyconfig/reconcile_revisions.go:132-158 | the same for the rest of any stretch from any such moment in it |
| `NoFlapping.StretchPublications` | pkg/reconcilers/marin3r/envoyconfig/reconcile_revisions.go:132-158 | for every stretch, also one that begins within a reconcile: only the version that reconcile publishes can repeat, once, and the bound rises by one |
| `ComingBack.TopStaysPut` | pkg/reconcilers/marin3r/envoyconfig/reconcile_revisions.go:132-158 | what is published and on top is never published anew |
| `ComingBack.OnlyThePassedReturns` | pkg/reconcilers/marin3r/envoyconfig/reconcile_revisions.go:142-158 | from a moment between two reconciles, only a version published and untainted, with an untainted one above it, can be moved off and come back |
| `ComingBack.ReturnNeeds` | pkg/reconcilers/marin3r/envoyconfig/reconcile_revisions.go:132-158 | from any moment: only such a version, or one the running plan is about to unpublish, or to publish without its being on top |
| `ComingBack.RepeatNeeds` | pkg/reconcilers/marin3r/envoyconfig/reconcile_revisions.go:132-158 | a version is published twice only if the running plan was about to publish it without its being on top |
| `Rollback.ReturnsIff` | pkg/reconcilers/marin3r/envoyconfig/reconcile_revisions.go:132-200 | in any state a version can be moved off and come back if and only if the desired revision is stored and the version is one of these three |
| `Rollback.RepeatsIff` | pkg/reconcilers/marin3r/envoyconfig/reconcile_revisions.go:132-200 | in any state a version can be published twice if and only if the desired revision is stored and the running plan leaves one behind |
| `Pruning.PruningHitsSelected` | pkg/reconcilers/marin3r/envoyconfig/reconcile_revisions.go:160-200 | the selected revision is deleted if and only if the newest ten are tainted and an older one is not |
| `Pruning.SelectedNearTop` | pkg/reconcilers/marin3r/envoyconfig/revisions/sort.go:18-45 | with an untainted, never published revision at most one below the newest, the selection is among the newest three |
| `Pruning.StepKeepsPruneInv` | pkg/reconcilers/marin3r/envoyconfig/reconcile_revisions.go:110-167 | every step keeps such a revision whenever there are more than ten, and no deletion hits what is or will be published |
| `Pruning.FinalizersSpareTheLiveSnapshot` | pkg/reconcilers/marin3r/envoyconfigrevision/finalize.go:14-18 | in every such run no plan holds both a publication and the deletion of one version, no deletion hits a published revision, no deleted revision is published, and finalizing leaves cache and statistics alone |
| `CutShort.CutShortClearsTheCache` | pkg/reconcilers/marin3r/envoyconfig/reconcile_revisions.go:160-167 | from a fresh node, with one pruning cut short, a plan publishes and deletes one revision and its finalizer clears the cache |
| `Taint.TaintIsPermanent` | pkg/reconcilers/marin3r/envoyconfigrevision/status.go:29-42 | in every run, restarts included, a tainted object stays tainted, and if unpublished stays unpublished |
| `Taint.PublishedAreUntainted` | pkg/reconcilers/marin3r/envoyconfig/reconcile_revisions.go:183-189 | no accepted publication is of an object tainted at any earlier moment |
| `Taint.EveryTaintIsDeserved` | controllers/marin3r/envoyconfigrevision_controller.go:105-133 | in every run a revision becomes tainted only by its own reconcile while published, for a wrong spec or for five rejections of the version in the cache, for some type, by every pod that asked for the type |
| `LastServed.RecordedSortsHighest` | pkg/reconcilers/marin3r/envoyconfig/revisions/sort.go:18-45 | in every run, from the moment a publication is recorded, a revision of that time that has not been published since sorts no later than the recorded one |
| `LastServed.RollsBackToLastServed` | docs/design/discovery-service.md:24-33 | if the desired revision is tainted and the other untainted ones were there, sorted earlier, when the last publication was recorded, that revision is the one selected |
| `Delivery.RevisionsHoldTheSpec` | pkg/reconcilers/marin3r/envoyconfig/reconcile_revisions.go:259-277 | in every run whose edits give each version one list of resources, every revision the API holds has the resources of its version |
| `Delivery.CacheServesTheSpec` | pkg/reconcilers/marin3r/envoyconfigrevision/cache.go:43-72 | then a reconcile that loads the desired revision leaves in the cache, name by name, exactly what the resources of the spec load to |
| `Writes.EveryWriteKeepsOnePublished` | pkg/reconcilers/marin3r/envoyconfig/reconcile_revisions.go:107-167 | at each write of a reconcile, stopped anywhere, at most one revision is published and versions are distinct, deleted revisions included |
| `Writes.CompletedPublishesSelected` | pkg/reconcilers/marin3r/envoyconfig/reconcile_revisions.go:132-167 | a completed reconcile leaves exactly the selected version published |
| `Writes.CompletedKeepsNewestTen` | pkg/reconcilers/marin3r/envoyconfig/reconcile_revisions.go:160-167 | a completed reconcile leaves ten revisions, or all if there were fewer, and every one it deleted comes in the order before every one it kept |
| `ConfigStatus.StatusIsFixpoint` | pkg/reconcilers/marin3r/envoyconfig/status.go:13-94 | one run makes the status agree, a second changes nothing, a status is left alone exactly when it agrees, and other conditions are untouched |
| `ConfigStatus.StatusReasons` | pkg/reconcilers/marin3r/envoyconfig/status.go:43-91 | the reason given for each of the two conditions when it has to be turned, and that it is left alone otherwise, but for a missing message |
| `ConfigStatus.EnvoyConfig.IsStatusReconciled` | pkg/reconcilers/marin3r/envoyconfig/status.go:13-94 | the new status, and true exactly when the old one agreed |
| `ConfigStatus.EnvoyConfig.ReconcileConditions` | pkg/reconcilers/marin3r/envoyconfig/status.go:43-91 | conditions are turned only when their truth is wrong, and a missing message is filled in |
| `ConfigStatus.EnvoyConfig.GenerateRevisionList` | pkg/reconcilers/marin3r/envoyconfig/status.go:96-113 | one reference per revision, with its name and UID, in list order |
| `ConfigStatus.StatusIsTruthful` | pkg/reconcilers/marin3r/envoyconfig/status.go:23-83 | in sync, published equals desired and no out-of-sync condition are one; rollback failed, all tainted and its condition are one and mean that nothing is published; otherwise the greatest untainted version is; the references are to the revisions left behind, in sorted order |
| `ConfigStatus.EnvoyConfigReconciler.Reconcile` | controllers/marin3r/envoyconfig_controller.go:69-88 | end to end: one published at every write, a truthful status and at most ten revisions on success, the old status otherwise; a requeue adds the one revision of the desired version with the spec's resources |
| `Certificates.IssuedMeaning` | pkg/util/pki/generate.go:32-33 | what is issued is the one certificate in whole seconds that begins within the present second and lasts as long as asked; it is valid at once unless asked to last no time |
| `Certificates.CertificateReconciler.Reconcile` | pkg/reconcilers/operator/discoveryservicecertificate/reconcile_certificate.go:83-164 | with renewal, reissued if and only if missing, invalid, untrusted or with less than a fifth of its duration left; otherwise the schedule points at the instant a fifth is left, or one second past expiry without renewal; errors change nothing |
| `Certificates.Reconcile` | controllers/operator.marin3r/discoveryservicecertificate_controller.go:56-76 | the stored certificate and the wake-up asked for; for a valid trusted one by the fifth of its duration |
| `Certificates.RenewedInLastFifth` | pkg/reconcilers/operator/discoveryservicecertificate/reconcile_certificate.go:121-141 | a valid trusted certificate is reissued if and only if less than a fifth of its duration is left; otherwise it stays, and the wake-up asked for is when that begins |
| `Certificates.ScheduleStopsAtBoundary` | controllers/operator.marin3r/discoveryservicecertificate_controller.go:72-75 | schedules are not negative; no wake-up is asked for exactly when the visit falls on the first instant of the window |
| `Certificates.WithoutRenewal` | pkg/reconcilers/operator/discoveryservicecertificate/reconcile_certificate.go:142-151 | never replaced, and the wake-up asked for finds it expired |
| `Certificates.VisitCovers` | pkg/reconcilers/operator/discoveryservicecertificate/reconcile_certificate.go:121-140 | after a visit the certificate outlives the latest possible next visit |
| `Certificates.AlwaysUnexpired` | pkg/reconcilers/operator/discoveryservicecertificate/reconcile_certificate.go:121-154 | valid at every instant from the first visit on, and reissued exactly by visits after the boundary |
| `Certificates.NeverReplacedEarly` | pkg/reconcilers/operator/discoveryservicecertificate/reconcile_certificate.go:121-141 | in every timely run no trusted certificate is replaced before four fifths of its duration are over |
| `Certificates.BoundaryVisitLosesIt` | controllers/operator.marin3r/discoveryservicecertificate_controller.go:72-75 | a visit on the boundary asks for no other, and the certificate expires |
| `Certificates.OneSecondIsTooShort` | pkg/util/pki/generate.go:32-33 | with a validity of one second the rounding down alone can expire it within the latency |

## Left out

- Fields of conditions beyond status, reason and message, their order and duplicates; conditions are a map by type.
- Messages as texts: a message is the fixed one of its reason, one of its own, or none.
- Wrap-around of 64-bit counters and timestamps, and saturation of 64-bit durations.
- Rounding of the renewal window in floating point: durations of encoded certificates are whole seconds, for which a fifth is exact.
- Nil and false of the optional status flags are one value; the absent status list and conditions of an EnvoyConfig are kept apart from empty ones.
- Sharing of Go slices and pointers between a listed revision and its copies; revisions and snapshots are values.
- The eight resource slices are one map of lists; type URLs are a parameter; `SetSnapshot` does not fail.
- Protobuf decoding, secrets and endpoint slices are parameters; only their results matter here.
- Ten-second nonce expiry: any nonce may expire at any moment, which covers it.
- Backoff and jitter of the stream callbacks, the finalizer's registration, defaulting, and conversion of the old resource format.
- Deletion of an EnvoyConfig, and two of them on one node.
- Several clock readings within one certificate reconcile count as one instant; chain verification is its verdict and the validity period.
- Certificate hash and the certificate's status record: copying only.
- Deployments, services, webhooks, the sidecar injector and the shutdown manager.
- Pruning.StepKeepsPruneInv: does not cover a reconcile cut short among its deletions, since the claim is then false (`CutShort.CutShortClearsTheCache`).
- ConfigStatus.EnvoyConfigReconciler.Reconcile: is stated for revisions as every run keeps them (different versions, none empty, at most one published).

/**
 The EnvoyConfigRevision controller: publishing a revision's resources, tainting
 it and keeping its status (controllers/marin3r/envoyconfigrevision_controller.go,
 pkg/reconcilers/marin3r/envoyconfigrevision/status.go).
 */
module RevisionController {
  import opened Wrappers
  import opened Strings
  import opened StatKeys
  import opened Stats
  import opened StatRuns
  import opened Snapshots
  import opened Revisions

  type VersionTracker = map<ResourceType, string>

  const FAILING := Condition(true, ResourcesFailing, Standard)
  const NOT_LOADED := Condition(true, FailedLoadingResources, Standard)
  const SYNCED := Condition(true, ResourcesSynced, Standard)
  const NO_SNAPSHOT := Condition(false, SnapshotDoesNotExist, Standard)

  function ServedVersion(vt: VersionTracker, t: ResourceType): (v: string) {
    if t in vt then vt[t] else ""
  }

  ghost predicate TypeRejected(st: Store, urls: Urls, node: string, vt: VersionTracker, t: ResourceType) {
    Fraction(st, node, urls(t), ServedVersion(vt, t)) == 1.0
  }

  /** Some type's served version is rejected by every client that subscribes to the type. */
  ghost predicate Rejected(st: Store, urls: Urls, node: string, vt: VersionTracker) {
    exists t :: Served(t) && TypeRejected(st, urls, node, vt, t)
  }

  method IsTypeRejected(stats: StatsCache, urls: Urls, node: string, vt: VersionTracker, t: ResourceType)
    returns (rejected: bool)
    requires stats.Valid()
    ensures rejected <==> TypeRejected(stats.store, urls, node, vt, t)
  {
    var failing := stats.GetPercentageFailing(node, urls(t), ServedVersion(vt, t));
    return failing == 1.0;
  }

  method CalculateRevisionTaintedCondition(stats: StatsCache, urls: Urls, node: string, vt: VersionTracker)
    returns (tainted: bool)
    requires stats.Valid()
    ensures tainted <==> Rejected(stats.store, urls, node, vt)
  {
    for i := 0 to |SERVED|
      invariant forall j :: 0 <= j < i ==> !TypeRejected(stats.store, urls, node, vt, SERVED[j])
    {
      var t := SERVED[i];
      tainted := IsTypeRejected(stats, urls, node, vt, t);
      if tainted {
        assert Served(t);
        return;
      }
    }
    forall t | Served(t) ensures !TypeRejected(stats.store, urls, node, vt, t) {
      EveryTypeListed(t);
    }
    return false;
  }

  /** `ConditionsEqual`: the comparison ignores the status. */
  predicate AlreadySet(cs: Conditions, t: ConditionType, c: Condition) {
    t in cs && cs[t].reason == c.reason && cs[t].message == c.message
  }

  function SetUnlessEqual(cs: Conditions, t: ConditionType, c: Condition): (r: Conditions) {
    if AlreadySet(cs, t, c) then cs else cs[t := c]
  }

  function SyncCondition(cached: bool): (c: Condition) {
    if cached then SYNCED else NO_SNAPSHOT
  }

  /** The conditions once rejections and the state of the cache are taken into account. */
  function NewConditions(cs: Conditions, rejected: bool, cached: bool): (r: Conditions) {
    var tainting := if rejected then SetUnlessEqual(cs, RevisionTainted, FAILING) else cs;
    if IsTrue(tainting, RevisionPublished) then SetUnlessEqual(tainting, ResourcesInSync, SyncCondition(cached))
    else tainting - {ResourcesInSync}
  }

  /** The status a revision is brought to; without a version tracker nothing is learned about rejections. */
  function NewStatus(r: Revision, vt: Option<VersionTracker>, rejected: bool, cached: bool, now: nat): (n: Revision) {
    var cs := NewConditions(r.conditions, vt.Some? && rejected, cached);
    WithFlags(r.(serves := if vt.Some? then vt else r.serves, conditions := cs), now)
  }

  /** The two flags follow their conditions; turning published records when. */
  function WithFlags(r: Revision, now: nat): (n: Revision) {
    r.(lastPublishedAt := if Published(r) && !r.published then Some(now) else r.lastPublishedAt,
       published := Published(r), tainted := Tainted(r))
  }

  /** A second run with the same inputs changes nothing, and the two flags agree with their conditions. */
  lemma StatusIsFixpoint(r: Revision, vt: Option<VersionTracker>, rejected: bool, cached: bool, now: nat, later: nat)
    ensures var n := NewStatus(r, vt, rejected, cached, now);
            && NewStatus(n, vt, rejected, cached, later) == n
            && n.published == Published(n) && n.tainted == Tainted(n)
  {
  }

  /** The condition is as it was, there or not. */
  ghost predicate SameCondition(cs: Conditions, ds: Conditions, t: ConditionType) {
    (t in cs <==> t in ds) && (t in cs ==> cs[t] == ds[t])
  }

  /** A condition with this reason and its fixed message is there already; its status is not looked at. */
  ghost predicate Stands(cs: Conditions, t: ConditionType, reason: Reason) {
    t in cs && cs[t].reason == reason && cs[t].message == Standard
  }

  /** What a status is brought to, field by field. */
  lemma StatusMeaning(r: Revision, vt: Option<VersionTracker>, rejected: bool, cached: bool, now: nat)
    ensures var n := NewStatus(r, vt, rejected, cached, now);
            var synced := if cached then ResourcesSynced else SnapshotDoesNotExist;
            && (if vt.Some? then n.serves == vt else n.serves == r.serves)
            && (vt.Some? && rejected && !Stands(r.conditions, RevisionTainted, ResourcesFailing) ==>
                  n.conditions.Items >= {(RevisionTainted, Condition(true, ResourcesFailing, Standard))})
            && (!(vt.Some? && rejected) ==> SameCondition(r.conditions, n.conditions, RevisionTainted))
            && (!Published(r) ==> ResourcesInSync !in n.conditions)
            && (Published(r) ==> Stands(n.conditions, ResourcesInSync, synced))
            && (Published(r) && !Stands(r.conditions, ResourcesInSync, synced) ==>
                  n.conditions[ResourcesInSync].status == cached)
            && (forall t :: t != RevisionTainted && t != ResourcesInSync ==>
                      SameCondition(r.conditions, n.conditions, t))
            && n.published == Published(r) && n.tainted == Tainted(n)
            && (Published(r) && !r.published ==> n.lastPublishedAt == Some(now))
            && (!(Published(r) && !r.published) ==> n.lastPublishedAt == r.lastPublishedAt)
            && (n.uid, n.version, n.resources, n.createdAt) == (r.uid, r.version, r.resources, r.createdAt)
  {
    var n := NewStatus(r, vt, rejected, cached, now);
    if vt.Some? && rejected && !Stands(r.conditions, RevisionTainted, ResourcesFailing) {
      assert n.conditions[RevisionTainted] == Condition(true, ResourcesFailing, Standard);
    }
  }

  /** Brings the tainted and in-sync conditions up to date. */
  method ReconcileConditions(cs: Conditions, rejected: bool, cached: bool) returns (out: Conditions, ok: bool)
    ensures out == NewConditions(cs, rejected, cached) && (ok <==> out == cs)
    ensures IsTrue(out, RevisionPublished) <==> IsTrue(cs, RevisionPublished)
  {
    out, ok := cs, true;
    if rejected && !AlreadySet(out, RevisionTainted, FAILING) {
      out := out[RevisionTainted := FAILING];
      ok := false;
      assert !AlreadySet(cs, RevisionTainted, FAILING) && AlreadySet(out, RevisionTainted, FAILING);
    }
    ghost var tainting := out;
    if IsTrue(out, RevisionPublished) {
      var c := SyncCondition(cached);
      if !AlreadySet(out, ResourcesInSync, c) {
        out := out[ResourcesInSync := c];
        ok := false;
        assert !AlreadySet(cs, ResourcesInSync, c) && AlreadySet(out, ResourcesInSync, c);
      }
    } else if ResourcesInSync in out {
      out := out - {ResourcesInSync};
      ok := false;
      assert ResourcesInSync in cs && ResourcesInSync !in out;
    } else {
      assert out - {ResourcesInSync} == out;
    }
  }

  /** Works on the status step by step and reports whether anything had to change. */
  method IsStatusReconciled(ecr: Revision, vt: Option<VersionTracker>, cached: bool, stats: StatsCache, urls: Urls,
                            node: string, now: nat)
    returns (out: Revision, ok: bool)
    requires stats.Valid()
    ensures out == NewStatus(ecr, vt, vt.Some? && Rejected(stats.store, urls, node, vt.value), cached, now)
    ensures ok <==> out == ecr
    ensures Published(ecr) && !ecr.published ==> out.published && out.lastPublishedAt == Some(now)
    ensures !(Published(ecr) && !ecr.published) ==> out.lastPublishedAt == ecr.lastPublishedAt
  {
    out, ok := ecr, true;
    var rejected := false;
    if vt.Some? {
      if out.serves != vt {
        out := out.(serves := vt);
        ok := false;
      }
      rejected := CalculateRevisionTaintedCondition(stats, urls, node, vt.value);
    }
    var conditions, same := ReconcileConditions(out.conditions, rejected, cached);
    if !same {
      out := out.(conditions := conditions);
      ok := false;
    }
    assert out == ecr.(serves := if vt.Some? then vt else ecr.serves, conditions := conditions) && (ok <==> out == ecr);
    assert Published(out) <==> Published(ecr);
    out, same := ReconcileFlags(out, now);
    ok := ok && same;
  }

  method ReconcileFlags(ecr: Revision, now: nat) returns (out: Revision, ok: bool)
    ensures out == WithFlags(ecr, now) && (ok <==> out == ecr)
    ensures out.serves == ecr.serves && out.conditions == ecr.conditions
  {
    out, ok := ecr, true;
    if Published(out) && !out.published {
      out := out.(published := true, lastPublishedAt := Some(now));
      ok := false;
    } else if !Published(out) && out.published {
      out := out.(published := false);
      ok := false;
    }
    if Tainted(out) && !out.tainted {
      out := out.(tainted := true);
      ok := false;
    } else if !Tainted(out) && out.tainted {
      out := out.(tainted := false);
      ok := false;
    }
  }

  // ---------------------------------------------------------------------
  // One reconcile of a revision

  /** What happened to the resources: `Bad` marks a wrong spec, `Unavailable` anything that may pass. */
  datatype Loading = NotPublished | Loaded(vt: VersionTracker) | Bad | Unavailable

  /** The outcome agrees with the definitions, and the cache with the outcome. */
  ghost predicate LoadingFits(hash: Hasher, w: World, r: Revision, load: Loading, before: Option<Snapshot>,
                              cache: Option<Snapshot>) {
    match load
    case NotPublished => !Published(r) && cache == before
    case Bad => Published(r) && FirstFailure(w, r.resources, Invalid) && cache == before
    case Unavailable => Published(r) && FirstFailure(w, r.resources, Transient) && cache == before
    case Loaded(vt) =>
      && Published(r) && cache.Some? && Versioned(hash, cache.value) && Represents(w, r.resources, cache.value)
      && (forall t :: Served(t) ==> ServedVersion(vt, t) == GetVersion(cache.value, t))
      && (forall i :: 0 <= i < |r.resources| ==> !Fails(w, r.resources[i]))
  }

  function TaintSelf(r: Revision): (t: Revision) {
    if Tainted(r) then r
    else r.(conditions := r.conditions[RevisionTainted := NOT_LOADED], tainted := true,
            resourceVersion := r.resourceVersion + 1)
  }

  ghost function StatusWritten(r: Revision, vt: Option<VersionTracker>, urls: Urls, node: string, cached: bool,
                               st: Store, now: nat, updateOk: bool): (n: Revision) {
    var n := NewStatus(r, vt, vt.Some? && Rejected(st, urls, node, vt.value), cached, now);
    if n == r || !updateOk then r else n.(resourceVersion := r.resourceVersion + 1)
  }

  /** The stored revision after a reconcile; the patch and the status update may each fail. */
  ghost function RevisionAfter(r: Revision, load: Loading, urls: Urls, node: string, cached: bool, st: Store, now: nat,
                               patchOk: bool, updateOk: bool): (n: Revision) {
    match load
    case Unavailable => r
    case Bad =>
      if !Tainted(r) && !patchOk then r else StatusWritten(TaintSelf(r), None, urls, node, cached, st, now, updateOk)
    case NotPublished => StatusWritten(r, None, urls, node, cached, st, now, updateOk)
    case Loaded(vt) => StatusWritten(r, Some(vt), urls, node, cached, st, now, updateOk)
  }

  class RevisionReconciler {
    const cache: CacheReconciler
    const stats: StatsCache
    const urls: Urls

    constructor (cache: CacheReconciler, stats: StatsCache, urls: Urls)
      ensures this.cache == cache && this.stats == stats && this.urls == urls
    {
      this.cache, this.stats, this.urls := cache, stats, urls;
    }

    ghost function Cached(node: string): (s: Option<Snapshot>)
      reads cache
    {
      if node in cache.snapshots then Some(cache.snapshots[node]) else None
    }

    /** Publishes the resources of a published revision, and taints it if they are wrong. `go` says whether the
        reconcile goes on to the status. */
    method LoadResources(ecr: Revision, node: string, patchOk: bool)
      returns (out: Revision, vt: Option<VersionTracker>, go: bool, ghost load: Loading)
      requires cache.Valid() && Injective(cache.hash)
      modifies cache
      ensures cache.Valid()
      ensures LoadingFits(cache.hash, cache.world, ecr, load, old(Cached(node)), Cached(node))
      ensures forall n :: n != node ==> Cached(n) == old(Cached(n))
      ensures out == if load.Bad? && go then TaintSelf(ecr) else ecr
      ensures vt == if load.Loaded? then Some(load.vt) else None
      ensures !go <==> load.Unavailable? || (load.Bad? && !Tainted(ecr) && !patchOk)
    {
      out, vt, go, load := ecr, None, true, NotPublished;
      if Published(ecr) {
        var loaded := cache.Reconcile(ecr.resources, node);
        match loaded
        case Ok(served) =>
          vt, load := Some(served), Loaded(served);
        case Err(Invalid) =>
          load := Bad;
          if !Tainted(ecr) {
            if !patchOk {
              return ecr, None, false, load;
            }
            out := TaintSelf(ecr);
          }
        case Err(Transient) =>
          return ecr, None, false, Unavailable;
      }
    }

    method Reconcile(ecr: Revision, node: string, now: nat, patchOk: bool, updateOk: bool)
      returns (out: Revision, ghost load: Loading)
      requires cache.Valid() && stats.Valid() && Injective(cache.hash)
      modifies cache
      ensures cache.Valid()
      ensures LoadingFits(cache.hash, cache.world, ecr, load, old(Cached(node)), Cached(node))
      ensures forall n :: n != node ==> Cached(n) == old(Cached(n))
      ensures out == RevisionAfter(ecr, load, urls, node, Cached(node).Some?, stats.store, now, patchOk, updateOk)
      ensures ReachesStatus(ecr, load, patchOk) && updateOk && Published(ecr) && !ecr.published ==>
                out.published && out.lastPublishedAt == Some(now)
      ensures !(ReachesStatus(ecr, load, patchOk) && updateOk && Published(ecr) && !ecr.published) ==>
                out.lastPublishedAt == ecr.lastPublishedAt
    {
      var vt, go;
      out, vt, go, load := LoadResources(ecr, node, patchOk);
      if !go {
        return;
      }
      var cached := node in cache.snapshots;
      var status, ok := IsStatusReconciled(out, vt, cached, stats, urls, node, now);
      if !ok && updateOk {
        out := status.(resourceVersion := out.resourceVersion + 1);
      }
    }

    /** Finalization of a deleted revision: only a published one takes its node's statistics and snapshot along. */
    method CleanupLogic(ecr: Revision, node: string)
      requires cache.Valid() && stats.Valid()
      modifies cache, stats
      ensures cache.Valid() && stats.Valid()
      ensures Cached(node) == if Published(ecr) then None else old(Cached(node))
      ensures forall n :: n != node ==> Cached(n) == old(Cached(n))
      ensures stats.store == if Published(ecr) then After(old(stats.store), Clear(node)) else old(stats.store)
    {
      if Published(ecr) {
        stats.DeleteKeysByFilter(node);
        cache.snapshots := cache.snapshots - {node};
      }
    }
  }

  // ---------------------------------------------------------------------
  // What a reconcile can and cannot do to a revision

  /** Published stays, taint is never taken back and only comes to a published revision, and the sort time
      moves only to the present and only for a published one. */
  ghost predicate Evolves(r: Revision, n: Revision, now: nat) {
    && n.uid == r.uid && n.version == r.version && n.createdAt == r.createdAt && n.resources == r.resources
    && Published(n) == Published(r)
    && (Tainted(r) ==> Tainted(n))
    && (Tainted(n) && !Tainted(r) ==> Published(r))
    && (n.lastPublishedAt != r.lastPublishedAt ==> Published(r) && n.lastPublishedAt == Some(now))
    && n.resourceVersion >= r.resourceVersion
    && (n != r ==> n.resourceVersion > r.resourceVersion)
  }

  lemma StatusEvolves(r: Revision, vt: Option<VersionTracker>, urls: Urls, node: string, cached: bool, st: Store,
                      now: nat, updateOk: bool)
    requires vt.None? || Published(r)
    ensures Evolves(r, StatusWritten(r, vt, urls, node, cached, st, now, updateOk), now)
  {
  }

  lemma ReconcileEvolves(r: Revision, load: Loading, urls: Urls, node: string, cached: bool, st: Store, now: nat,
                         patchOk: bool, updateOk: bool)
    requires load.NotPublished? || Published(r)
    ensures Evolves(r, RevisionAfter(r, load, urls, node, cached, st, now, patchOk, updateOk), now)
  {
    match load
    case Unavailable =>
    case Bad => StatusEvolves(TaintSelf(r), None, urls, node, cached, st, now, updateOk);
    case NotPublished => StatusEvolves(r, None, urls, node, cached, st, now, updateOk);
    case Loaded(vt) => StatusEvolves(r, Some(vt), urls, node, cached, st, now, updateOk);
  }

  /** A reconcile gets as far as the status unless its resources were unavailable or the taint could not be written. */
  predicate ReachesStatus(r: Revision, load: Loading, patchOk: bool) {
    !load.Unavailable? && (load.Bad? ==> Tainted(r) || patchOk)
  }

  /**
   The time of publication: the first reconcile of a published revision whose status update goes through records
   the present, and the revision sorts by it from then on; every other reconcile leaves it alone.
   */
  lemma PublicationRecorded(r: Revision, load: Loading, urls: Urls, node: string, cached: bool, st: Store, now: nat,
                            patchOk: bool, updateOk: bool)
    ensures var n := RevisionAfter(r, load, urls, node, cached, st, now, patchOk, updateOk);
            var records := ReachesStatus(r, load, patchOk) && updateOk && Published(r) && !r.published;
            && (records ==> n.lastPublishedAt == Some(now) && SortTime(n) == now && n.published)
            && (!records ==> n.lastPublishedAt == r.lastPublishedAt && SortTime(n) == SortTime(r))
  {
  }

  /** A revision whose spec is wrong: tainted for that reason, and otherwise as it was. */
  lemma TaintSelfMeaning(r: Revision)
    ensures var t := TaintSelf(r);
            && Tainted(t) && (Tainted(r) ==> t == r)
            && (!Tainted(r) ==>
                  && t.tainted && t.conditions[RevisionTainted].reason == FailedLoadingResources
                  && t.resourceVersion == r.resourceVersion + 1)
            && (forall c :: c != RevisionTainted ==> SameCondition(r.conditions, t.conditions, c))
            && (t.uid, t.version, t.resources, t.createdAt) == (r.uid, r.version, r.resources, r.createdAt)
            && (t.lastPublishedAt, t.published, t.serves) == (r.lastPublishedAt, r.published, r.serves)
  {
  }

  /** A revision that becomes tainted either holds a wrong definition or is rejected by every subscriber. */
  lemma NewTaintHasCause(r: Revision, load: Loading, urls: Urls, node: string, cached: bool, st: Store, now: nat,
                         patchOk: bool, updateOk: bool)
    requires load.NotPublished? || Published(r)
    requires !Tainted(r) && Tainted(RevisionAfter(r, load, urls, node, cached, st, now, patchOk, updateOk))
    ensures load.Bad? || (load.Loaded? && Rejected(st, urls, node, load.vt))
  {
  }

  /** A definition that no retry can load: undecodable, a secret without a source, or a listing error of the
      very kind that marks a wrong spec. */
  predicate WrongSpec(w: World, def: Resource) {
    if def.rtype == Secret then def.tlsSecret.None? && def.opaqueSecret.None?
    else if def.rtype == Endpoint && def.slices.Some? then w.discover(def.slices.value) == Err(Invalid)
    else Served(def.rtype) && w.decode(def.rtype, def.raw).None?
  }

  /** When a definition fails to load, the cache stays, and the revision is tainted exactly when the first one
      that fails is a wrong spec: an unreadable secret never taints. */
  lemma LoadFailureTaints(hash: Hasher, urls: Urls, w: World, r: Revision, load: Loading, before: Option<Snapshot>,
                          cache: Option<Snapshot>, node: string, st: Store, now: nat, updateOk: bool, i: nat)
    requires LoadingFits(hash, w, r, load, before, cache) && Published(r) && !Tainted(r)
    requires i < |r.resources| && Fails(w, r.resources[i]) && forall j :: 0 <= j < i ==> !Fails(w, r.resources[j])
    ensures cache == before
    ensures Tainted(RevisionAfter(r, load, urls, node, cache.Some?, st, now, true, updateOk)) <==>
              WrongSpec(w, r.resources[i])
  {
  }

  /** Type URLs and version hashes hold no colon, and no hash is the aggregate's name. */
  ghost predicate CleanNames(hash: Hasher, urls: Urls) {
    (forall m :: ColonFree(hash(m)) && hash(m) != AGGREGATE) && (forall t :: ColonFree(urls(t)))
  }

  /** Every pod that asked for the type rejected this version at least five times, and some pod did. */
  ghost predicate RejectedByAll(es: seq<Event>, node: string, rtype: string, version: string) {
    && (exists pod :: Charged(es, Key(node, rtype, version, pod, NACKS)) >= 5)
    && (forall pod :: Asked(es, node, rtype, pod) ==> Charged(es, Key(node, rtype, version, pod, NACKS)) >= 5)
  }

  /** A wrong spec, or some type whose version in the cache is rejected by every pod that asked for the type. */
  ghost predicate Deserved(es: seq<Event>, urls: Urls, w: World, r: Revision, node: string, cache: Option<Snapshot>) {
    || FirstFailure(w, r.resources, Invalid)
    || (cache.Some? && exists t :: Served(t) && RejectedByAll(es, node, urls(t), GetVersion(cache.value, t)))
  }

  /**
   End to end: whenever a reconcile taints a revision, either its first failing definition is wrong, or for
   some type the version now in the cache was rejected at least five times by every pod that asked for it.
   */
  lemma TaintIsDeserved(es: seq<Event>, hash: Hasher, urls: Urls, w: World, r: Revision, load: Loading,
                        before: Option<Snapshot>, cache: Option<Snapshot>, node: string, now: nat, patchOk: bool,
                        updateOk: bool)
    requires CleanRun(es) && ColonFree(node) && CleanNames(hash, urls)
    requires LoadingFits(hash, w, r, load, before, cache) && !Tainted(r)
    requires Tainted(RevisionAfter(r, load, urls, node, cache.Some?, Run(es), now, patchOk, updateOk))
    ensures Deserved(es, urls, w, r, node, cache)
  {
    NewTaintHasCause(r, load, urls, node, cache.Some?, Run(es), now, patchOk, updateOk);
    if load.Loaded? {
      var t :| Served(t) && TypeRejected(Run(es), urls, node, load.vt, t);
      TaintBackedByRejections(es, node, urls(t), GetVersion(cache.value, t));
    }
  }
}

/**
 The EnvoyConfig controller's revision reconciler: which API writes one reconcile
 makes, in which order, and what each does to the stored revisions
 (pkg/reconcilers/marin3r/envoyconfig/reconcile_revisions.go, revisions/crud.go).
 */
module Reconciler {
  import opened Wrappers
  import opened Snapshots
  import opened Revisions

  const MAX_REVISIONS := 10

  /** Status writes carry the copy that was listed, for the API to compare resource versions with. */
  datatype Write =
    | Create(version: string, resources: seq<Resource>)
    | Unpublish(seen: Revision)
    | Publish(seen: Revision)
    | Delete(version: string)

  /** The revisions of one node; deleted ones wait in `terminating` for their finalizer. `created` counts the
      objects ever created. */
  datatype Stored = Stored(revs: seq<Revision>, terminating: seq<Revision>, created: nat)

  /** Every revision the API still holds. */
  function All(c: Stored): (revs: seq<Revision>) {
    c.revs + c.terminating
  }

  /** A revision as it is created: the spec's resources, created now, never published, no condition. */
  function NewRevision(uid: nat, version: string, resources: seq<Resource>, now: nat): (r: Revision)
    ensures r.uid == uid && r.version == version && r.resources == resources && r.createdAt == now
    ensures r.lastPublishedAt.None? && !Published(r) && !Tainted(r) && !r.published && !r.tainted
  {
    Revision(uid, version, resources, now, None, map[], false, false, None, 0)
  }

  function WithoutPublished(r: Revision): (c: Revision) {
    r.(conditions := r.conditions - {RevisionPublished})
  }

  function WithPublished(r: Revision): (c: Revision) {
    r.(conditions := r.conditions[RevisionPublished := Condition(true, VersionPublished, Detail(r.version))])
  }

  /** Publishing and unpublishing change the one condition and nothing else. */
  lemma PublishedConditionOnly(r: Revision)
    ensures var p, u := WithPublished(r), WithoutPublished(r);
            && Published(p) && p.conditions[RevisionPublished] == Condition(true, VersionPublished, Detail(r.version))
            && RevisionPublished !in u.conditions
            && (forall t :: t != RevisionPublished ==> (t in p.conditions <==> t in r.conditions)
                                                       && (t in u.conditions <==> t in r.conditions))
            && (forall t :: t != RevisionPublished && t in r.conditions ==>
                  p.conditions[t] == r.conditions[t] && u.conditions[t] == r.conditions[t])
            && p.(conditions := r.conditions) == r && u.(conditions := r.conditions) == r
  {
  }

  /** The stored revision once the write that unpublishes it went through. */
  function Unpublished(r: Revision): (n: Revision) {
    WithoutPublished(r).(resourceVersion := r.resourceVersion + 1)
  }

  /** The stored revision once the write that publishes it went through. */
  function Republished(r: Revision): (n: Revision) {
    WithPublished(r).(resourceVersion := r.resourceVersion + 1)
  }

  /** A status update replaces the status if the sender saw the stored resource version. */
  function UpdateStatus(c: Stored, sent: Revision): (r: Option<Stored>) {
    var i := IndexOf(c.revs, sent.version);
    if i < 0 || c.revs[i].resourceVersion != sent.resourceVersion then None
    else
      var stored := c.revs[i];
      Some(c.(revs := c.revs[i := sent.(uid := stored.uid, resources := stored.resources, createdAt := stored.createdAt,
                                        resourceVersion := stored.resourceVersion + 1)]))
  }

  /** What the API makes of a write; `None` is a conflict, a missing or an already existing object. */
  function Apply(c: Stored, w: Write, now: nat): (r: Option<Stored>) {
    match w
    case Create(version, resources) =>
      if IndexOf(c.revs, version) >= 0 || IndexOf(c.terminating, version) >= 0 then None
      else Some(c.(revs := c.revs + [NewRevision(c.created, version, resources, now)], created := c.created + 1))
    case Unpublish(seen) => UpdateStatus(c, WithoutPublished(seen))
    case Publish(seen) => UpdateStatus(c, WithPublished(seen))
    case Delete(version) =>
      var i := IndexOf(c.revs, version);
      if i < 0 then None
      else Some(c.(revs := c.revs[..i] + c.revs[i + 1..], terminating := c.terminating + [c.revs[i]]))
  }

  // ---------------------------------------------------------------------
  // The writes of one reconcile

  function CountVersion(revs: seq<Revision>, version: string): (n: nat) {
    if revs == [] then 0
    else CountVersion(revs[..|revs| - 1], version) + (if revs[|revs| - 1].version == version then 1 else 0)
  }

  lemma {:induction false} CountOne(revs: seq<Revision>, i: nat)
    requires Distinct(revs) && i < |revs|
    ensures CountVersion(revs, revs[i].version) == 1
  {
    var init, last := revs[..|revs| - 1], revs[|revs| - 1];
    if i == |revs| - 1 {
      CountNone(init, last.version);
    } else {
      CountOne(init, i);
      assert init[i] == revs[i];
    }
  }

  lemma {:induction false} CountNone(revs: seq<Revision>, v: string)
    requires forall i :: 0 <= i < |revs| ==> revs[i].version != v
    ensures CountVersion(revs, v) == 0
  {
    if revs != [] {
      CountNone(revs[..|revs| - 1], v);
    }
  }

  function Unpublishes(list: seq<Revision>, version: string): (ws: seq<Write>) {
    if list == [] then []
    else
      var last := list[|list| - 1];
      Unpublishes(list[..|list| - 1], version)
      + (if last.version != version && Published(last) then [Unpublish(last)] else [])
  }

  function ToPublish(list: seq<Revision>, version: string): (r: Option<Revision>) {
    if list == [] then None
    else
      var last := list[|list| - 1];
      if last.version == version && !Published(last) then Some(last) else ToPublish(list[..|list| - 1], version)
  }

  function Publishes(list: seq<Revision>, version: string): (ws: seq<Write>) {
    match ToPublish(list, version) case Some(r) => [Publish(r)] case None => []
  }

  function Excess(list: seq<Revision>): (n: nat) {
    if |list| > MAX_REVISIONS then |list| - MAX_REVISIONS else 0
  }

  function Deletes(list: seq<Revision>): (ws: seq<Write>) {
    seq(Excess(list), i requires 0 <= i < Excess(list) => Delete(list[i].version))
  }

  function SelectedVersion(list: seq<Revision>): (v: string) {
    if LastUntainted(list) < 0 then "" else list[LastUntainted(list)].version
  }

  function PublishWrites(list: seq<Revision>): (ws: seq<Write>) {
    Unpublishes(list, SelectedVersion(list)) + Publishes(list, SelectedVersion(list))
  }

  function Updates(list: seq<Revision>): (ws: seq<Write>) {
    PublishWrites(list) + Deletes(list)
  }

  /** All writes a reconcile makes when nothing fails; two revisions of the desired version stop it at once. */
  function Plan(desired: string, resources: seq<Resource>, revs: seq<Revision>): (ws: seq<Write>) {
    if CountVersion(revs, desired) == 0 then [Create(desired, resources)]
    else if CountVersion(revs, desired) > 1 then []
    else Updates(Sorted(desired, revs))
  }

  ghost predicate Accepted(before: Stored, w: Write, after: Stored, now: nat) {
    Apply(before, w, now) == Some(after)
  }

  /** `trace` holds what is stored before the first write and after each of the writes sent so far. */
  ghost predicate Executes(trace: seq<Stored>, ws: seq<Write>, now: nat) {
    && 1 <= |trace| <= |ws| + 1
    && forall i :: 0 <= i < |trace| - 1 ==> Accepted(trace[i], ws[i], trace[i + 1], now)
  }

  lemma ExecutesNext(trace: seq<Stored>, ws: seq<Write>, next: Stored, now: nat)
    requires Executes(trace, ws, now) && |trace| <= |ws| && Accepted(trace[|trace| - 1], ws[|trace| - 1], next, now)
    ensures Executes(trace + [next], ws, now)
  {
  }

  /** A second batch after the whole first one. */
  lemma ExecutesJoin(t: seq<Stored>, a: seq<Write>, u: seq<Stored>, b: seq<Write>, now: nat)
    requires Executes(t, a, now) && |t| == |a| + 1 && Executes(u, b, now) && u[0] == t[|t| - 1]
    ensures Executes(t + u[1..], a + b, now)
  {
  }

  lemma ExecutesStart(t: seq<Stored>, a: seq<Write>, b: seq<Write>, now: nat)
    requires Executes(t, a, now)
    ensures Executes(t, a + b, now)
  {
  }

  // ---------------------------------------------------------------------
  // The reconciler

  class ApiServer {
    var stored: Stored
    var clock: nat
    var writesLeft: nat  // writes that still go through; the one after them fails

    constructor (stored: Stored, clock: nat, writesLeft: nat)
      ensures this.stored == stored && this.clock == clock && this.writesLeft == writesLeft
    {
      this.stored, this.clock, this.writesLeft := stored, clock, writesLeft;
    }

    method Send(w: Write) returns (ok: bool)
      modifies this
      ensures clock == old(clock)
      ensures ok <==> old(writesLeft) > 0 && Apply(old(stored), w, clock).Some?
      ensures ok ==> Accepted(old(stored), w, stored, clock)
      ensures !ok ==> stored == old(stored)
    {
      if writesLeft == 0 {
        return false;
      }
      writesLeft := writesLeft - 1;
      var applied := Apply(stored, w, clock);
      if applied.None? {
        return false;
      }
      stored := applied.value;
      return true;
    }
  }

  datatype Outcome = Requeue | Done | Failed

  class RevisionReconciler {
    const api: ApiServer
    const desired: string
    const resources: seq<Resource>
    var publishedVersion: Option<string>
    var cacheState: Option<CacheState>
    var revisionList: Option<seq<Revision>>

    constructor (api: ApiServer, desired: string, resources: seq<Resource>)
      ensures this.api == api && this.desired == desired && this.resources == resources
      ensures publishedVersion.None? && cacheState.None? && revisionList.None?
    {
      this.api, this.desired, this.resources := api, desired, resources;
      publishedVersion, cacheState, revisionList := None, None, None;
    }

    /** How many revisions match: `Get` only succeeds on exactly one. */
    method CountMatches(revs: seq<Revision>) returns (n: nat)
      ensures n == CountVersion(revs, desired)
    {
      n := 0;
      for i := 0 to |revs|
        invariant n == CountVersion(revs[..i], desired)
      {
        assert revs[..i + 1][..i] == revs[..i];
        if revs[i].version == desired {
          n := n + 1;
        }
      }
      assert revs[..|revs|] == revs;
    }

    method IsRevisionPublishedConditionReconciled(list: seq<Revision>, version: string)
      returns (shouldBeTrue: Option<Revision>, shouldBeFalse: seq<Write>)
      ensures shouldBeTrue == ToPublish(list, version) && shouldBeFalse == Unpublishes(list, version)
    {
      shouldBeTrue, shouldBeFalse := None, [];
      for i := 0 to |list|
        invariant shouldBeTrue == ToPublish(list[..i], version) && shouldBeFalse == Unpublishes(list[..i], version)
      {
        assert list[..i + 1][..i] == list[..i];
        var ecr := list[i];
        if ecr.version != version && Published(ecr) {
          shouldBeFalse := shouldBeFalse + [Unpublish(ecr)];
        } else if ecr.version == version && !Published(ecr) {
          shouldBeTrue := Some(ecr);
        }
      }
      assert list[..|list|] == list;
    }

    /** Pops the lowest revisions until the list holds `MAX_REVISIONS`. */
    method IsRevisionRetentionReconciled(list: seq<Revision>) returns (toBeDeleted: seq<Write>, kept: seq<Revision>)
      ensures toBeDeleted == Deletes(list) && kept == list[Excess(list)..]
    {
      toBeDeleted, kept := [], list;
      while |kept| > MAX_REVISIONS
        invariant |toBeDeleted| <= Excess(list) && kept == list[|toBeDeleted|..]
        invariant toBeDeleted == Deletes(list)[..|toBeDeleted|]
        decreases |kept|
      {
        toBeDeleted := toBeDeleted + [Delete(kept[0].version)];
        kept := kept[1..];
      }
    }

    /** Sends writes in order and stops at the first the API does not accept. */
    method SendAll(ws: seq<Write>) returns (ok: bool, ghost trace: seq<Stored>)
      modifies api
      ensures Executes(trace, ws, api.clock) && trace[0] == old(api.stored) && trace[|trace| - 1] == api.stored
      ensures ok <==> |trace| == |ws| + 1
      ensures api.clock == old(api.clock)
    {
      trace := [api.stored];
      var i := 0;
      while i < |ws|
        invariant 0 <= i <= |ws| && |trace| == i + 1 && api.clock == old(api.clock)
        invariant Executes(trace, ws, api.clock) && trace[0] == old(api.stored) && trace[|trace| - 1] == api.stored
      {
        ok := api.Send(ws[i]);
        if !ok {
          return false, trace;
        }
        ExecutesNext(trace, ws, api.stored, api.clock);
        trace := trace + [api.stored];
        i := i + 1;
      }
      return true, trace;
    }

    /**
     One reconcile. Whatever fails, what is stored at each moment is what the planned writes so far make of it,
     and a reconcile that reports success has sent them all.
     */
    method Reconcile(readsOk: bool) returns (r: Outcome, ghost trace: seq<Stored>)
      requires forall i :: 0 <= i < |api.stored.revs| ==> api.stored.revs[i].version != ""
      modifies this, api
      ensures Executes(trace, Plan(desired, resources, old(api.stored.revs)), old(api.clock))
      ensures trace[0] == old(api.stored) && trace[|trace| - 1] == api.stored
      ensures !r.Failed? ==> |trace| == |Plan(desired, resources, old(api.stored.revs))| + 1
      ensures r.Requeue? ==> CountVersion(old(api.stored.revs), desired) == 0
      ensures r.Requeue? ==> Adds(old(api.stored), api.stored, desired, resources, old(api.clock))
      ensures r.Done? ==>
                && CountVersion(old(api.stored.revs), desired) == 1
                && Concluded(Sorted(desired, old(api.stored.revs)), publishedVersion, cacheState, revisionList)
    {
      trace := [api.stored];
      if !readsOk {
        return Failed, trace;
      }
      var matches := CountMatches(api.stored.revs);
      if matches == 0 {
        var ok;
        ok, trace := SendAll([Create(desired, resources)]);
        assert ok ==> Accepted(trace[0], Create(desired, resources), trace[1], api.clock);
        return if ok then Requeue else Failed, trace;
      }
      if matches > 1 {
        return Failed, trace;
      }
      var list := SortByPublication(desired, api.stored.revs);
      SortedMembers(desired, api.stored.revs);
      assert forall i :: 0 <= i < |list| ==> list[i] in list;
      assert |list| > 0;
      var ok;
      ok, trace := Rollout(list);
      return if ok then Done else Failed, trace;
    }

    /** Selects from the sorted list, then unpublishes the others and publishes the selected one. */
    method PublishSelected(list: seq<Revision>) returns (ok: bool, ghost trace: seq<Stored>)
      requires list != [] && forall i :: 0 <= i < |list| ==> list[i].version != ""
      modifies this, api
      ensures Executes(trace, PublishWrites(list), api.clock) && trace[0] == old(api.stored)
      ensures trace[|trace| - 1] == api.stored
      ensures ok <==> |trace| == |PublishWrites(list)| + 1
      ensures api.clock == old(api.clock)
      ensures publishedVersion == Some(SelectedVersion(list)) && cacheState.Some? && StateFits(list, cacheState.value)
    {
      revisionList := Some(list);
      var version, state := GetVersionToPublish(list);
      cacheState := Some(state);
      publishedVersion := Some(version);
      var shouldBeTrue, shouldBeFalse := IsRevisionPublishedConditionReconciled(list, version);
      var writes := shouldBeFalse + (if shouldBeTrue.Some? then [Publish(shouldBeTrue.value)] else []);
      assert writes == PublishWrites(list);
      ok, trace := SendAll(writes);
    }

    /** Publishes, then deletes what is over the limit. */
    method Rollout(list: seq<Revision>) returns (ok: bool, ghost trace: seq<Stored>)
      requires list != [] && forall i :: 0 <= i < |list| ==> list[i].version != ""
      modifies this, api
      ensures Executes(trace, Updates(list), api.clock) && trace[0] == old(api.stored)
      ensures trace[|trace| - 1] == api.stored
      ensures ok ==> |trace| == |Updates(list)| + 1
      ensures ok ==> Concluded(list, publishedVersion, cacheState, revisionList)
      ensures api.clock == old(api.clock)
    {
      ok, trace := PublishSelected(list);
      if !ok {
        ExecutesStart(trace, PublishWrites(list), Deletes(list), api.clock);
        return false, trace;
      }
      var toBeDeleted, kept := IsRevisionRetentionReconciled(list);
      revisionList := Some(kept);
      ghost var deleting;
      ok, deleting := SendAll(toBeDeleted);
      ExecutesJoin(trace, PublishWrites(list), deleting, Deletes(list), api.clock);
      trace := trace + deleting[1..];
    }
  }

  /** One revision more: of this version, with these resources, created now, neither published nor tainted. */
  ghost predicate Adds(before: Stored, after: Stored, version: string, resources: seq<Resource>, now: nat) {
    && |after.revs| == |before.revs| + 1 && after.revs[..|before.revs|] == before.revs
    && after.terminating == before.terminating
    && var n := after.revs[|before.revs|];
       && n.version == version && n.resources == resources && n.createdAt == now && n.lastPublishedAt.None?
       && !Published(n) && !Tainted(n) && !n.published && !n.tainted
  }

  /** What a successful reconcile leaves for the status update. */
  ghost predicate Concluded(list: seq<Revision>, version: Option<string>, state: Option<CacheState>,
                            left: Option<seq<Revision>>) {
    && version == Some(SelectedVersion(list)) && left == Some(list[Excess(list)..])
    && state.Some? && StateFits(list, state.value)
  }

  /** What the cache state says about a sorted, non-empty list. */
  ghost predicate StateFits(list: seq<Revision>, state: CacheState) {
    && list != []
    && (state.RollbackFailedState? <==> forall i :: 0 <= i < |list| ==> Tainted(list[i]))
    && (state.InSync? <==> SelectedVersion(list) == list[|list| - 1].version)
  }
}

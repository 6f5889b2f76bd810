/**
 The EnvoyConfig controller as a whole: its reconcile and the status it then reports
 (pkg/reconcilers/marin3r/envoyconfig/status.go, controllers/marin3r/envoyconfig_controller.go).
 */
module ConfigStatus {
  import opened Wrappers
  import opened Snapshots
  import opened Revisions
  import opened Reconciler
  import RevisionController
  import opened Protocol
  import opened Writes

  // ---------------------------------------------------------------------
  // The status

  datatype Ref = Ref(version: string, uid: nat)

  datatype Status = Status(
    revisions: Option<seq<Ref>>, publishedVersion: Option<string>, desiredVersion: Option<string>,
    cacheState: Option<CacheState>, conditions: Option<Conditions>)

  const CANT_PUBLISH := Condition(true, CantPublishDesiredVersion, Standard)
  const PUBLISHED := Condition(false, DesiredVersionPublished, Standard)
  const RECOVERED := Condition(false, Recovered, RECOVERY)
  const ALL_TAINTED := Condition(true, AllRevisionsTainted, Standard)
  const RECOVERY := Detail("Recovered")

  function Refs(list: seq<Revision>): (refs: seq<Ref>) {
    seq(|list|, i requires 0 <= i < |list| => Ref(list[i].version, list[i].uid))
  }

  /** Changes the condition only when its truth is not the one wanted. */
  function Turned(cs: Conditions, t: ConditionType, wanted: bool, yes: Condition, no: Condition): (r: Conditions) {
    if IsTrue(cs, t) == wanted then cs else cs[t := if wanted then yes else no]
  }

  /** A rollback condition without a message gets one. */
  function Worded(cs: Conditions): (r: Conditions) {
    if RollbackFailed in cs && cs[RollbackFailed].message == Missing
    then cs[RollbackFailed := cs[RollbackFailed].(message := RECOVERY)] else cs
  }

  function NewStatus(st: Status, state: CacheState, desired: string, published: string,
                     list: seq<Revision>): (n: Status) {
    var cs := if st.conditions.Some? then st.conditions.value else map[];
    var synced := Turned(cs, CacheOutOfSync, desired != published, CANT_PUBLISH, PUBLISHED);
    var rolled := Turned(synced, RollbackFailed, state == RollbackFailedState, ALL_TAINTED, RECOVERED);
    Status(Some(Refs(list)), Some(published), Some(desired), Some(state), Some(Worded(rolled)))
  }

  /** One reference for each revision, in the order of the list. */
  ghost predicate Names(refs: seq<Ref>, list: seq<Revision>) {
    |refs| == |list| && forall i :: 0 <= i < |list| ==> refs[i].version == list[i].version && refs[i].uid == list[i].uid
  }

  lemma NamesAreRefs(refs: seq<Ref>, list: seq<Revision>)
    ensures Names(refs, list) <==> refs == Refs(list)
  {
  }

  /** The status says what the reconcile found, and says it in full. */
  ghost predicate Agrees(st: Status, state: CacheState, desired: string, published: string, list: seq<Revision>) {
    && st.revisions.Some? && Names(st.revisions.value, list)
    && st.publishedVersion == Some(published) && st.desiredVersion == Some(desired)
    && st.cacheState == Some(state) && st.conditions.Some?
    && var cs := st.conditions.value;
       && (IsTrue(cs, CacheOutOfSync) <==> desired != published)
       && (IsTrue(cs, RollbackFailed) <==> state == RollbackFailedState)
       && (RollbackFailed in cs ==> cs[RollbackFailed].message != Missing)
  }

  /** One run makes the status agree, leaves one that agrees alone, and touches no other condition. */
  lemma StatusIsFixpoint(st: Status, state: CacheState, desired: string, published: string, list: seq<Revision>)
    ensures var n := NewStatus(st, state, desired, published, list);
            && Agrees(n, state, desired, published, list)
            && NewStatus(n, state, desired, published, list) == n
            && (n == st <==> Agrees(st, state, desired, published, list))
            && (forall t :: t != CacheOutOfSync && t != RollbackFailed ==>
                  (t in n.conditions.value <==> st.conditions.Some? && t in st.conditions.value)
                  && (t in n.conditions.value ==> n.conditions.value[t] == st.conditions.value[t]))
  {
    NamesAreRefs(Refs(list), list);
    if st.revisions.Some? {
      NamesAreRefs(st.revisions.value, list);
    }
  }

  /** A condition that has to be turned says why; one that need not be is left alone, but for a missing message. */
  lemma StatusReasons(st: Status, state: CacheState, desired: string, published: string, list: seq<Revision>)
    ensures var cs := if st.conditions.Some? then st.conditions.value else map[];
            var ds := NewStatus(st, state, desired, published, list).conditions.value;
            var failed := state == RollbackFailedState;
            && (IsTrue(cs, CacheOutOfSync) && desired == published ==>
                  ds.Items >= {(CacheOutOfSync, Condition(false, DesiredVersionPublished, Standard))})
            && (!IsTrue(cs, CacheOutOfSync) && desired != published ==>
                  ds.Items >= {(CacheOutOfSync, Condition(true, CantPublishDesiredVersion, Standard))})
            && ((IsTrue(cs, CacheOutOfSync) <==> desired != published) ==>
                      RevisionController.SameCondition(cs, ds, CacheOutOfSync))
            && (IsTrue(cs, RollbackFailed) && !failed ==>
                  ds.Items >= {(RollbackFailed, Condition(false, Recovered, RECOVERY))})
            && (!IsTrue(cs, RollbackFailed) && failed ==>
                  ds.Items >= {(RollbackFailed, Condition(true, AllRevisionsTainted, Standard))})
            && ((IsTrue(cs, RollbackFailed) <==>
                      failed) && RollbackFailed in cs && cs[RollbackFailed].message == Missing ==>
                  ds.Items >= {(RollbackFailed, cs[RollbackFailed].(message := RECOVERY))})
            && ((IsTrue(cs, RollbackFailed) <==> failed)
                && (RollbackFailed in cs ==> cs[RollbackFailed].message != Missing) ==>
                  RevisionController.SameCondition(cs, ds, RollbackFailed))
  {
    var ds := NewStatus(st, state, desired, published, list).conditions.value;
    assert forall t :: t in ds ==> (t, ds[t]) in ds.Items;
  }

  class EnvoyConfig {
    var version: string  // the hash of its resources
    var status: Status

    constructor (version: string, status: Status)
      ensures this.version == version && this.status == status
    {
      this.version, this.status := version, status;
    }

    /** Corrects the status field by field and reports whether it was right already. */
    method IsStatusReconciled(state: CacheState, published: string, list: seq<Revision>) returns (ok: bool)
      modifies this`status
      ensures status == NewStatus(old(status), state, version, published, list)
      ensures ok <==> Agrees(old(status), state, version, published, list)
    {
      ok := true;
      StatusIsFixpoint(status, state, version, published, list);
      var refs := GenerateRevisionList(list);
      if status.revisions != Some(refs) {
        status := status.(revisions := Some(refs));
        ok := false;
      }
      if status.publishedVersion != Some(published) {
        status := status.(publishedVersion := Some(published));
        ok := false;
      }
      if status.desiredVersion != Some(version) {
        status := status.(desiredVersion := Some(version));
        ok := false;
      }
      if status.cacheState != Some(state) {
        status := status.(cacheState := Some(state));
        ok := false;
      }
      if status.conditions == None {
        status := status.(conditions := Some(map[]));
        ok := false;
      }
      var same := ReconcileConditions(state, published);
      ok := ok && same;
    }

    method ReconcileConditions(state: CacheState, published: string) returns (ok: bool)
      requires status.conditions.Some?
      modifies this`status
      ensures var was := old(status).conditions.value;
              var synced := Turned(was, CacheOutOfSync, version != published, CANT_PUBLISH, PUBLISHED);
              status == old(status).(conditions :=
                Some(Worded(Turned(synced, RollbackFailed, state == RollbackFailedState, ALL_TAINTED, RECOVERED))))
      ensures ok ==> status == old(status)
      ensures !ok ==> status.conditions != old(status).conditions
    {
      var cs := status.conditions.value;
      ok := true;
      if version != published && !IsTrue(cs, CacheOutOfSync) {
        cs := cs[CacheOutOfSync := CANT_PUBLISH];
        ok := false;
      } else if version == published && IsTrue(cs, CacheOutOfSync) {
        cs := cs[CacheOutOfSync := PUBLISHED];
        ok := false;
      }
      if state != RollbackFailedState && IsTrue(cs, RollbackFailed) {
        cs := cs[RollbackFailed := RECOVERED];
        ok := false;
      } else if state == RollbackFailedState && !IsTrue(cs, RollbackFailed) {
        cs := cs[RollbackFailed := ALL_TAINTED];
        ok := false;
      }
      if RollbackFailed in cs && cs[RollbackFailed].message == Missing {
        cs := cs[RollbackFailed := cs[RollbackFailed].(message := RECOVERY)];
        ok := false;
      }
      status := status.(conditions := Some(cs));
    }

    method GenerateRevisionList(list: seq<Revision>) returns (refs: seq<Ref>)
      ensures refs == Refs(list) && Names(refs, list)
    {
      refs := [];
      for i := 0 to |list|
        invariant |refs| == i && forall j :: 0 <= j < i ==> refs[j] == Ref(list[j].version, list[j].uid)
      {
        refs := refs + [Ref(list[i].version, list[i].uid)];
      }
    }
  }

  // ---------------------------------------------------------------------
  // End to end

  /** The references are to the revisions left behind, in the order they sort in. */
  ghost predicate ListsWhatIsLeft(refs: seq<Ref>, desired: string, before: seq<Revision>, after: seq<Revision>) {
    && |refs| == |after| && (forall r :: r in after ==> Ref(r.version, r.uid) in refs)
    && (forall i, j, a, b :: 0 <= i < j < |refs| && a in before && b in before
                             && a.version == refs[i].version && b.version == refs[j].version ==>
          Before(desired, before, a, b))
  }

  /** What the reported status says about the revisions: `before` as listed, `after` as left behind. */
  ghost predicate Truthful(st: Status, desired: string, before: seq<Revision>, after: seq<Revision>) {
    && st.cacheState.Some? && st.publishedVersion.Some? && st.conditions.Some? && st.revisions.Some?
    && st.desiredVersion == Some(desired) && ListsWhatIsLeft(st.revisions.value, desired, before, after)
    && var state, published, cs := st.cacheState.value, st.publishedVersion.value, st.conditions.value;
       && (state.InSync? <==> published == desired)
       && (state.InSync? <==> !IsTrue(cs, CacheOutOfSync))
       && (state.RollbackFailedState? <==> forall r :: r in before ==> Tainted(r))
       && (state.RollbackFailedState? <==> IsTrue(cs, RollbackFailed))
       && (state.RollbackFailedState? ==> IsTrue(cs, CacheOutOfSync) && NonePublished(after))
       && (!state.RollbackFailedState? ==> exists r :: IsTopmost(desired, before, r) && r.version == published)
       && PublishedIs(after, published)
  }

  lemma {:induction false} CountFinds(revs: seq<Revision>, v: string) returns (d: Revision)
    requires CountVersion(revs, v) > 0
    ensures d in revs && d.version == v
  {
    if revs[|revs| - 1].version == v {
      d := revs[|revs| - 1];
    } else {
      d := CountFinds(revs[..|revs| - 1], v);
    }
  }

  lemma StatusIsTruthful(st: Status, desired: string, resources: seq<Resource>, trace: seq<Stored>, now: nat,
                         published: string, state: CacheState, kept: seq<Revision>)
    requires desired != "" && |trace| > 0 && WellFormed(trace[0].revs) && CountVersion(trace[0].revs, desired) == 1
    requires Executes(trace, Plan(desired, resources, trace[0].revs), now)
    requires |trace| == |Plan(desired, resources, trace[0].revs)| + 1
    requires Concluded(Sorted(desired, trace[0].revs), Some(published), Some(state), Some(kept))
    ensures Truthful(NewStatus(st, state, desired, published, kept), desired, trace[0].revs, trace[|trace| - 1].revs)
  {
    var revs := trace[0].revs;
    CompletedPublishesSelected(desired, resources, trace, now);
    StatusIsFixpoint(st, state, desired, published, kept);
    StateIsTruthful(desired, revs, published, state, kept);
    FinalVersions(desired, resources, trace, now);
    CompletedKeeps(desired, resources, trace, now);
    KeptAreListed(desired, revs, trace[|trace| - 1].revs, Refs(kept));
  }

  lemma KeptAreListed(desired: string, before: seq<Revision>, after: seq<Revision>, refs: seq<Ref>)
    requires Distinct(before)
    requires var list := Sorted(desired, before);
             && Names(refs, list[Excess(list)..])
             && Ids(after) == Ids(list[Excess(list)..]) && |after| == |list| - Excess(list)
    ensures ListsWhatIsLeft(refs, desired, before, after)
  {
    var list := Sorted(desired, before);
    SortedSame(desired, before);
    AllListed(refs, list[Excess(list)..], after);
    RefsInOrder(desired, before, Excess(list), refs);
  }

  lemma RefsInOrder(desired: string, before: seq<Revision>, k: nat, refs: seq<Ref>)
    requires Distinct(before) && k <= |Sorted(desired, before)| && Names(refs, Sorted(desired, before)[k..])
    ensures forall i, j, a, b :: 0 <= i < j < |refs| && a in before && b in before
                                 && a.version == refs[i].version && b.version == refs[j].version ==>
              Before(desired, before, a, b)
  {
    var list := Sorted(desired, before);
    assert forall i :: 0 <= i < |refs| ==> refs[i].version == list[k + i].version;
    forall i, j, a, b | 0 <= i < j < |refs| && a in before && b in before
                        && a.version == refs[i].version && b.version == refs[j].version
      ensures Before(desired, before, a, b)
    {
      ListedBefore(desired, before, k + i, k + j, a, b);
    }
  }

  lemma AllListed(refs: seq<Ref>, rest: seq<Revision>, after: seq<Revision>)
    requires Names(refs, rest) && Ids(after) == Ids(rest)
    ensures forall r :: r in after ==> Ref(r.version, r.uid) in refs
  {
    forall r | r in after ensures Ref(r.version, r.uid) in refs {
      assert (r.version, r.uid) in Ids(rest);
      var o :| o in rest && (o.version, o.uid) == (r.version, r.uid);
      var i :| 0 <= i < |rest| && rest[i] == o;
      assert refs[i] == Ref(r.version, r.uid);
    }
  }

  lemma ListedBefore(desired: string, before: seq<Revision>, i: nat, j: nat, a: Revision, b: Revision)
    requires Distinct(before) && i < j < |Sorted(desired, before)| && a in before && b in before
    requires a.version == Sorted(desired, before)[i].version && b.version == Sorted(desired, before)[j].version
    ensures Before(desired, before, a, b)
  {
    var list := Sorted(desired, before);
    SortedSame(desired, before);
    SortedInOrder(desired, before);
    assert list[i] in list && list[j] in list;
    SameVersionSame(before, a, list[i]);
    SameVersionSame(before, b, list[j]);
  }

  /** No revision without a version appears on the way. */
  lemma FinalVersions(desired: string, resources: seq<Resource>, trace: seq<Stored>, now: nat)
    requires desired != "" && |trace| > 0 && WellFormed(trace[0].revs)
    requires Executes(trace, Plan(desired, resources, trace[0].revs), now)
    ensures forall r :: r in trace[|trace| - 1].revs ==> r.version != ""
  {
    PlanFits(desired, resources, trace[0].revs);
    TraceKeepsInv(desired, Plan(desired, resources, trace[0].revs), trace, |trace| - 1, now);
  }

  lemma StateIsTruthful(desired: string, revs: seq<Revision>, published: string, state: CacheState, kept: seq<Revision>)
    requires desired != "" && WellFormed(revs) && CountVersion(revs, desired) == 1
    requires Concluded(Sorted(desired, revs), Some(published), Some(state), Some(kept))
    ensures state.InSync? <==> published == desired
    ensures state.RollbackFailedState? <==> forall r :: r in revs ==> Tainted(r)
    ensures state.RollbackFailedState? <==> published == ""
    ensures !state.RollbackFailedState? ==> exists r :: IsTopmost(desired, revs, r) && r.version == published
  {
    var list := Sorted(desired, revs);
    var d := CountFinds(revs, desired);
    DesiredSortsLast(desired, revs, d);
    SortedSame(desired, revs);
    SelectionIsTop(desired, revs);
    assert forall i :: 0 <= i < |list| ==> list[i] in list;
    if LastUntainted(list) >= 0 {
      assert IsTopmost(desired, revs, list[LastUntainted(list)]);
    }
  }

  /** One reconcile of an EnvoyConfig: revisions first, then, if that went through, the status. */
  class EnvoyConfigReconciler {
    const api: ApiServer
    const ec: EnvoyConfig
    const resources: seq<Resource>

    constructor (api: ApiServer, ec: EnvoyConfig, resources: seq<Resource>)
      ensures this.api == api && this.ec == ec && this.resources == resources
    {
      this.api, this.ec, this.resources := api, ec, resources;
    }

    method Reconcile(readsOk: bool, updateOk: bool) returns (r: Outcome, ghost trace: seq<Stored>)
      requires ec.version != "" && WellFormed(api.stored.revs)
      modifies api, ec`status
      ensures Executes(trace, Plan(ec.version, resources, old(api.stored.revs)), old(api.clock))
      ensures trace[0] == old(api.stored) && trace[|trace| - 1] == api.stored
      ensures forall i :: 0 <= i < |trace| ==> Distinct(trace[i].revs) && AtMostOnePublished(trace[i].revs)
      ensures r.Done? ==> Truthful(ec.status, ec.version, old(api.stored.revs), api.stored.revs)
      ensures !r.Done? ==> ec.status == old(ec.status)
      ensures r.Requeue? ==> Adds(old(api.stored), api.stored, ec.version, resources, old(api.clock))
      ensures r.Done? ==> |api.stored.revs| == if |old(api.stored.revs)| > 10 then 10 else |old(api.stored.revs)|
    {
      var revs := api.stored.revs;
      assert forall i :: 0 <= i < |revs| ==> revs[i] in revs;
      var rr := new RevisionReconciler(api, ec.version, resources);
      r, trace := rr.Reconcile(readsOk);
      forall i | 0 <= i < |trace| ensures Distinct(trace[i].revs) && AtMostOnePublished(trace[i].revs) {
        EveryWriteKeepsOnePublished(ec.version, resources, trace, i, old(api.clock));
      }
      if r.Done? {
        CompletedKeepsNewestTen(ec.version, resources, trace, old(api.clock));
        var was := ec.status;
        var state, published, kept := rr.cacheState.value, rr.publishedVersion.value, rr.revisionList.value;
        StatusIsTruthful(was, ec.version, resources, trace, old(api.clock), published, state, kept);
        var ok := ec.IsStatusReconciled(state, published, kept);
        if !ok && !updateOk {
          ec.status := was;
          r := Failed;
        }
      }
    }
  }
}

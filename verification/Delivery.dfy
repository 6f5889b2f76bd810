/**
 What is delivered is what the spec says: in runs whose edits give each version one
 list of resources, every stored revision holds its version's, and what is loaded
 for the desired version are the spec's own resources.
 */
module Delivery {
  import opened Wrappers
  import opened StatRuns
  import opened Snapshots
  import opened Revisions
  import opened Reconciler
  import opened RevisionController
  import opened Protocol
  import opened Writes

  type Versions = string -> seq<Resource>

  /** A version is the hash of its resources, so an edit gives a version the resources that belong to it. */
  ghost predicate Edits(spec: Versions, labels: seq<Label>) {
    forall i :: 0 <= i < |labels| && labels[i].Edit? ==> labels[i].resources == spec(labels[i].version)
  }

  /** The spec, the revisions and the creation that is to come hold the resources of their versions. */
  ghost predicate TrueToSpec(spec: Versions, s: State) {
    && s.resources == spec(s.desired)
    && (forall r :: Holds(s.stored, r) ==> r.resources == spec(r.version))
    && (forall i :: 0 <= i < |s.pending| && s.pending[i].Create? ==>
              s.pending[i].resources == spec(s.pending[i].version))
  }

  lemma PlanIsTrue(spec: Versions, s: State)
    requires Inv(s) && TrueToSpec(spec, s)
    ensures var ws := Plan(s.desired, s.resources, s.stored.revs);
            forall i :: 0 <= i < |ws| && ws[i].Create? ==> ws[i].resources == spec(ws[i].version)
  {
    var ws := Plan(s.desired, s.resources, s.stored.revs);
    if CountVersion(s.stored.revs, s.desired) == 0 {
      assert ws == [Create(s.desired, s.resources)];
    } else if CountVersion(s.stored.revs, s.desired) > 1 {
      assert ws == [];
    } else {
      assert ws == Updates(Sorted(s.desired, s.stored.revs));
      UpdatesCreateNothing(s.desired, s.stored.revs);
    }
  }

  lemma UpdatesCreateNothing(desired: string, revs: seq<Revision>)
    requires WellFormed(revs)
    ensures var ws := Updates(Sorted(desired, revs)); forall i :: 0 <= i < |ws| ==> !ws[i].Create?
  {
    var us, ps := UpdateParts(desired, revs);
    PartsShape(Sorted(desired, revs), us, ps);
  }

  lemma SentIsTrue(spec: Versions, s: State, s': State)
    requires Inv(s) && TrueToSpec(spec, s) && SendStep(s, s')
    ensures TrueToSpec(spec, s')
  {
    assert forall i :: 0 <= i < |s'.pending| ==> s'.pending[i] == s.pending[i + 1];
    match s.pending[0]
    case Create(v, res) =>
      SendCreate(s, s', v, res);
      assert res == spec(v);
    case Unpublish(u) =>
      SendUnpublish(s, s', u);
      assert Holds(s.stored, u);
    case Publish(c) =>
      SendPublish(s, s', c);
      assert Holds(s.stored, c);
    case Delete(v) => SendDelete(s, s', v);
  }

  lemma StepKeepsTrue(spec: Versions, cfg: Config, s: State, l: Label, s': State)
    requires Inv(s) && TrueToSpec(spec, s) && Step(cfg, s, l, s') && (l.Edit? ==> l.resources == spec(l.version))
    ensures TrueToSpec(spec, s')
  {
    match l
    case Begin => PlanIsTrue(spec, s);
    case Send => SentIsTrue(spec, s, s');
    case Reconcile(_, _, _, _, _, _) =>
      var r, n := ReconcileKeeps(cfg, s, l, s');
      assert Holds(s.stored, r);
    case _ =>
  }

  /** Every revision the API holds has the resources that some edit gave its version. */
  lemma {:induction false} RevisionsHoldTheSpec(spec: Versions, cfg: Config, trace: seq<State>, labels: seq<Label>,
                                                n: nat)
    requires IsRun(cfg, trace, labels) && Initial(trace[0]) && trace[0].resources == spec(trace[0].desired)
    requires Edits(spec, labels) && n < |trace|
    ensures TrueToSpec(spec, trace[n])
  {
    if n > 0 {
      RevisionsHoldTheSpec(spec, cfg, trace, labels, n - 1);
      InitialInv(trace[0]);
      RunKeepsInv(cfg, trace, labels, n - 1);
      assert StepAt(cfg, trace, labels, n - 1);
      StepKeepsTrue(spec, cfg, trace[n - 1], labels[n - 1], trace[n]);
    }
  }

  /**
   Delivery: a reconcile that loads the revision of the desired version leaves in the cache, for each served type,
   exactly what the spec's own resources load to.
   */
  lemma CacheServesTheSpec(spec: Versions, cfg: Config, trace: seq<State>, labels: seq<Label>, n: nat)
    requires IsRun(cfg, trace, labels) && Initial(trace[0]) && trace[0].resources == spec(trace[0].desired)
    requires Edits(spec, labels) && n < |labels|
    requires labels[n].Reconcile? && labels[n].load.Loaded? && labels[n].version == trace[n].desired
    ensures trace[n + 1].cache.Some? && Serves(labels[n].world, trace[n].resources, trace[n + 1].cache.value)
  {
    RevisionsHoldTheSpec(spec, cfg, trace, labels, n);
    assert StepAt(cfg, trace, labels, n);
    var i := IndexOf(trace[n].stored.revs, labels[n].version);
    var r := trace[n].stored.revs[i];
    assert Holds(trace[n].stored, r);
    RepresentsServes(labels[n].world, r.resources, trace[n + 1].cache.value);
  }
}

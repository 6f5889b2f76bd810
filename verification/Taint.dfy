/**
 Taint over whole runs: once tainted, a revision stays tainted and is never
 published again, whatever fails and whatever a restart loses; and every taint
 was deserved by the history of stream events.
 */
module Taint {
  import opened Wrappers
  import opened Strings
  import opened StatRuns
  import opened Snapshots
  import opened Revisions
  import opened Reconciler
  import opened RevisionController
  import opened Protocol
  import NoFlapping

  /** One API object: a version deleted and created again is another object. */
  predicate SameObject(a: Revision, b: Revision) {
    a.uid == b.uid
  }

  /** An object is new, or it was there before, no less tainted than it was, and if it has just become published
      it was untainted. */
  lemma Ancestor(cfg: Config, s: State, l: Label, s': State, x: Revision) returns (m: Option<Revision>)
    requires Inv(s) && Step(cfg, s, l, s') && Holds(s'.stored, x)
    ensures m.None? ==> x.uid == s.stored.created
    ensures m.Some? ==> Holds(s.stored, m.value) && SameObject(m.value, x)
    ensures m.Some? && Tainted(m.value) ==> Tainted(x) && (Published(x) ==> Published(m.value))
    ensures s'.stored.created >= s.stored.created
  {
    m := Some(x);
    match l
    case Send => m := SentAncestor(s, s', x);
    case Reconcile(_, _, _, _, _, _) =>
      var r, n := ReconcileKeeps(cfg, s, l, s');
      m := Some(if Holds(s.stored, x) then x else r);
    case _ =>
  }

  lemma SentAncestor(s: State, s': State, x: Revision) returns (m: Option<Revision>)
    requires Inv(s) && SendStep(s, s') && Holds(s'.stored, x)
    ensures m.None? ==> x.uid == s.stored.created
    ensures m.Some? ==> Holds(s.stored, m.value) && SameObject(m.value, x)
    ensures m.Some? && Tainted(m.value) ==> Tainted(x) && (Published(x) ==> Published(m.value))
    ensures s'.stored.created >= s.stored.created
  {
    m := Some(x);
    match s.pending[0]
    case Create(v, res) =>
      SendCreate(s, s', v, res);
      m := if Holds(s.stored, x) then Some(x) else None;
    case Unpublish(u) =>
      SendUnpublish(s, s', u);
      m := Some(if Holds(s.stored, x) then x else u);
    case Publish(c) =>
      SendPublish(s, s', c);
      m := Some(if Holds(s.stored, x) then x else c);
    case Delete(v) => SendDelete(s, s', v);
  }

  lemma {:induction false} CreatedGrows(cfg: Config, trace: seq<State>, labels: seq<Label>, i: nat, j: nat)
    requires IsRun(cfg, trace, labels) && i <= j < |trace|
    ensures trace[j].stored.created >= trace[i].stored.created
    decreases j - i
  {
    if i < j {
      CreatedGrows(cfg, trace, labels, i, j - 1);
      assert StepAt(cfg, trace, labels, j - 1);
    }
  }

  lemma SameObjectSame(s: State, a: Revision, b: Revision)
    requires Inv(s) && Held(s) && Holds(s.stored, a) && Holds(s.stored, b) && SameObject(a, b)
    ensures a == b
  {
    if a in s.stored.revs {
      SameVersionSame(s.stored.revs, a, b);
    } else {
      SameVersionSame(s.stored.terminating, a, b);
    }
  }

  /** Taint is permanent, and a tainted revision that is not published never is again. */
  lemma {:induction false} TaintIsPermanent(cfg: Config, trace: seq<State>, labels: seq<Label>, i: nat, j: nat,
                                            r: Revision, x: Revision)
    requires IsRun(cfg, trace, labels) && Inv(trace[0]) && Held(trace[0]) && i <= j < |trace|
    requires Holds(trace[i].stored, r) && Tainted(r) && Holds(trace[j].stored, x) && SameObject(r, x)
    ensures Tainted(x) && (Published(x) ==> Published(r))
    decreases j - i
  {
    RunKeepsInv(cfg, trace, labels, if i == j then i else j - 1);
    RunKeepsHeld(cfg, trace, labels, i);
    if i == j {
      SameObjectSame(trace[i], r, x);
    } else {
      CreatedGrows(cfg, trace, labels, i, j - 1);
      assert StepAt(cfg, trace, labels, j - 1);
      var m := Ancestor(cfg, trace[j - 1], labels[j - 1], trace[j], x);
      TaintIsPermanent(cfg, trace, labels, i, j - 1, r, m.value);
    }
  }

  /** No publication the API accepts is ever of a revision that was tainted at any earlier moment. */
  lemma PublishedAreUntainted(cfg: Config, trace: seq<State>, labels: seq<Label>, i: nat, j: nat, r: Revision)
    requires IsRun(cfg, trace, labels) && Inv(trace[0]) && Held(trace[0]) && i <= j < |labels|
    requires NoFlapping.SendsPublish(trace[j], labels[j])
    requires Holds(trace[i].stored, r) && SameObject(r, trace[j].pending[0].seen)
    ensures !Tainted(r)
  {
    RunKeepsInv(cfg, trace, labels, j);
    assert StepAt(cfg, trace, labels, j);
    SendPublish(trace[j], trace[j + 1], trace[j].pending[0].seen);
    if Tainted(r) {
      TaintIsPermanent(cfg, trace, labels, i, j, r, trace[j].pending[0].seen);
    }
  }

  // ---------------------------------------------------------------------
  // Every taint has its cause in the run

  lemma {:induction false} HistoryClean(cfg: Config, trace: seq<State>, labels: seq<Label>, i: nat)
    requires IsRun(cfg, trace, labels) && Initial(trace[0]) && i < |trace|
    requires forall k :: 0 <= k < |labels| && labels[k].Stream? ==> Clean(labels[k].event)
    ensures CleanRun(trace[i].history)
  {
    if i > 0 {
      HistoryClean(cfg, trace, labels, i - 1);
      assert StepAt(cfg, trace, labels, i - 1);
    }
  }

  /** Whatever the interleaving, a revision becomes tainted only by a reconcile of its own, and only for cause. */
  lemma EveryTaintIsDeserved(cfg: Config, trace: seq<State>, labels: seq<Label>, k: nat, r: Revision, n: Revision)
    requires IsRun(cfg, trace, labels) && Initial(trace[0]) && k < |labels|
    requires forall j :: 0 <= j < |labels| && labels[j].Stream? ==> Clean(labels[j].event)
    requires ColonFree(cfg.node) && CleanNames(cfg.hash, cfg.urls)
    requires Holds(trace[k].stored, r) && !Tainted(r) && Holds(trace[k + 1].stored, n) && SameObject(r, n) && Tainted(n)
    ensures labels[k].Reconcile? && labels[k].version == r.version && Published(r)
    ensures Deserved(trace[k].history, cfg.urls, labels[k].world, r, cfg.node, trace[k + 1].cache)
  {
    HistoryClean(cfg, trace, labels, k);
    assert StepAt(cfg, trace, labels, k);
    OnlyReconcileTaints(cfg, trace, labels, k, r, n);
    DeservedStep(cfg, trace[k], labels[k], trace[k + 1], r, n);
  }

  lemma DeservedStep(cfg: Config, s: State, l: Label, s': State, r: Revision, n: Revision)
    requires l.Reconcile? && Step(cfg, s, l, s') && CleanRun(s.history)
    requires ColonFree(cfg.node) && CleanNames(cfg.hash, cfg.urls) && IsReconciled(cfg, s, l, s', r, n)
    requires !Tainted(r) && Tainted(n)
    ensures Deserved(s.history, cfg.urls, l.world, r, cfg.node, s'.cache)
  {
    TaintIsDeserved(s.history, cfg.hash, cfg.urls, l.world, r, l.load, s.cache, l.cache, cfg.node, s'.clock,
                    l.patchOk, l.updateOk);
  }

  /** `n` is what the reconcile made of `r`. */
  ghost predicate IsReconciled(cfg: Config, s: State, l: Label, s': State, r: Revision, n: Revision)
    requires l.Reconcile?
  {
    var i := IndexOf(s.stored.revs, l.version);
    i >= 0 && s.stored.revs[i] == r && n == Reconciled(cfg, s, i, l, s'.clock)
  }

  lemma OnlyReconcileTaints(cfg: Config, trace: seq<State>, labels: seq<Label>, k: nat, r: Revision, n: Revision)
    requires IsRun(cfg, trace, labels) && Initial(trace[0]) && k < |labels|
    requires Holds(trace[k].stored, r) && !Tainted(r) && Holds(trace[k + 1].stored, n) && SameObject(r, n) && Tainted(n)
    ensures labels[k].Reconcile? && labels[k].version == r.version && Published(r)
    ensures IsReconciled(cfg, trace[k], labels[k], trace[k + 1], r, n)
  {
    var s, l, s' := trace[k], labels[k], trace[k + 1];
    InitialInv(trace[0]);
    RunKeepsInv(cfg, trace, labels, k);
    RunKeepsHeld(cfg, trace, labels, k);
    assert StepAt(cfg, trace, labels, k);
    if Holds(s.stored, n) {
      SameObjectSame(s, r, n);
    } else if l.Reconcile? {
      var was, now := ReconcileKeeps(cfg, s, l, s');
      SameObjectSame(s, was, r);
      IndexOfMember(s.stored.revs, r);
      var i := IndexOf(s.stored.revs, l.version);
      Replaced(s.stored.revs, i, Reconciled(cfg, s, i, l, s'.clock));
    } else {
      NotTaintedOtherwise(cfg, trace, labels, k, r, n);
    }
  }

  lemma NotTaintedOtherwise(cfg: Config, trace: seq<State>, labels: seq<Label>, k: nat, r: Revision, n: Revision)
    requires IsRun(cfg, trace, labels) && Initial(trace[0]) && k < |labels| && !labels[k].Reconcile?
    requires Holds(trace[k].stored, r) && Holds(trace[k + 1].stored, n) && SameObject(r, n)
    requires !Holds(trace[k].stored, n)
    ensures Tainted(n) ==> Tainted(r)
  {
    var s, s' := trace[k], trace[k + 1];
    InitialInv(trace[0]);
    RunKeepsInv(cfg, trace, labels, k);
    RunKeepsHeld(cfg, trace, labels, k);
    assert StepAt(cfg, trace, labels, k);
    if labels[k].Send? {
      match s.pending[0]
      case Create(v, res) => SendCreate(s, s', v, res);
      case Unpublish(u) =>
        SendUnpublish(s, s', u);
        SameObjectSame(s, u, r);
      case Publish(c) =>
        SendPublish(s, s', c);
        SameObjectSame(s, c, r);
      case Delete(v) => SendDelete(s, s', v);
    }
  }
}

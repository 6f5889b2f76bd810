/**
 Rollback goes back to what was served last: the time a publication is recorded at
 puts the revision above every other that has not been published since.
 */
module LastServed {
  import opened Wrappers
  import opened StatRuns
  import opened Snapshots
  import opened Revisions
  import opened Reconciler
  import opened RevisionController
  import opened Protocol
  import opened NoFlapping
  import Taint

  /** The step publishes this object. */
  predicate Publishes(s: State, l: Label, uid: nat) {
    SendsPublish(s, l) && s.pending[0].seen.uid == uid
  }

  /** The step is the reconcile that records the publication of `b`. */
  predicate Records(s: State, l: Label, b: Revision) {
    && l.Reconcile? && l.version == b.version && b in s.stored.revs && Published(b) && !b.published
    && ReachesStatus(b, l.load, l.patchOk) && l.updateOk
  }

  lemma RecordedNow(cfg: Config, s: State, l: Label, s': State, b: Revision) returns (n: Revision)
    requires Inv(s) && Step(cfg, s, l, s') && Records(s, l, b)
    ensures n in s'.stored.revs && n.uid == b.uid && n.lastPublishedAt == Some(s'.clock) && SortTime(n) == s'.clock
  {
    IndexOfMember(s.stored.revs, b);
    var i := IndexOf(s.stored.revs, l.version);
    n := Reconciled(cfg, s, i, l, s'.clock);
    PublicationRecorded(b, l.load, cfg.urls, cfg.node, l.cache.Some?, Run(s.history), s'.clock, l.patchOk, l.updateOk);
    ReconciledEvolves(cfg, s, i, l, s'.clock);
    assert s'.stored.revs[i] == n;
  }

  /** Where a stored revision comes from: its sort time never goes back, and stays while it is not published. */
  ghost predicate Continues(m: Revision, x: Revision) {
    && m.uid == x.uid && m.version == x.version && SortTime(m) <= SortTime(x)
    && (!Published(m) ==> SortTime(x) == SortTime(m))
  }

  lemma SentFrom(s: State, s': State, x: Revision) returns (m: Option<Revision>)
    requires Sound(s) && SendStep(s, s') && x in s'.stored.revs
    ensures m.None? ==> x.uid == s.stored.created
    ensures m.Some? ==> m.value in s.stored.revs && Continues(m.value, x)
    ensures m.Some? && Published(x) && !Published(m.value) ==> Publishes(s, Send, x.uid)
    ensures s'.stored.created >= s.stored.created
  {
    m := Some(x);
    match s.pending[0]
    case Create(v, res) =>
      SendCreate(s, s', v, res);
      m := if x in s.stored.revs then Some(x) else None;
    case Unpublish(u) =>
      SendUnpublish(s, s', u);
      m := Some(if x in s.stored.revs then x else u);
    case Publish(c) =>
      SendPublish(s, s', c);
      m := Some(if x in s.stored.revs then x else c);
    case Delete(v) => SendDelete(s, s', v);
  }

  lemma ComesFrom(cfg: Config, s: State, l: Label, s': State, x: Revision) returns (m: Option<Revision>)
    requires Sound(s) && Step(cfg, s, l, s') && x in s'.stored.revs
    ensures m.None? ==> x.uid == s.stored.created
    ensures m.Some? ==> m.value in s.stored.revs && Continues(m.value, x)
    ensures m.Some? && Published(x) && !Published(m.value) ==> Publishes(s, l, x.uid)
    ensures s'.stored.created >= s.stored.created
  {
    m := Some(x);
    match l
    case Send => m := SentFrom(s, s', x);
    case Reconcile(_, _, _, _, _, _) =>
      var r, n := ReconcileKeeps(cfg, s, l, s');
      m := Some(if x in s.stored.revs then x else r);
    case _ =>
  }

  /** A run from a sound state, with every object told by its UID. */
  ghost predicate SoundRun(cfg: Config, trace: seq<State>, labels: seq<Label>) {
    IsRun(cfg, trace, labels) && Sound(trace[0]) && Held(trace[0])
  }

  lemma SoundAt(cfg: Config, trace: seq<State>, labels: seq<Label>, n: nat)
    requires SoundRun(cfg, trace, labels) && n < |trace|
    ensures Sound(trace[n]) && Held(trace[n])
  {
    RunKeepsSound(cfg, trace, labels, n);
    RunKeepsHeld(cfg, trace, labels, n);
  }

  lemma SameUidSame(s: State, a: Revision, b: Revision)
    requires Inv(s) && Held(s) && a in s.stored.revs && b in s.stored.revs && a.uid == b.uid
    ensures a == b
  {
    assert Holds(s.stored, a) && Holds(s.stored, b);
    SameVersionSame(s.stored.revs, a, b);
  }

  /** Over a stretch of a run: the sort time never goes back, and an unpublished revision that the stretch does not
      publish keeps its own. */
  lemma {:induction false} KeepsSortTime(cfg: Config, trace: seq<State>, labels: seq<Label>, k: nat, n: nat,
                                         y: Revision, x: Revision)
    requires SoundRun(cfg, trace, labels) && k <= n < |trace|
    requires y in trace[k].stored.revs && x in trace[n].stored.revs && x.uid == y.uid
    ensures SortTime(y) <= SortTime(x) && x.version == y.version
    ensures !Published(y) && (forall m :: k <= m < n ==> !Publishes(trace[m], labels[m], y.uid)) ==>
              !Published(x) && SortTime(x) == SortTime(y)
  {
    if k == n {
      SoundAt(cfg, trace, labels, k);
      SameUidSame(trace[k], x, y);
    } else {
      var m := OneBefore(cfg, trace, labels, k, n - 1, y, x);
      KeepsSortTime(cfg, trace, labels, k, n - 1, y, m);
    }
  }

  /** An object that was stored at `k` comes from a revision stored one step before. */
  lemma OneBefore(cfg: Config, trace: seq<State>, labels: seq<Label>, k: nat, n: nat, y: Revision, x: Revision)
    returns (m: Revision)
    requires SoundRun(cfg, trace, labels) && k <= n < |labels|
    requires y in trace[k].stored.revs && x in trace[n + 1].stored.revs && x.uid == y.uid
    ensures m in trace[n].stored.revs && Continues(m, x)
    ensures Published(x) && !Published(m) ==> Publishes(trace[n], labels[n], x.uid)
  {
    UidGiven(cfg, trace, labels, k, n, y);
    SoundAt(cfg, trace, labels, n);
    assert StepAt(cfg, trace, labels, n);
    var from := ComesFrom(cfg, trace[n], labels[n], trace[n + 1], x);
    m := from.value;
  }

  lemma UidGiven(cfg: Config, trace: seq<State>, labels: seq<Label>, k: nat, n: nat, y: Revision)
    requires SoundRun(cfg, trace, labels) && k <= n < |trace| && y in trace[k].stored.revs
    ensures y.uid < trace[n].stored.created
  {
    SoundAt(cfg, trace, labels, k);
    assert Holds(trace[k].stored, y);
    Taint.CreatedGrows(cfg, trace, labels, k, n);
  }

  /**
   From the moment the publication of `b` is recorded, every revision that was stored then and is not published
   afterwards sorts no later than `b`, whatever else happens.
   */
  lemma RecordedSortsHighest(cfg: Config, trace: seq<State>, labels: seq<Label>, k: nat, n: nat,
                             b0: Revision, b: Revision, a0: Revision, a: Revision)
    requires SoundRun(cfg, trace, labels) && k < n < |trace| && Records(trace[k], labels[k], b0)
    requires b in trace[n].stored.revs && b.uid == b0.uid
    requires a0 in trace[k].stored.revs && a in trace[n].stored.revs && a.uid == a0.uid != b0.uid
    requires forall m :: k <= m < n ==> !Publishes(trace[m], labels[m], a.uid)
    ensures !Published(a) && SortTime(a) == SortTime(a0) <= trace[k + 1].clock <= SortTime(b)
    ensures a.version != trace[n].desired ==> !Less(trace[n].desired, b, a)
  {
    SoundAt(cfg, trace, labels, k);
    assert StepAt(cfg, trace, labels, k);
    if a0.version == b0.version {
      SameVersionSame(trace[k].stored.revs, a0, b0);
    }
    KeepsSortTime(cfg, trace, labels, k, n, a0, a);
    var recorded := RecordedNow(cfg, trace[k], labels[k], trace[k + 1], b0);
    KeepsSortTime(cfg, trace, labels, k + 1, n, recorded, b);
  }

  /** The other untainted revisions were there when the publication of `b` was recorded, sorted earlier, and have not
      been published since; and none of them is the desired one. */
  ghost predicate ServedBefore(trace: seq<State>, labels: seq<Label>, k: nat, n: nat, b: Revision) {
    && k < n < |trace| && n <= |labels|
    && forall x :: x in trace[n].stored.revs && !Tainted(x) && x.uid != b.uid ==>
         && x.version != trace[n].desired
         && (forall m :: k <= m < n ==> !Publishes(trace[m], labels[m], x.uid))
         && (exists x0 :: x0 in trace[k].stored.revs && x0.uid == x.uid && SortTime(x0) < trace[k + 1].clock)
  }

  /** Rollback: with the desired revision tainted, the one served last is the one selected. */
  lemma RollsBackToLastServed(cfg: Config, trace: seq<State>, labels: seq<Label>, k: nat, n: nat, b0: Revision,
                              b: Revision)
    requires SoundRun(cfg, trace, labels) && ServedBefore(trace, labels, k, n, b) && Records(trace[k], labels[k], b0)
    requires b in trace[n].stored.revs && b.uid == b0.uid && !Tainted(b)
    ensures SelectedVersion(Sorted(trace[n].desired, trace[n].stored.revs)) == b.version
  {
    var d, revs := trace[n].desired, trace[n].stored.revs;
    SoundAt(cfg, trace, labels, n);
    forall x | x in revs && !Tainted(x) && x.version != b.version ensures Before(d, revs, x, b) {
      assert x.uid != b.uid;
      var x0 :| x0 in trace[k].stored.revs && x0.uid == x.uid && SortTime(x0) < trace[k + 1].clock;
      RecordedSortsHighest(cfg, trace, labels, k, n, b0, b, x0, x);
    }
    assert IsTopmost(d, revs, b);
    SelectionExists(d, revs, b);
  }
}

/**
 Pruning keeps ten revisions. In every run whose prunings are not cut short, the
 revision just selected is never among the deleted, so no finalizer ever clears
 the snapshot in use.
 */
module Pruning {
  import opened Wrappers
  import opened StatRuns
  import opened Snapshots
  import opened Revisions
  import opened Reconciler
  import opened RevisionController
  import opened Protocol

  // ---------------------------------------------------------------------
  // One reconcile

  /** Pruning deletes the selected revision exactly when the newest ten are all tainted and an older one is not. */
  lemma PruningHitsSelected(list: seq<Revision>)
    requires Distinct(list)
    ensures LastUntainted(list) >= 0 && Delete(SelectedVersion(list)) in Deletes(list) <==>
            && |list| > MAX_REVISIONS
            && (exists i :: 0 <= i < |list| && !Tainted(list[i]))
            && (forall i :: |list| - MAX_REVISIONS <= i < |list| ==> Tainted(list[i]))
  {
    var k := LastUntainted(list);
    if k >= 0 {
      var v := list[k].version;
      assert k < Excess(list) ==> Deletes(list)[k] == Delete(v);
      if Delete(v) in Deletes(list) {
        var i :| 0 <= i < Excess(list) && Deletes(list)[i] == Delete(v);
        assert list[i].version == list[k].version;
      }
    }
  }

  // ---------------------------------------------------------------------
  // The invariant of whole runs

  /** `a` sorts above `f`, the desired version aside: by a later instant, or by the same and its place in the list. */
  ghost predicate Newer(revs: seq<Revision>, a: Revision, f: Revision) {
    || SortTime(a) > SortTime(f)
    || (SortTime(a) == SortTime(f) && IndexOf(revs, a.version) > IndexOf(revs, f.version))
  }

  /** An untainted revision that was never published, with at most one newer than it: the published one, if any. */
  ghost predicate IsFresh(revs: seq<Revision>, f: Revision) {
    && f in revs && !Tainted(f) && !Published(f) && f.lastPublishedAt.None?
    && (forall a, b :: a in revs && b in revs && Newer(revs, a, f) && Newer(revs, b, f) ==> a.version == b.version)
    && (forall a, p :: a in revs && p in revs && Newer(revs, a, f) && Published(p) ==> a.version == p.version)
  }

  ghost predicate HasFresh(revs: seq<Revision>) {
    exists f :: IsFresh(revs, f)
  }

  /** The deletions a plan ends with. */
  function Doomed(ws: seq<Write>): (ds: seq<Write>) {
    if ws != [] && !ws[0].Delete? then Doomed(ws[1..]) else ws
  }

  /** The deletions bring the count down to ten and spare what is, or will be, published. */
  ghost predicate DeletesSafe(revs: seq<Revision>, ws: seq<Write>) {
    && |revs| - |Doomed(ws)| <= MAX_REVISIONS
    && (forall i :: 0 <= i < |ws| && ws[i].Publish? ==> Delete(ws[i].seen.version) !in ws)
    && (forall r :: r in revs && Published(r) && Delete(r.version) in ws ==> ws[0].Unpublish?)
  }

  ghost predicate Deleting(s: State) {
    s.pending != [] && AllDeletes(s.pending)
  }

  ghost predicate PruneInv(s: State) {
    && Sound(s)
    && (s.pending != [] && !s.pending[0].Create? ==> DeletesSafe(s.stored.revs, s.pending))
    && (!Deleting(s) && |s.stored.revs| > MAX_REVISIONS ==> HasFresh(s.stored.revs))
    && (forall i :: 0 <= i < |s.stored.terminating| ==> !Published(s.stored.terminating[i]))
  }

  /** With a fresh revision among them, the selected one is among the newest three. */
  lemma SelectedNearTop(desired: string, revs: seq<Revision>, f: Revision)
    requires Distinct(revs) && IsFresh(revs, f)
    ensures |Sorted(desired, revs)| == |revs| && LastUntainted(Sorted(desired, revs)) >= |revs| - 3
  {
    var t := Sorted(desired, revs);
    SortedSame(desired, revs);
    SortedInOrder(desired, revs);
    var k :| 0 <= k < |t| && t[k] == f;
    forall j | k < j < |t| ensures t[j].version == desired || Newer(revs, t[j], f) {
      assert Before(desired, revs, t[k], t[j]);
    }
    AtMostTwoAbove(desired, revs, t, f, k);
  }

  lemma AtMostTwoAbove(desired: string, revs: seq<Revision>, t: seq<Revision>, f: Revision, k: nat)
    requires IsFresh(revs, f) && Distinct(t) && k < |t| && forall r :: r in t ==> r in revs
    requires forall j :: k < j < |t| ==> t[j].version == desired || Newer(revs, t[j], f)
    ensures k >= |t| - 3
  {
    var above := t[k + 1..];
    assert forall j :: 0 <= j < |above| ==> above[j] == t[k + 1 + j];
    assert forall j :: 0 <= j < |above| ==> above[j] in t;
    assert forall i, j :: 0 <= i < j < |above| ==> above[i].version == desired || above[j].version == desired;
    AtMostTwo(desired, above);
  }

  /** Of three distinct revisions, some two are not the desired one. */
  lemma AtMostTwo(desired: string, above: seq<Revision>)
    requires Distinct(above)
    requires forall i, j :: 0 <= i < j < |above| ==> above[i].version == desired || above[j].version == desired
    ensures |above| <= 2
  {
    var three := seq(3, i requires 0 <= i < 3 => i < |above| && above[i].version == desired);
    assert !(three[0] && three[1]) && !(three[1] && three[2]) && !(three[0] && three[2]);
  }

  lemma SelectedIsSpared(desired: string, revs: seq<Revision>)
    requires Distinct(revs) && (|revs| > MAX_REVISIONS ==> HasFresh(revs))
    ensures var list := Sorted(desired, revs); Delete(SelectedVersion(list)) !in Deletes(list)
  {
    var list := Sorted(desired, revs);
    SortedSame(desired, revs);
    if |revs| > MAX_REVISIONS {
      var f :| IsFresh(revs, f);
      SelectedNearTop(desired, revs, f);
      PruningHitsSelected(list);
    }
  }

  lemma BeginSafe(s: State)
    requires PruneInv(s) && s.pending == []
    ensures var ws := Plan(s.desired, s.resources, s.stored.revs);
            ws != [] && !ws[0].Create? ==> DeletesSafe(s.stored.revs, ws)
  {
    var d, revs := s.desired, s.stored.revs;
    if CountVersion(revs, d) == 1 {
      var list := Sorted(d, revs);
      SortedSame(d, revs);
      var us, ps := UpdateParts(d, revs);
      SelectedIsSpared(d, revs);
      PartsSafe(revs, SelectedVersion(list), us, ps, Deletes(list));
    }
  }

  lemma PartsSafe(revs: seq<Revision>, v: string, us: seq<Write>, ps: seq<Write>, ds: seq<Write>)
    requires PartsOf(revs, v, us, ps) && AllDeletes(ds) && |revs| - |ds| <= MAX_REVISIONS && Delete(v) !in ds
    ensures us + ps + ds != [] ==> DeletesSafe(revs, us + ps + ds)
  {
    var ws := us + ps + ds;
    DoomedParts(us, ps, ds);
    PartsContain(us, ps, ds);
    assert forall i :: 0 <= i < |ws| && ws[i].Publish? ==> ws[i] in ws;
    if us != [] {
      assert ws[0] == us[0];
    }
  }

  lemma PartsContain(us: seq<Write>, ps: seq<Write>, ds: seq<Write>)
    requires |us| <= 1 && |ps| <= 1 && AllDeletes(ds)
    ensures forall w :: w in us + ps + ds ==>
              (us != [] && w == us[0]) || (ps != [] && w == ps[0]) || (w.Delete? && w in ds)
  {
  }

  lemma DoomedParts(us: seq<Write>, ps: seq<Write>, ds: seq<Write>)
    requires |us| <= 1 && |ps| <= 1 && (us != [] ==> !us[0].Delete?) && (ps != [] ==> !ps[0].Delete?)
    ensures Doomed(us + ps + ds) == Doomed(ds)
  {
    var rest := ps + ds;
    DoomedAfter(ps, ds);
    DoomedAfter(us, rest);
    assert us + ps + ds == us + rest;
  }

  lemma DoomedAfter(head: seq<Write>, rest: seq<Write>)
    requires |head| <= 1 && (head != [] ==> !head[0].Delete?)
    ensures Doomed(head + rest) == Doomed(rest)
  {
    if head != [] {
      assert (head + rest)[1..] == rest;
    } else {
      assert head + rest == rest;
    }
  }

  /** What was newer than the fresh one, or is the published one that moves to the present. */
  ghost predicate NewerOrMoved(revs: seq<Revision>, f: Revision, r: Revision, y: Revision) {
    y in revs && (Newer(revs, y, f) || (y.version == r.version && Published(r)))
  }

  /** There is at most one such version, and it is the published one's if there is any. */
  lemma OneNewer(revs: seq<Revision>, f: Revision, r: Revision, y: Revision, z: Revision)
    requires WellFormed(revs) && IsFresh(revs, f) && r in revs && NewerOrMoved(revs, f, r, y)
    ensures NewerOrMoved(revs, f, r, z) ==> y.version == z.version
    ensures z in revs && Published(z) ==> y.version == z.version
  {
  }

  lemma FreshKept(revs: seq<Revision>, later: seq<Revision>, f: Revision, f': Revision, r: Revision, n: Revision)
    requires WellFormed(revs) && KeepsOrder(revs, later) && Distinct(later) && IsFresh(revs, f) && r in revs
    requires n.version == r.version && (SortTime(n) == SortTime(r) || Published(r)) && (Published(n) ==> Published(r))
    requires forall x :: x in later <==> x == n || (x in revs && x.version != r.version)
    requires f' == (if f.version == r.version then n else f) && !Tainted(f') && !Published(f')
    requires f'.lastPublishedAt.None? && SortTime(f') == SortTime(f)
    ensures IsFresh(later, f')
  {
    assert f' in later;
    forall a, b | a in later && b in later && Newer(later, a, f')
      ensures Newer(later, b, f') || Published(b) ==> a.version == b.version
    {
      var y, z := if a == n then r else a, if b == n then r else b;
      NewerBefore(revs, later, f, f', r, n, a);
      if Newer(later, b, f') {
        NewerBefore(revs, later, f, f', r, n, b);
      }
      OneNewer(revs, f, r, y, z);
    }
  }

  lemma NewerBefore(revs: seq<Revision>, later: seq<Revision>, f: Revision, f': Revision, r: Revision, n: Revision,
                    a: Revision)
    requires KeepsOrder(revs, later) && f in revs && r in revs && n.version == r.version && f' in later
    requires SortTime(n) == SortTime(r) || Published(r)
    requires forall x :: x in later <==> x == n || (x in revs && x.version != r.version)
    requires f'.version == f.version && SortTime(f') == SortTime(f) && a in later && Newer(later, a, f')
    ensures NewerOrMoved(revs, f, r, if a == n then r else a)
  {
  }

  lemma FreshEvolves(revs: seq<Revision>, later: seq<Revision>, f: Revision, r: Revision, n: Revision, now: nat)
    requires WellFormed(revs) && KeepsOrder(revs, later) && Distinct(later) && IsFresh(revs, f)
    requires r in revs && Evolves(r, n, now)
    requires forall x :: x in later <==> x == n || (x in revs && x.version != r.version)
    ensures HasFresh(later)
  {
    if f.version == r.version {
      SameVersionSame(revs, f, r);
      FreshKept(revs, later, f, n, r, n);
    } else {
      FreshKept(revs, later, f, f, r, n);
    }
  }

  lemma FreshUnpublish(revs: seq<Revision>, later: seq<Revision>, f: Revision, u: Revision, n: Revision)
    requires WellFormed(revs) && KeepsOrder(revs, later) && Distinct(later) && IsFresh(revs, f)
    requires u in revs && Published(u) && n == Unpublished(u)
    requires forall x :: x in later <==> x == n || (x in revs && x.version != u.version)
    ensures HasFresh(later)
  {
    if f.version == u.version {
      SameVersionSame(revs, f, u);
    }
    FreshKept(revs, later, f, f, u, n);
  }

  /** What has just been created stands last in the list, so nothing is newer. */
  lemma FreshCreate(revs: seq<Revision>, n: Revision)
    requires forall r :: r in revs ==> SortTime(r) <= n.createdAt && r.version != n.version
    requires n.lastPublishedAt.None? && n.conditions == map[]
    ensures HasFresh(revs + [n])
  {
    var later := revs + [n];
    assert later[|revs|] == n;
    assert forall r :: r in later ==> r in revs || r == n;
    assert IndexOf(later, n.version) == |revs|;
    assert IsFresh(later, n);
  }

  lemma SafeTail(revs: seq<Revision>, later: seq<Revision>, ws: seq<Write>)
    requires ws != [] && !ws[0].Create? && DeletesSafe(revs, ws) && |later| - |Doomed(ws[1..])| <= MAX_REVISIONS
    requires forall r :: r in later && Published(r) ==> Delete(r.version) !in ws[1..]
    ensures ws[1..] != [] ==> DeletesSafe(later, ws[1..])
  {
  }

  lemma PruneUnpublish(cfg: Config, s: State, s': State, u: Revision)
    requires PruneInv(s) && Step(cfg, s, Send, s') && s.pending[0] == Unpublish(u)
    ensures PruneInv(s')
  {
    var revs, later, ws := s.stored.revs, s'.stored.revs, s.pending;
    StepKeepsSound(cfg, s, Send, s');
    StepKeepsOrder(cfg, s, Send, s');
    SendUnpublish(s, s', u);
    assert Unpublishing(revs, ws);
    SafeTail(revs, later, ws);
    if !Deleting(s') && |later| > MAX_REVISIONS {
      var f :| IsFresh(revs, f);
      FreshUnpublish(revs, later, f, u, Unpublished(u));
    }
  }

  lemma PrunePublish(cfg: Config, s: State, s': State, c: Revision)
    requires PruneInv(s) && Step(cfg, s, Send, s') && s.pending[0] == Publish(c)
    ensures PruneInv(s')
  {
    var revs, later, ws := s.stored.revs, s'.stored.revs, s.pending;
    StepKeepsSound(cfg, s, Send, s');
    StepKeepsOrder(cfg, s, Send, s');
    SendPublish(s, s', c);
    assert Publishing(revs, ws);
    assert Delete(ws[0].seen.version) !in ws;
    assert forall w :: w in ws[1..] ==> w in ws;
    SafeTail(revs, later, ws);
  }

  lemma PruneDelete(cfg: Config, s: State, s': State, v: string)
    requires PruneInv(s) && Step(cfg, s, Send, s') && s.pending[0] == Delete(v)
    ensures PruneInv(s')
  {
    var revs, later, ws := s.stored.revs, s'.stored.revs, s.pending;
    StepKeepsSound(cfg, s, Send, s');
    StepKeepsOrder(cfg, s, Send, s');
    SendDelete(s, s', v);
    assert Doomed(ws) == ws && Doomed(ws[1..]) == ws[1..];
    assert Delete(v) in ws;
    var r :| r in revs && r.version == v && s'.stored.terminating == s.stored.terminating + [r];
    assert !Published(r);
    assert forall w :: w in ws[1..] ==> w in ws;
    SafeTail(revs, later, ws);
  }

  lemma PruneReconcile(cfg: Config, s: State, l: Label, s': State)
    requires PruneInv(s) && l.Reconcile? && Step(cfg, s, l, s')
    ensures PruneInv(s')
  {
    var revs, later := s.stored.revs, s'.stored.revs;
    StepKeepsSound(cfg, s, l, s');
    StepKeepsOrder(cfg, s, l, s');
    var r, n := ReconcileKeeps(cfg, s, l, s');
    if !Deleting(s') && |later| > MAX_REVISIONS {
      var f :| IsFresh(revs, f);
      FreshEvolves(revs, later, f, r, n, s'.clock);
    }
  }

  /** A reconcile is not cut short between its publication and its last deletion. */
  predicate LetsPruningFinish(s: State, l: Label) {
    l.GiveUp? || l.Crash? ==> s.pending == [] || !s.pending[0].Delete?
  }

  lemma StepKeepsPruneInv(cfg: Config, s: State, l: Label, s': State)
    requires PruneInv(s) && Step(cfg, s, l, s') && LetsPruningFinish(s, l)
    ensures PruneInv(s')
  {
    StepKeepsSound(cfg, s, l, s');
    match l
    case Edit(_, _) =>
    case Begin =>
      BeginSafe(s);
    case Send =>
      match s.pending[0] {
        case Create(v, res) =>
          SendCreate(s, s', v, res);
          FreshCreate(s.stored.revs, NewRevision(s.stored.created, v, res, s'.clock));
        case Unpublish(u) => PruneUnpublish(cfg, s, s', u);
        case Publish(c) => PrunePublish(cfg, s, s', c);
        case Delete(v) => PruneDelete(cfg, s, s', v);
      }
    case GiveUp =>
    case Reconcile(_, _, _, _, _, _) => PruneReconcile(cfg, s, l, s');
    case Stream(_) =>
    case Finalize =>
    case Crash =>
  }

  /** A run in which no pruning is cut short. */
  ghost predicate Orderly(cfg: Config, trace: seq<State>, labels: seq<Label>) {
    && IsRun(cfg, trace, labels)
    && forall k {:trigger labels[k]} :: 0 <= k < |labels| ==> LetsPruningFinish(trace[k], labels[k])
  }

  lemma {:induction false} RunKeepsPruneInv(cfg: Config, trace: seq<State>, labels: seq<Label>, i: nat)
    requires Orderly(cfg, trace, labels) && Initial(trace[0]) && i < |trace|
    ensures PruneInv(trace[i])
  {
    if i == 0 {
      InitialPruneInv(trace[0]);
    } else {
      RunKeepsPruneInv(cfg, trace, labels, i - 1);
      PruneInvAt(cfg, trace, labels, i - 1);
    }
  }

  lemma InitialPruneInv(s: State)
    requires Initial(s)
    ensures PruneInv(s)
  {
  }

  lemma PruneInvAt(cfg: Config, trace: seq<State>, labels: seq<Label>, n: nat)
    requires Orderly(cfg, trace, labels) && n < |labels| && PruneInv(trace[n])
    ensures PruneInv(trace[n + 1])
  {
    var s, l, s' := trace[n], labels[n], trace[n + 1];
    assert StepAt(cfg, trace, labels, n);
    StepKeepsPruneInv(cfg, s, l, s');
  }

  /**
   In such a run no plan deletes what it publishes, no deletion hits a published revision, and so finalizing one
   never clears the live snapshot.
   */
  lemma FinalizersSpareTheLiveSnapshot(cfg: Config, trace: seq<State>, labels: seq<Label>, i: nat)
    requires Orderly(cfg, trace, labels) && Initial(trace[0]) && i < |labels|
    ensures forall r :: Publish(r) in trace[i].pending ==> Delete(r.version) !in trace[i].pending
    ensures forall r :: r in trace[i].stored.revs && [Delete(r.version)] <= trace[i].pending ==> !Published(r)
    ensures forall j :: 0 <= j < |trace[i].stored.terminating| ==> !Published(trace[i].stored.terminating[j])
    ensures labels[i].Finalize? ==> trace[i + 1].cache == trace[i].cache && trace[i + 1].history == trace[i].history
  {
    RunKeepsPruneInv(cfg, trace, labels, i);
    assert StepAt(cfg, trace, labels, i);
    SparesPublished(trace[i]);
  }

  lemma SparesPublished(s: State)
    requires PruneInv(s)
    ensures forall r :: Publish(r) in s.pending ==> Delete(r.version) !in s.pending
    ensures forall r :: r in s.stored.revs && [Delete(r.version)] <= s.pending ==> !Published(r)
  {
    var ws := s.pending;
    forall r | Publish(r) in ws ensures Delete(r.version) !in ws {
      var k :| 0 <= k < |ws| && ws[k] == Publish(r);
      assert ws[k].Publish?;
      assert ws[0].Create? ==> |ws| == 1;
    }
  }
}

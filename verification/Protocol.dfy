/**
 The self-healing protocol as one state machine: the EnvoyConfig controller, the
 EnvoyConfigRevision controller, the xDS cache and its statistics, interleaved
 write by write. API writes may fail at any point and conflict with one another.
 */
module Protocol {
  import opened Wrappers
  import opened StatRuns
  import opened Snapshots
  import opened Revisions
  import opened Reconciler
  import opened RevisionController

  /** What stays the same throughout a run; secrets and endpoint slices may be others at every reconcile. */
  datatype Config = Config(node: string, hash: Hasher, urls: Urls, decode: Decoder)

  /** One node. `pending` are the writes the running EnvoyConfig reconcile has still to send; the statistics
      are what the history of events makes of an empty store. */
  datatype State = State(
    desired: string, resources: seq<Resource>, stored: Stored, pending: seq<Write>,
    cache: Option<Snapshot>, history: seq<Event>, clock: nat)

  datatype Label =
    | Edit(version: string, resources: seq<Resource>)
    | Begin
    | Send
    | GiveUp
    | Reconcile(version: string, world: World, load: Loading, cache: Option<Snapshot>, patchOk: bool, updateOk: bool)
    | Stream(event: Event)
    | Finalize
    | Crash

  /** An EnvoyConfig reconcile reads the spec and the revisions and plans its writes; nothing is terminating. */
  ghost predicate BeginStep(s: State, s': State) {
    && s.pending == [] && s.stored.terminating == []
    && s' == s.(pending := Plan(s.desired, s.resources, s.stored.revs), clock := s'.clock)
  }

  /** The API accepts the next write. */
  ghost predicate SendStep(s: State, s': State) {
    && s.pending != [] && Accepted(s.stored, s.pending[0], s'.stored, s'.clock)
    && s' == s.(stored := s'.stored, pending := s.pending[1..], clock := s'.clock)
  }

  ghost predicate ReconcileStep(cfg: Config, s: State, l: Label, s': State)
    requires l.Reconcile?
  {
    var i := IndexOf(s.stored.revs, l.version);
    && i >= 0 && l.world.decode == cfg.decode
    && LoadingFits(cfg.hash, l.world, s.stored.revs[i], l.load, s.cache, l.cache)
    && s' == s.(stored := s.stored.(revs := s.stored.revs[i := Reconciled(cfg, s, i, l, s'.clock)]),
                cache := l.cache, clock := s'.clock)
  }

  /** The finalizer of the first deleted revision runs, and the revision is gone. */
  ghost predicate FinalizeStep(cfg: Config, s: State, s': State) {
    && s.stored.terminating != []
    && var r := s.stored.terminating[0];
       s' == s.(stored := s.stored.(terminating := s.stored.terminating[1..]),
                cache := if Published(r) then None else s.cache,
                history := if Published(r) then s.history + [Clear(cfg.node)] else s.history,
                clock := s'.clock)
  }

  /** The clock never goes back; several steps may take place within one of its ticks. */
  ghost predicate Step(cfg: Config, s: State, l: Label, s': State) {
    && s'.clock >= s.clock
    && match l
       case Edit(v, res) => v != "" && s' == s.(desired := v, resources := res, clock := s'.clock)
       case Begin => BeginStep(s, s')
       case Send => SendStep(s, s')
       case GiveUp => s' == s.(pending := [], clock := s'.clock)
       case Reconcile(_, _, _, _, _, _) => ReconcileStep(cfg, s, l, s')
       case Stream(e) => !e.Restart? && s' == s.(history := s.history + [e], clock := s'.clock)
       case Finalize => FinalizeStep(cfg, s, s')
       case Crash => s' == s.(pending := [], cache := None, history := s.history + [Restart], clock := s'.clock)
  }

  ghost function Reconciled(cfg: Config, s: State, i: nat, l: Label, now: nat): (r: Revision)
    requires i < |s.stored.revs| && l.Reconcile?
  {
    RevisionAfter(s.stored.revs[i], l.load, cfg.urls, cfg.node, l.cache.Some?, Run(s.history), now,
                  l.patchOk, l.updateOk)
  }

  /** A fresh node: no revision, nothing cached, no history. */
  ghost predicate Initial(s: State) {
    s.desired != "" && s.stored == Stored([], [], 0) && s.pending == [] && s.cache == None && s.history == []
  }

  ghost predicate StepAt(cfg: Config, trace: seq<State>, labels: seq<Label>, i: nat)
    requires i < |labels| < |trace|
  {
    Step(cfg, trace[i], labels[i], trace[i + 1])
  }

  ghost predicate IsRun(cfg: Config, trace: seq<State>, labels: seq<Label>) {
    |trace| == |labels| + 1 && forall i :: 0 <= i < |labels| ==> StepAt(cfg, trace, labels, i)
  }

  // ---------------------------------------------------------------------
  // The invariant

  ghost predicate AtMostOnePublished(revs: seq<Revision>) {
    forall a, b :: a in revs && b in revs && Published(a) && Published(b) ==> a.version == b.version
  }

  ghost predicate NonePublished(revs: seq<Revision>) {
    forall r :: r in revs ==> !Published(r)
  }

  /** What was listed is what is stored, or the stored one has moved on and a write will conflict. */
  ghost predicate Coherent(revs: seq<Revision>, seen: Revision) {
    forall r :: r in revs && r.version == seen.version ==>
      seen.resourceVersion <= r.resourceVersion && (r.resourceVersion == seen.resourceVersion ==> r == seen)
  }

  ghost predicate AllDeletes(ws: seq<Write>) {
    forall i :: 0 <= i < |ws| ==> ws[i].Delete?
  }

  /** A publication to come, of a revision that was untainted and unpublished when listed, then deletions. */
  ghost predicate Publishing(revs: seq<Revision>, ws: seq<Write>) {
    && ws != [] && ws[0].Publish? && AllDeletes(ws[1..])
    && Coherent(revs, ws[0].seen) && !Tainted(ws[0].seen) && !Published(ws[0].seen)
  }

  ghost predicate Unpublishing(revs: seq<Revision>, ws: seq<Write>) {
    && ws != [] && ws[0].Unpublish? && Coherent(revs, ws[0].seen) && Published(ws[0].seen)
    && (forall r :: r in revs && Published(r) ==> r.version == ws[0].seen.version)
    && (AllDeletes(ws[1..]) || (Publishing(revs, ws[1..]) && ws[1].seen.version != ws[0].seen.version))
  }

  ghost predicate Creating(revs: seq<Revision>, ws: seq<Write>) {
    |ws| == 1 && ws[0].Create? && ws[0].version != ""
  }

  ghost predicate PendingOk(revs: seq<Revision>, ws: seq<Write>) {
    || Creating(revs, ws)
    || AllDeletes(ws)
    || (Publishing(revs, ws) && NonePublished(revs))
    || Unpublishing(revs, ws)
  }

  ghost predicate WellFormed(revs: seq<Revision>) {
    Distinct(revs) && AtMostOnePublished(revs) && forall r :: r in revs ==> r.version != ""
  }

  ghost predicate Inv(s: State) {
    s.desired != "" && WellFormed(s.stored.revs) && PendingOk(s.stored.revs, s.pending)
  }

  // ---------------------------------------------------------------------
  // What the three kinds of write do to membership

  lemma IndexOfMember(revs: seq<Revision>, r: Revision)
    requires Distinct(revs) && r in revs
    ensures IndexOf(revs, r.version) >= 0 && revs[IndexOf(revs, r.version)] == r
  {
  }

  lemma Replaced(revs: seq<Revision>, i: nat, n: Revision)
    requires Distinct(revs) && i < |revs| && n.version == revs[i].version
    ensures Distinct(revs[i := n])
    ensures forall r :: r in revs[i := n] <==> r == n || (r in revs && r.version != n.version)
  {
    var t := revs[i := n];
    assert t[i] == n;
    forall r | r in revs && r.version != n.version ensures r in t {
      var j :| 0 <= j < |revs| && revs[j] == r;
      assert t[j] == r;
    }
    forall r | r in t && r != n ensures r in revs && r.version != n.version {
      var j :| 0 <= j < |t| && t[j] == r;
      assert j != i && revs[j] == r;
    }
  }

  lemma Removed(revs: seq<Revision>, i: nat)
    requires Distinct(revs) && i < |revs|
    ensures var t := revs[..i] + revs[i + 1..];
            && Distinct(t) && |t| == |revs| - 1
            && forall r :: r in t <==> r in revs && r.version != revs[i].version
  {
  }

  // ---------------------------------------------------------------------
  // The plan of a reconcile fits the invariant

  lemma {:induction false} UnpublishesAre(list: seq<Revision>, v: string)
    requires Distinct(list) && AtMostOnePublished(list)
    ensures |Unpublishes(list, v)| <= 1
    ensures Unpublishes(list, v) == [] ==> forall r :: r in list && Published(r) ==> r.version == v
    ensures Unpublishes(list, v) != [] ==>
              var w := Unpublishes(list, v)[0];
              w.Unpublish? && w.seen in list && Published(w.seen) && w.seen.version != v
  {
    if list != [] {
      var init, last := list[..|list| - 1], list[|list| - 1];
      assert list == init + [last];
      assert forall i :: 0 <= i < |init| ==> init[i].version != last.version;
      UnpublishesAre(init, v);
    }
  }

  lemma {:induction false} ToPublishIs(list: seq<Revision>, v: string)
    ensures match ToPublish(list, v)
            case Some(r) => r in list && r.version == v && !Published(r)
            case None => forall r :: r in list && r.version == v ==> Published(r)
  {
    if list != [] {
      ToPublishIs(list[..|list| - 1], v);
      assert list == list[..|list| - 1] + [list[|list| - 1]];
    }
  }

  lemma SameVersionSame(revs: seq<Revision>, a: Revision, b: Revision)
    requires Distinct(revs) && a in revs && b in revs && a.version == b.version
    ensures a == b
  {
  }

  /** The selected version, if any, is that of the topmost revision. */
  lemma SelectedIsTopmost(desired: string, revs: seq<Revision>, r: Revision)
    requires Distinct(revs) && r in revs && r.version == SelectedVersion(Sorted(desired, revs)) && r.version != ""
    ensures IsTopmost(desired, revs, r)
  {
    var t := Sorted(desired, revs);
    SelectionIsTop(desired, revs);
    SortedSame(desired, revs);
    var i := LastUntainted(t);
    assert t[i] in t;
    SameVersionSame(revs, r, t[i]);
  }

  lemma PlanFits(desired: string, resources: seq<Resource>, revs: seq<Revision>)
    requires desired != "" && WellFormed(revs)
    ensures PendingOk(revs, Plan(desired, resources, revs))
  {
    var plan := Plan(desired, resources, revs);
    if CountVersion(revs, desired) == 1 {
      UpdatesFit(desired, revs);
    }
  }

  /** At most one revision to unpublish, at most an untainted one to publish, then deletions. */
  ghost predicate PartsOf(revs: seq<Revision>, v: string, us: seq<Write>, ps: seq<Write>) {
    && |us| <= 1 && |ps| <= 1
    && (us == [] ==> forall r :: r in revs && Published(r) ==> r.version == v)
    && (us != [] ==> us[0].Unpublish? && us[0].seen in revs && Published(us[0].seen) && us[0].seen.version != v)
    && (ps == [] ==> forall r :: r in revs && r.version == v ==> Published(r))
    && (ps != [] ==> ps[0].Publish? && ps[0].seen in revs && !Published(ps[0].seen) && ps[0].seen.version == v
                     && !Tainted(ps[0].seen))
  }

  lemma UpdateParts(desired: string, revs: seq<Revision>) returns (us: seq<Write>, ps: seq<Write>)
    requires WellFormed(revs)
    ensures Updates(Sorted(desired, revs)) == us + ps + Deletes(Sorted(desired, revs))
    ensures PartsOf(revs, SelectedVersion(Sorted(desired, revs)), us, ps)
    ensures ps != [] ==> IsTopmost(desired, revs, ps[0].seen)
  {
    var list := Sorted(desired, revs);
    var v := SelectedVersion(list);
    SortedSame(desired, revs);
    UnpublishesAre(list, v);
    ToPublishIs(list, v);
    us, ps := Unpublishes(list, v), Publishes(list, v);
    if ps != [] {
      SelectedIsTopmost(desired, revs, ps[0].seen);
    }
  }

  lemma UpdatesFit(desired: string, revs: seq<Revision>)
    requires WellFormed(revs)
    ensures PendingOk(revs, Updates(Sorted(desired, revs)))
  {
    var us, ps := UpdateParts(desired, revs);
    PartsFit(revs, SelectedVersion(Sorted(desired, revs)), us, ps, Deletes(Sorted(desired, revs)));
  }

  lemma PartsFit(revs: seq<Revision>, v: string, us: seq<Write>, ps: seq<Write>, ds: seq<Write>)
    requires PartsOf(revs, v, us, ps) && AllDeletes(ds) && Distinct(revs) && AtMostOnePublished(revs)
    ensures PendingOk(revs, us + ps + ds)
  {
  }

  // ---------------------------------------------------------------------
  // Every step keeps the invariant

  /** Writing status over the listed copy succeeds only if that copy is still the stored one. */
  lemma StatusWrite(s: Stored, sent: Revision, seen: Revision, after: Stored) returns (i: nat, n: Revision)
    requires Distinct(s.revs) && Coherent(s.revs, seen) && UpdateStatus(s, sent) == Some(after)
    requires sent == WithPublished(seen) || sent == WithoutPublished(seen)
    ensures i < |s.revs| && s.revs[i] == seen && seen in s.revs
    ensures n == sent.(resourceVersion := seen.resourceVersion + 1) && after == s.(revs := s.revs[i := n])
  {
    i := IndexOf(s.revs, sent.version);
    assert s.revs[i] in s.revs;
    n := sent.(resourceVersion := seen.resourceVersion + 1);
  }

  lemma CoherentLater(revs: seq<Revision>, later: seq<Revision>, seen: Revision, n: Revision, was: Revision)
    requires Coherent(revs, seen) && was in revs && n.version == was.version && n.resourceVersion >= was.resourceVersion
    requires n != was ==> n.resourceVersion > was.resourceVersion
    requires forall r :: r in later ==> r == n || r in revs
    ensures Coherent(later, seen)
  {
  }

  lemma SendUnpublish(s: State, s': State, u: Revision)
    requires Inv(s) && SendStep(s, s') && s.pending[0] == Unpublish(u)
    ensures Inv(s') && u in s.stored.revs && NonePublished(s'.stored.revs)
    ensures forall r :: r in s'.stored.revs <==> r == Unpublished(u) || (r in s.stored.revs && r.version != u.version)
    ensures |s'.stored.revs| == |s.stored.revs| && s'.stored == s.stored.(revs := s'.stored.revs)
  {
    var revs, ws := s.stored.revs, s.pending;
    assert Unpublishing(revs, ws);
    var i, n := StatusWrite(s.stored, WithoutPublished(u), u, s'.stored);
    Replaced(revs, i, n);
    assert !Published(n);
    if Publishing(revs, ws[1..]) {
      CoherentLater(revs, s'.stored.revs, ws[1].seen, n, u);
      assert Publishing(s'.stored.revs, s'.pending);
    }
  }

  lemma SendPublish(s: State, s': State, c: Revision)
    requires Inv(s) && SendStep(s, s') && s.pending[0] == Publish(c)
    ensures Inv(s') && c in s.stored.revs && !Tainted(c) && NonePublished(s.stored.revs) && AllDeletes(s'.pending)
    ensures forall r :: r in s'.stored.revs <==> r == Republished(c) || (r in s.stored.revs && r.version != c.version)
    ensures forall r :: r in s'.stored.revs && Published(r) ==> r.version == c.version
    ensures |s'.stored.revs| == |s.stored.revs| && s'.stored == s.stored.(revs := s'.stored.revs)
  {
    var revs, ws := s.stored.revs, s.pending;
    assert Publishing(revs, ws) && NonePublished(revs);
    var i, n := StatusWrite(s.stored, WithPublished(c), c, s'.stored);
    Replaced(revs, i, n);
    assert Published(n);
  }

  lemma SendDelete(s: State, s': State, v: string)
    requires Inv(s) && SendStep(s, s') && s.pending[0] == Delete(v)
    ensures Inv(s') && AllDeletes(s'.pending) && |s'.stored.revs| == |s.stored.revs| - 1
    ensures forall r :: r in s'.stored.revs <==> r in s.stored.revs && r.version != v
    ensures s'.stored.created == s.stored.created
    ensures exists r :: r in s.stored.revs && r.version == v && s'.stored.terminating == s.stored.terminating + [r]
  {
    var i := IndexOf(s.stored.revs, v);
    assert AllDeletes(s.pending);
    Removed(s.stored.revs, i);
    assert s.stored.revs[i] in s.stored.revs;
  }

  lemma SendCreate(s: State, s': State, v: string, res: seq<Resource>)
    requires Inv(s) && SendStep(s, s') && s.pending[0] == Create(v, res)
    ensures Inv(s') && s'.pending == []
    ensures s'.stored.revs == s.stored.revs + [NewRevision(s.stored.created, v, res, s'.clock)]
    ensures s'.stored.created == s.stored.created + 1 && s'.stored.terminating == s.stored.terminating
    ensures forall r :: r in s.stored.revs || r in s.stored.terminating ==> r.version != v
  {
    var revs := s.stored.revs;
    var n := NewRevision(s.stored.created, v, res, s'.clock);
    assert Creating(revs, s.pending);
    var later := revs + [n];
    assert forall r :: r in later <==> r in revs || r == n;
  }

  lemma OneEvolves(cfg: Config, s: State, l: Label, s': State) returns (r: Revision, n: Revision)
    requires Distinct(s.stored.revs) && l.Reconcile? && Step(cfg, s, l, s')
    ensures r in s.stored.revs && Evolves(r, n, s'.clock) && r.version == l.version && Distinct(s'.stored.revs)
    ensures forall x :: x in s'.stored.revs <==> x == n || (x in s.stored.revs && x.version != r.version)
    ensures |s'.stored.revs| == |s.stored.revs|
  {
    var revs := s.stored.revs;
    var i := IndexOf(revs, l.version);
    r, n := revs[i], Reconciled(cfg, s, i, l, s'.clock);
    assert r in revs;
    ReconciledEvolves(cfg, s, i, l, s'.clock);
    Replaced(revs, i, n);
  }

  lemma ReconciledEvolves(cfg: Config, s: State, i: nat, l: Label, now: nat)
    requires l.Reconcile? && i < |s.stored.revs| && (l.load.NotPublished? || Published(s.stored.revs[i]))
    ensures Evolves(s.stored.revs[i], Reconciled(cfg, s, i, l, now), now)
  {
    ReconcileEvolves(s.stored.revs[i], l.load, cfg.urls, cfg.node, l.cache.Some?, Run(s.history), now,
                     l.patchOk, l.updateOk);
  }

  /** A revision's reconcile: one revision evolves, the others stay. */
  lemma ReconcileKeeps(cfg: Config, s: State, l: Label, s': State) returns (r: Revision, n: Revision)
    requires Inv(s) && l.Reconcile? && Step(cfg, s, l, s')
    ensures r in s.stored.revs && Evolves(r, n, s'.clock) && r.version == l.version
    ensures forall x :: x in s'.stored.revs <==> x == n || (x in s.stored.revs && x.version != r.version)
    ensures |s'.stored.revs| == |s.stored.revs| && s'.stored == s.stored.(revs := s'.stored.revs)
    ensures Inv(s')
  {
    var revs := s.stored.revs;
    r, n := OneEvolves(cfg, s, l, s');
    EvolvedPending(revs, s'.stored.revs, s.pending, r, n, s'.clock);
    EvolvedForm(revs, s'.stored.revs, r, n, s'.clock);
  }

  lemma EvolvedForm(revs: seq<Revision>, later: seq<Revision>, r: Revision, n: Revision, now: nat)
    requires WellFormed(revs) && r in revs && Evolves(r, n, now) && Distinct(later)
    requires forall x :: x in later <==> x == n || (x in revs && x.version != r.version)
    ensures WellFormed(later)
  {
  }

  lemma EvolvedPending(revs: seq<Revision>, later: seq<Revision>, ws: seq<Write>, r: Revision, n: Revision, now: nat)
    requires PendingOk(revs, ws) && r in revs && Evolves(r, n, now)
    requires forall x :: x in later <==> x == n || (x in revs && x.version != r.version)
    ensures PendingOk(later, ws)
  {
  }

  lemma StepKeepsInv(cfg: Config, s: State, l: Label, s': State)
    requires Inv(s) && Step(cfg, s, l, s')
    ensures Inv(s')
  {
    match l
    case Edit(_, _) =>
    case Begin =>
      PlanFits(s.desired, s.resources, s.stored.revs);
    case Send =>
      match s.pending[0] {
        case Create(v, res) => SendCreate(s, s', v, res);
        case Unpublish(u) => SendUnpublish(s, s', u);
        case Publish(c) => SendPublish(s, s', c);
        case Delete(v) => SendDelete(s, s', v);
      }
    case GiveUp =>
    case Reconcile(_, _, _, _, _, _) =>
      var r, n := ReconcileKeeps(cfg, s, l, s');
    case Stream(_) =>
    case Finalize =>
    case Crash =>
  }

  /** In every run, with any interleaving and any failures, the invariant holds at every moment. */
  lemma {:induction false} RunKeepsInv(cfg: Config, trace: seq<State>, labels: seq<Label>, i: nat)
    requires IsRun(cfg, trace, labels) && Inv(trace[0]) && i < |trace|
    ensures Inv(trace[i])
  {
    if i > 0 {
      RunKeepsInv(cfg, trace, labels, i - 1);
      assert StepAt(cfg, trace, labels, i - 1);
      StepKeepsInv(cfg, trace[i - 1], labels[i - 1], trace[i]);
    }
  }

  // ---------------------------------------------------------------------
  // Objects that are being deleted

  ghost predicate Holds(c: Stored, r: Revision) {
    r in c.revs || r in c.terminating
  }

  /** No two objects the API holds have the same UID or the same version, and at most one is published. Nothing but
      deletions goes on while an object is terminating. */
  ghost predicate Held(s: State) {
    var c := s.stored;
    && (forall r :: Holds(c, r) ==> r.uid < c.created)
    && (forall a, b :: Holds(c, a) && Holds(c, b) && a.uid == b.uid ==> a.version == b.version)
    && Distinct(c.terminating) && AtMostOnePublished(c.terminating)
    && (forall r, t :: r in c.revs && t in c.terminating ==> r.version != t.version && !(Published(r) && Published(t)))
    && (c.terminating != [] ==> AllDeletes(s.pending))
  }

  /** Replacing a revision by one that is published only if it was, or if nothing was, keeps all of this. */
  lemma ReplacedHeld(s: State, s': State, r: Revision, n: Revision)
    requires Held(s) && r in s.stored.revs && n.uid == r.uid && n.version == r.version
    requires s'.stored == s.stored.(revs := s'.stored.revs) && (s.stored.terminating != [] ==> AllDeletes(s'.pending))
    requires forall x :: x in s'.stored.revs <==> x == n || (x in s.stored.revs && x.version != r.version)
    requires Published(n) ==> Published(r) || s.stored.terminating == []
    ensures Held(s')
  {
  }

  lemma DeletedHeld(s: State, s': State, v: string)
    requires Inv(s) && Held(s) && SendStep(s, s') && s.pending[0] == Delete(v)
    ensures Held(s')
  {
    SendDelete(s, s', v);
    var r :| r in s.stored.revs && r.version == v && s'.stored.terminating == s.stored.terminating + [r];
    RetiredHeld(s, s', r);
  }

  lemma RetiredHeld(s: State, s': State, r: Revision)
    requires WellFormed(s.stored.revs) && Held(s) && AllDeletes(s'.pending) && r in s.stored.revs
    requires s'.stored.created == s.stored.created && s'.stored.terminating == s.stored.terminating + [r]
    requires forall x :: x in s'.stored.revs <==> x in s.stored.revs && x.version != r.version
    ensures Held(s')
  {
    var c, c' := s.stored, s'.stored;
    assert forall x :: x in c'.terminating <==> x in c.terminating || x == r;
    assert forall x :: Holds(c', x) ==> Holds(c, x);
    forall i, j | 0 <= i < j < |c'.terminating| ensures c'.terminating[i].version != c'.terminating[j].version {
      assert c'.terminating[i] == c.terminating[i] && c.terminating[i] in c.terminating;
    }
  }

  lemma CreatedHeld(s: State, s': State, v: string, res: seq<Resource>)
    requires Inv(s) && Held(s) && SendStep(s, s') && s.pending[0] == Create(v, res)
    ensures Held(s')
  {
    SendCreate(s, s', v, res);
    assert s.stored.terminating == [] by {
      assert !AllDeletes(s.pending);
    }
    var n := NewRevision(s.stored.created, v, res, s'.clock);
    assert forall x :: x in s'.stored.revs <==> x in s.stored.revs || x == n;
  }

  lemma FinalizedHeld(cfg: Config, s: State, s': State)
    requires Held(s) && FinalizeStep(cfg, s, s')
    ensures Held(s')
  {
    assert forall x :: x in s'.stored.terminating ==> x in s.stored.terminating;
  }

  lemma SentHeld(s: State, s': State)
    requires Inv(s) && Held(s) && SendStep(s, s')
    ensures Held(s')
  {
    match s.pending[0]
    case Create(v, res) => CreatedHeld(s, s', v, res);
    case Unpublish(u) =>
      SendUnpublish(s, s', u);
      assert !AllDeletes(s.pending);
      ReplacedHeld(s, s', u, Unpublished(u));
    case Publish(c) =>
      SendPublish(s, s', c);
      assert !AllDeletes(s.pending);
      ReplacedHeld(s, s', c, Republished(c));
    case Delete(v) => DeletedHeld(s, s', v);
  }

  lemma StepKeepsHeld(cfg: Config, s: State, l: Label, s': State)
    requires Inv(s) && Held(s) && Step(cfg, s, l, s')
    ensures Held(s')
  {
    match l
    case Send => SentHeld(s, s');
    case Reconcile(_, _, _, _, _, _) =>
      var r, n := ReconcileKeeps(cfg, s, l, s');
      ReplacedHeld(s, s', r, n);
    case Finalize => FinalizedHeld(cfg, s, s');
    case _ =>
  }

  lemma {:induction false} RunKeepsHeld(cfg: Config, trace: seq<State>, labels: seq<Label>, i: nat)
    requires IsRun(cfg, trace, labels) && Inv(trace[0]) && Held(trace[0]) && i < |trace|
    ensures Held(trace[i])
  {
    if i > 0 {
      RunKeepsHeld(cfg, trace, labels, i - 1);
      RunKeepsInv(cfg, trace, labels, i - 1);
      assert StepAt(cfg, trace, labels, i - 1);
      StepKeepsHeld(cfg, trace[i - 1], labels[i - 1], trace[i]);
    }
  }

  lemma InitialInv(s: State)
    requires Initial(s)
    ensures Inv(s) && Held(s)
  {
  }

  lemma AllDistinct(s: State)
    requires Inv(s) && Held(s)
    ensures Distinct(All(s.stored)) && AtMostOnePublished(All(s.stored))
  {
    var c := s.stored;
    forall i, j | 0 <= i < j < |All(c)| ensures All(c)[i].version != All(c)[j].version {
      if i < |c.revs| <= j {
        assert All(c)[i] in c.revs && All(c)[j] in c.terminating;
      }
    }
    assert forall r :: r in All(c) ==> Holds(c, r);
  }

  /**
   In every run from a fresh node, with any interleaving, any failures and any timestamps, at every moment at
   most one of the revisions the API holds, terminating ones included, is published, and no two have the same
   version.
   */
  lemma OnePublishedAlways(cfg: Config, trace: seq<State>, labels: seq<Label>, i: nat)
    requires IsRun(cfg, trace, labels) && Initial(trace[0]) && i < |trace|
    ensures Distinct(All(trace[i].stored)) && AtMostOnePublished(All(trace[i].stored))
  {
    InitialInv(trace[0]);
    RunKeepsInv(cfg, trace, labels, i);
    RunKeepsHeld(cfg, trace, labels, i);
    AllDistinct(trace[i]);
  }

  // ---------------------------------------------------------------------
  // Time and order

  /** The invariant, and no revision sorts by an instant still to come. Equal instants are allowed. */
  ghost predicate Sound(s: State) {
    Inv(s) && forall r :: r in s.stored.revs ==> SortTime(r) <= s.clock
  }

  lemma StepKeepsSound(cfg: Config, s: State, l: Label, s': State)
    requires Sound(s) && Step(cfg, s, l, s')
    ensures Sound(s')
  {
    StepKeepsInv(cfg, s, l, s');
    match l
    case Send =>
      match s.pending[0] {
        case Create(v, res) => SendCreate(s, s', v, res);
        case Unpublish(u) =>
          SendUnpublish(s, s', u);
          assert SortTime(Unpublished(u)) == SortTime(u);
        case Publish(c) =>
          SendPublish(s, s', c);
          assert SortTime(Republished(c)) == SortTime(c);
        case Delete(v) => SendDelete(s, s', v);
      }
    case Reconcile(_, _, _, _, _, _) =>
      var r, n := ReconcileKeeps(cfg, s, l, s');
    case _ =>
  }

  lemma {:induction false} RunKeepsSound(cfg: Config, trace: seq<State>, labels: seq<Label>, i: nat)
    requires IsRun(cfg, trace, labels) && Sound(trace[0]) && i < |trace|
    ensures Sound(trace[i])
  {
    if i > 0 {
      RunKeepsSound(cfg, trace, labels, i - 1);
      assert StepAt(cfg, trace, labels, i - 1);
      StepKeepsSound(cfg, trace[i - 1], labels[i - 1], trace[i]);
    }
  }

  /** What is still listed is listed in the same order, which is what decides between equal instants. */
  ghost predicate KeepsOrder(revs: seq<Revision>, later: seq<Revision>) {
    forall a, b :: IndexOf(later, a) >= 0 && IndexOf(later, b) >= 0 ==>
      (IndexOf(later, a) < IndexOf(later, b) <==> IndexOf(revs, a) < IndexOf(revs, b))
  }

  lemma ReplacedOrder(revs: seq<Revision>, i: nat, n: Revision)
    requires Distinct(revs) && i < |revs| && n.version == revs[i].version
    ensures KeepsOrder(revs, revs[i := n])
  {
    forall v ensures IndexOf(revs[i := n], v) == IndexOf(revs, v) {
      ReplacedIndex(revs, i, n, v);
    }
  }

  lemma ReplacedIndex(revs: seq<Revision>, i: nat, n: Revision, v: string)
    requires Distinct(revs) && i < |revs| && n.version == revs[i].version
    ensures IndexOf(revs[i := n], v) == IndexOf(revs, v)
  {
    var later := revs[i := n];
    var a, b := IndexOf(revs, v), IndexOf(later, v);
    assert forall j :: 0 <= j < |revs| ==> later[j].version == revs[j].version;
    assert a >= 0 ==> later[a].version == v;
    assert b >= 0 ==> revs[b].version == v;
  }

  lemma RemovedOrder(revs: seq<Revision>, i: nat)
    requires Distinct(revs) && i < |revs|
    ensures KeepsOrder(revs, revs[..i] + revs[i + 1..])
  {
    var later := revs[..i] + revs[i + 1..];
    forall v | IndexOf(later, v) >= 0
      ensures IndexOf(revs, v) == if IndexOf(later, v) < i then IndexOf(later, v) else IndexOf(later, v) + 1
    {
      RemovedIndex(revs, i, v);
    }
  }

  lemma RemovedIndex(revs: seq<Revision>, i: nat, v: string)
    requires Distinct(revs) && i < |revs| && IndexOf(revs[..i] + revs[i + 1..], v) >= 0
    ensures var b := IndexOf(revs[..i] + revs[i + 1..], v); IndexOf(revs, v) == if b < i then b else b + 1
  {
    var later := revs[..i] + revs[i + 1..];
    var b := IndexOf(later, v);
    var c := if b < i then b else b + 1;
    assert later[b] == revs[c];
  }

  lemma SentOrder(s: State, s': State)
    requires Inv(s) && SendStep(s, s') && !s.pending[0].Create?
    ensures KeepsOrder(s.stored.revs, s'.stored.revs)
  {
    match s.pending[0]
    case Unpublish(u) =>
      assert Unpublishing(s.stored.revs, s.pending);
      var i, n := StatusWrite(s.stored, WithoutPublished(u), u, s'.stored);
      ReplacedOrder(s.stored.revs, i, n);
    case Publish(c) =>
      assert Publishing(s.stored.revs, s.pending);
      var i, n := StatusWrite(s.stored, WithPublished(c), c, s'.stored);
      ReplacedOrder(s.stored.revs, i, n);
    case Delete(v) => RemovedOrder(s.stored.revs, IndexOf(s.stored.revs, v));
  }

  lemma StepKeepsOrder(cfg: Config, s: State, l: Label, s': State)
    requires Inv(s) && Step(cfg, s, l, s') && !(l.Send? && s.pending[0].Create?)
    ensures KeepsOrder(s.stored.revs, s'.stored.revs)
  {
    match l
    case Send => SentOrder(s, s');
    case Reconcile(_, _, _, _, _, _) =>
      var i := IndexOf(s.stored.revs, l.version);
      ReconciledEvolves(cfg, s, i, l, s'.clock);
      ReplacedOrder(s.stored.revs, i, Reconciled(cfg, s, i, l, s'.clock));
    case _ =>
  }
}

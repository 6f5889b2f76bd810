/**
 While the desired version stays and no revision is created, the controller does
 not go back and forth. From the moment a reconcile that was running at the start is
 over, each publication is of a version not published since, so there are at most as
 many as there are untainted revisions; and what such a leftover reconcile publishes
 can come back once. All this holds although publishing rewrites the timestamp the
 next sort reads, and although several timestamps may be equal.
 */
module NoFlapping {
  import opened Wrappers
  import opened StatRuns
  import opened Snapshots
  import opened Revisions
  import opened Reconciler
  import opened RevisionController
  import opened Protocol

  predicate SendsPublish(s: State, l: Label) {
    l.Send? && s.pending != [] && s.pending[0].Publish?
  }

  predicate SendsUnpublish(s: State, l: Label) {
    l.Send? && s.pending != [] && s.pending[0].Unpublish?
  }

  predicate SendsCreate(s: State, l: Label) {
    l.Send? && s.pending != [] && s.pending[0].Create?
  }

  /** A stretch of a run with one desired version and no creation. */
  ghost predicate Stretch(cfg: Config, trace: seq<State>, labels: seq<Label>) {
    && IsRun(cfg, trace, labels)
    && (forall i :: 0 <= i < |trace| ==> trace[i].desired == trace[0].desired)
    && (forall i {:trigger labels[i]} :: 0 <= i < |labels| ==> !SendsCreate(trace[i], labels[i]))
  }

  /** Such a stretch from a sound state. */
  ghost predicate Course(cfg: Config, trace: seq<State>, labels: seq<Label>) {
    Stretch(cfg, trace, labels) && Sound(trace[0])
  }

  /** Such a stretch that begins between two EnvoyConfig reconciles. */
  ghost predicate Window(cfg: Config, trace: seq<State>, labels: seq<Label>) {
    Course(cfg, trace, labels) && trace[0].pending == []
  }

  /** The versions published by the first `n` steps, in order. */
  ghost function PublishLog(trace: seq<State>, labels: seq<Label>, n: nat): (log: seq<string>)
    requires n <= |labels| < |trace|
  {
    if n == 0 then []
    else
      var earlier := PublishLog(trace, labels, n - 1);
      if SendsPublish(trace[n - 1], labels[n - 1]) then earlier + [trace[n - 1].pending[0].seen.version] else earlier
  }

  // ---------------------------------------------------------------------
  // The window invariant

  /** Whatever the window has published is by now tainted, or still published and still on top. */
  ghost predicate Settled(desired: string, revs: seq<Revision>, log: seq<string>) {
    forall r :: r in revs && r.version in log ==> Tainted(r) || (Published(r) && IsTopmost(desired, revs, r))
  }

  /** A publication that can still go through is a new one, of the top revision. */
  ghost predicate PublishReady(desired: string, revs: seq<Revision>, w: Write, log: seq<string>) {
    w.Publish? && w.seen in revs ==> w.seen.version !in log && IsTopmost(desired, revs, w.seen)
  }

  /** What is to be unpublished is tainted, or not published by the window. */
  ghost predicate UnpublishReady(revs: seq<Revision>, w: Write, log: seq<string>) {
    w.Unpublish? && w.seen in revs ==> Tainted(w.seen) || w.seen.version !in log
  }

  ghost predicate PendingReady(desired: string, revs: seq<Revision>, ws: seq<Write>, log: seq<string>) {
    && (ws != [] ==> PublishReady(desired, revs, ws[0], log) && UnpublishReady(revs, ws[0], log))
    && (|ws| > 1 && ws[0].Unpublish? && ws[0].seen in revs ==> PublishReady(desired, revs, ws[1], log))
  }

  ghost predicate WindowInv(s: State, log: seq<string>) {
    Sound(s) && Settled(s.desired, s.stored.revs, log) && PendingReady(s.desired, s.stored.revs, s.pending, log)
  }

  lemma BeginReady(s: State, log: seq<string>)
    requires Sound(s) && Settled(s.desired, s.stored.revs, log)
    ensures PendingReady(s.desired, s.stored.revs, Plan(s.desired, s.resources, s.stored.revs), log)
  {
    var d, revs := s.desired, s.stored.revs;
    if CountVersion(revs, d) == 1 {
      var us, ps := UpdateParts(d, revs);
      var ds := Deletes(Sorted(d, revs));
      assert forall i :: 0 <= i < |ds| ==> ds[i].Delete?;
      if us != [] && !Tainted(us[0].seen) && us[0].seen.version in log {
        SelectionExists(d, revs, us[0].seen);
      }
      PartsReady(d, revs, us, ps, ds, log);
    }
  }

  /** The topmost revision is the selected one. */
  lemma SelectionExists(desired: string, revs: seq<Revision>, r: Revision)
    requires Distinct(revs) && IsTopmost(desired, revs, r)
    ensures SelectedVersion(Sorted(desired, revs)) == r.version
  {
    var t := Sorted(desired, revs);
    SelectionIsTop(desired, revs);
    SortedSame(desired, revs);
    assert forall x :: x in revs ==> x in t;
    if LastUntainted(t) >= 0 {
      TopUnique(desired, revs, r, t[LastUntainted(t)]);
    }
  }

  lemma PartsReady(d: string, revs: seq<Revision>, us: seq<Write>, ps: seq<Write>, ds: seq<Write>, log: seq<string>)
    requires |us| <= 1 && |ps| <= 1 && AllDeletes(ds) && Settled(d, revs, log)
    requires us != [] ==> us[0].Unpublish? && UnpublishReady(revs, us[0], log)
    requires ps != [] ==> ps[0].Publish? && !Published(ps[0].seen) && IsTopmost(d, revs, ps[0].seen)
    ensures PendingReady(d, revs, us + ps + ds, log)
  {
    var ws := us + ps + ds;
    if ps != [] {
      assert PublishReady(d, revs, ps[0], log);
    }
    if us != [] {
      assert ws[0] == us[0];
      assert |ws| > 1 ==> ws[1] == if ps != [] then ps[0] else ds[0];
    } else {
      assert ws != [] ==> ws[0] == if ps != [] then ps[0] else ds[0];
    }
  }

  /** A listed copy that is stored after a revision evolved was stored before, and did not evolve. */
  lemma StillListed(revs: seq<Revision>, later: seq<Revision>, seen: Revision, r: Revision, n: Revision, now: nat)
    requires Coherent(revs, seen) && r in revs && Evolves(r, n, now) && seen in later
    requires forall x :: x in later <==> x == n || (x in revs && x.version != r.version)
    ensures seen in revs && (seen.version == r.version ==> seen == r == n)
  {
  }

  /**
   The topmost revision stays so if it moves to no earlier an instant, the other untainted ones keep theirs, and the
   list keeps its order: what ties with it now came no later before, and stands earlier in the list.
   */
  lemma TopmostCarried(desired: string, revs: seq<Revision>, later: seq<Revision>, r: Revision, r': Revision)
    requires IsTopmost(desired, revs, r) && KeepsOrder(revs, later)
    requires r' in later && !Tainted(r') && r'.version == r.version && SortTime(r') >= SortTime(r)
    requires forall x :: x in later && !Tainted(x) && x.version != r.version ==>
               exists y :: y in revs && !Tainted(y) && y.version == x.version && SortTime(y) == SortTime(x)
    ensures IsTopmost(desired, later, r')
  {
    forall x | x in later && !Tainted(x) && x.version != r'.version ensures Before(desired, later, x, r') {
      var y :| y in revs && !Tainted(y) && y.version == x.version && SortTime(y) == SortTime(x);
      assert Before(desired, revs, y, r);
    }
  }

  /** The others, when one revision is replaced by another that is as tainted and sorts by the same instant. */
  lemma OthersKept(desired: string, revs: seq<Revision>, later: seq<Revision>, top: Revision, r: Revision, n: Revision)
    requires IsTopmost(desired, revs, top) && KeepsOrder(revs, later) && r in revs && top.version != r.version
    requires n.version == r.version && (Tainted(r) ==> Tainted(n)) && SortTime(n) == SortTime(r)
    requires forall x :: x in later <==> x == n || (x in revs && x.version != r.version)
    ensures IsTopmost(desired, later, top)
  {
    forall x | x in later && !Tainted(x) && x.version != top.version
      ensures exists y :: y in revs && !Tainted(y) && y.version == x.version && SortTime(y) == SortTime(x)
    {
      assert (if x == n then r else x) in revs;
    }
    TopmostCarried(desired, revs, later, top, top);
  }

  /** The topmost one itself replaced. */
  lemma TopReplaced(desired: string, revs: seq<Revision>, later: seq<Revision>, r: Revision, n: Revision)
    requires IsTopmost(desired, revs, r) && KeepsOrder(revs, later)
    requires n.version == r.version && !Tainted(n) && SortTime(n) >= SortTime(r)
    requires forall x :: x in later <==> x == n || (x in revs && x.version != r.version)
    ensures IsTopmost(desired, later, n)
  {
    TopmostCarried(desired, revs, later, r, n);
  }

  lemma ReconcileReady(cfg: Config, s: State, l: Label, s': State, log: seq<string>)
    requires WindowInv(s, log) && l.Reconcile? && Step(cfg, s, l, s')
    ensures WindowInv(s', log)
  {
    StepKeepsSound(cfg, s, l, s');
    StepKeepsOrder(cfg, s, l, s');
    var r, n := ReconcileKeeps(cfg, s, l, s');
    SettledKept(s, s', log, r, n);
    PendingKept(s, s', log, r, n);
  }

  lemma PendingKept(s: State, s': State, log: seq<string>, r: Revision, n: Revision)
    requires WindowInv(s, log) && r in s.stored.revs && Evolves(r, n, s'.clock) && s'.pending == s.pending
    requires KeepsOrder(s.stored.revs, s'.stored.revs)
    requires forall x :: x in s'.stored.revs <==> x == n || (x in s.stored.revs && x.version != r.version)
    ensures PendingReady(s.desired, s'.stored.revs, s'.pending, log)
  {
    var revs, later, ws := s.stored.revs, s'.stored.revs, s.pending;
    if ws != [] && ws[0].Publish? && ws[0].seen in later {
      assert Publishing(revs, ws) && NonePublished(revs);
      PublishReadyKept(s, s', ws[0], log, r, n);
    }
    if ws != [] && ws[0].Unpublish? && ws[0].seen in later {
      UnpublishingKept(s, s', log, r, n);
    }
  }

  lemma UnpublishingKept(s: State, s': State, log: seq<string>, r: Revision, n: Revision)
    requires WindowInv(s, log) && r in s.stored.revs && Evolves(r, n, s'.clock)
    requires KeepsOrder(s.stored.revs, s'.stored.revs)
    requires forall x :: x in s'.stored.revs <==> x == n || (x in s.stored.revs && x.version != r.version)
    requires s.pending != [] && s.pending[0].Unpublish? && s.pending[0].seen in s'.stored.revs
    ensures UnpublishReady(s'.stored.revs, s.pending[0], log)
    ensures |s.pending| > 1 ==> PublishReady(s.desired, s'.stored.revs, s.pending[1], log)
  {
    var revs, later, ws := s.stored.revs, s'.stored.revs, s.pending;
    assert Unpublishing(revs, ws);
    StillListed(revs, later, ws[0].seen, r, n, s'.clock);
    if |ws| > 1 && ws[1].Publish? && ws[1].seen in later {
      PublishReadyKept(s, s', ws[1], log, r, n);
    }
  }

  lemma SettledKept(s: State, s': State, log: seq<string>, r: Revision, n: Revision)
    requires WindowInv(s, log) && r in s.stored.revs && Evolves(r, n, s'.clock) && s'.clock >= s.clock
    requires KeepsOrder(s.stored.revs, s'.stored.revs)
    requires forall x :: x in s'.stored.revs <==> x == n || (x in s.stored.revs && x.version != r.version)
    ensures Settled(s.desired, s'.stored.revs, log)
  {
    var d, revs, later := s.desired, s.stored.revs, s'.stored.revs;
    forall x | x in later && x.version in log && !Tainted(x) ensures Published(x) && IsTopmost(d, later, x) {
      if x == n {
        TopReplaced(d, revs, later, r, n);
      } else {
        assert Published(x) && IsTopmost(d, revs, x) && !Published(r);
        OthersKept(d, revs, later, x, r, n);
      }
    }
  }

  lemma PublishReadyKept(s: State, s': State, w: Write, log: seq<string>, r: Revision, n: Revision)
    requires Sound(s) && r in s.stored.revs && Evolves(r, n, s'.clock) && KeepsOrder(s.stored.revs, s'.stored.revs)
    requires forall x :: x in s'.stored.revs <==> x == n || (x in s.stored.revs && x.version != r.version)
    requires w.Publish? && Coherent(s.stored.revs, w.seen) && w.seen in s'.stored.revs && (!Published(r) || r == n)
    requires PublishReady(s.desired, s.stored.revs, w, log)
    ensures PublishReady(s.desired, s'.stored.revs, w, log)
  {
    var d, revs, later := s.desired, s.stored.revs, s'.stored.revs;
    StillListed(revs, later, w.seen, r, n, s'.clock);
    if w.seen.version == r.version {
      TopReplaced(d, revs, later, r, n);
    } else {
      OthersKept(d, revs, later, w.seen, r, n);
    }
  }

  lemma SendUnpublishReady(cfg: Config, s: State, s': State, log: seq<string>, u: Revision)
    requires WindowInv(s, log) && Step(cfg, s, Send, s') && s.pending[0] == Unpublish(u)
    ensures u in s.stored.revs && (u.version in log ==> Tainted(u)) && WindowInv(s', log)
  {
    var d, revs, later, ws := s.desired, s.stored.revs, s'.stored.revs, s.pending;
    StepKeepsSound(cfg, s, Send, s');
    StepKeepsOrder(cfg, s, Send, s');
    SendUnpublish(s, s', u);
    assert Unpublishing(revs, ws);
    var n := Unpublished(u);
    forall x | x in later && x.version in log ensures Tainted(x) {
      assert x != n ==> x in revs && !Published(x);
      assert x == n ==> Tainted(u);
    }
    if s'.pending != [] && s'.pending[0].Publish? && s'.pending[0].seen in later {
      assert SortTime(n) == SortTime(u) && Tainted(n) == Tainted(u);
      OthersKept(d, revs, later, ws[1].seen, u, n);
    }
  }

  lemma SendPublishReady(cfg: Config, s: State, s': State, log: seq<string>, c: Revision)
    requires WindowInv(s, log) && Step(cfg, s, Send, s') && s.pending[0] == Publish(c)
    ensures c.version !in log && c in s.stored.revs && !Tainted(c) && WindowInv(s', log + [c.version])
  {
    var d, revs, later := s.desired, s.stored.revs, s'.stored.revs;
    StepKeepsSound(cfg, s, Send, s');
    StepKeepsOrder(cfg, s, Send, s');
    SendPublish(s, s', c);
    var n := Republished(c);
    assert Tainted(n) == Tainted(c) && SortTime(n) == SortTime(c) && Published(n);
    TopReplaced(d, revs, later, c, n);
    forall x | x in later && x.version in log ensures Tainted(x) {
      assert x in revs;
      if !Tainted(x) {
        TopUnique(d, revs, x, c);
      }
    }
    assert Settled(d, later, log + [c.version]) by {
      forall x | x in later && x.version in log + [c.version]
        ensures Tainted(x) || (Published(x) && IsTopmost(d, later, x))
      {
        assert x.version in log || x == n;
      }
    }
  }

  lemma SendDeleteReady(cfg: Config, s: State, s': State, log: seq<string>, v: string)
    requires WindowInv(s, log) && Step(cfg, s, Send, s') && s.pending[0] == Delete(v)
    ensures WindowInv(s', log)
  {
    var d, revs, later := s.desired, s.stored.revs, s'.stored.revs;
    StepKeepsSound(cfg, s, Send, s');
    StepKeepsOrder(cfg, s, Send, s');
    SendDelete(s, s', v);
    forall x | x in later && x.version in log && !Tainted(x) ensures Published(x) && IsTopmost(d, later, x) {
      assert x in revs;
      TopmostCarried(d, revs, later, x, x);
    }
  }

  lemma WindowStep(cfg: Config, s: State, l: Label, s': State, log: seq<string>)
    requires WindowInv(s, log) && Step(cfg, s, l, s') && !SendsCreate(s, l)
    requires s'.desired == s.desired
    ensures SendsPublish(s, l) ==>
              var c := s.pending[0].seen; c.version !in log && c in s.stored.revs && !Tainted(c)
    ensures SendsUnpublish(s, l) ==>
              var u := s.pending[0].seen; u in s.stored.revs && (u.version in log ==> Tainted(u))
    ensures WindowInv(s', if SendsPublish(s, l) then log + [s.pending[0].seen.version] else log)
  {
    StepKeepsSound(cfg, s, l, s');
    match l
    case Begin => BeginReady(s, log);
    case Send =>
      match s.pending[0] {
        case Unpublish(u) => SendUnpublishReady(cfg, s, s', log, u);
        case Publish(c) => SendPublishReady(cfg, s, s', log, c);
        case Delete(v) => SendDeleteReady(cfg, s, s', log, v);
      }
    case Reconcile(_, _, _, _, _, _) => ReconcileReady(cfg, s, l, s', log);
    case _ =>
  }

  // ---------------------------------------------------------------------
  // The whole window

  ghost predicate NoRepeats(log: seq<string>) {
    forall i, j :: 0 <= i < j < |log| ==> log[i] != log[j]
  }

  /** The log goes on from versions that are settled when the stretch begins. */
  ghost predicate ReadyAt(trace: seq<State>, labels: seq<Label>, start: seq<string>, n: nat) {
    && n <= |labels| < |trace|
    && var s, log := trace[n], start + PublishLog(trace, labels, n);
       && Settled(s.desired, s.stored.revs, log) && PendingReady(s.desired, s.stored.revs, s.pending, log)
       && NoRepeats(log)
  }

  lemma {:induction false} AlwaysReady(cfg: Config, trace: seq<State>, labels: seq<Label>, start: seq<string>, n: nat)
    requires Course(cfg, trace, labels) && ReadyAt(trace, labels, start, 0) && n <= |labels|
    ensures ReadyAt(trace, labels, start, n)
  {
    if n > 0 {
      AlwaysReady(cfg, trace, labels, start, n - 1);
      ReadyNext(cfg, trace, labels, start, n);
    }
  }

  lemma ReadyNext(cfg: Config, trace: seq<State>, labels: seq<Label>, start: seq<string>, n: nat)
    requires Course(cfg, trace, labels) && 0 < n <= |labels| && ReadyAt(trace, labels, start, n - 1)
    ensures ReadyAt(trace, labels, start, n)
  {
    var s, l, s', log := trace[n - 1], labels[n - 1], trace[n], PublishLog(trace, labels, n - 1);
    RunKeepsSound(cfg, trace, labels, n - 1);
    assert StepAt(cfg, trace, labels, n - 1);
    WindowStep(cfg, s, l, s', start + log);
    if SendsPublish(s, l) {
      var v := s.pending[0].seen.version;
      assert start + log + [v] == start + (log + [v]);
    }
  }

  /** Between two reconciles, any settled versions will do to begin with. */
  lemma ReadyWhenIdle(trace: seq<State>, labels: seq<Label>, start: seq<string>)
    requires |labels| < |trace| && trace[0].pending == []
    requires NoRepeats(start) && Settled(trace[0].desired, trace[0].stored.revs, start)
    ensures ReadyAt(trace, labels, start, 0)
  {
    assert start + PublishLog(trace, labels, 0) == start;
  }

  /** The step at `n`, against all that went before it. */
  lemma StepInStretch(cfg: Config, trace: seq<State>, labels: seq<Label>, start: seq<string>, n: nat)
    requires Course(cfg, trace, labels) && ReadyAt(trace, labels, start, 0) && n < |labels|
    ensures SendsPublish(trace[n], labels[n]) ==>
              var c := trace[n].pending[0].seen;
              c.version !in start + PublishLog(trace, labels, n) && c in trace[n].stored.revs && !Tainted(c)
    ensures SendsUnpublish(trace[n], labels[n]) ==>
              var u := trace[n].pending[0].seen;
              u in trace[n].stored.revs && (u.version in start + PublishLog(trace, labels, n) ==> Tainted(u))
  {
    RunKeepsSound(cfg, trace, labels, n);
    AlwaysReady(cfg, trace, labels, start, n);
    assert StepAt(cfg, trace, labels, n);
    WindowStep(cfg, trace[n], labels[n], trace[n + 1], start + PublishLog(trace, labels, n));
  }

  /** `r` is what became of `e`: no less tainted, and a later copy unless it is the same. */
  ghost predicate StemsFrom(e: Revision, r: Revision) {
    && e.version == r.version && (Tainted(e) ==> Tainted(r))
    && e.resourceVersion <= r.resourceVersion && (e.resourceVersion == r.resourceVersion ==> e == r)
  }

  /** Every later revision stems from one stored at the start. */
  ghost predicate Stems(early: seq<Revision>, late: seq<Revision>) {
    forall r :: r in late ==> exists e :: e in early && StemsFrom(e, r)
  }

  lemma StemsSent(s: State, s': State)
    requires Inv(s) && SendStep(s, s') && !s.pending[0].Create?
    ensures Stems(s.stored.revs, s'.stored.revs)
  {
    match s.pending[0]
    case Unpublish(u) =>
      SendUnpublish(s, s', u);
      assert StemsFrom(u, Unpublished(u));
    case Publish(c) =>
      SendPublish(s, s', c);
      assert StemsFrom(c, Republished(c));
    case Delete(v) => SendDelete(s, s', v);
  }

  lemma StemsStep(cfg: Config, s: State, l: Label, s': State)
    requires Inv(s) && Step(cfg, s, l, s') && !SendsCreate(s, l)
    ensures Stems(s.stored.revs, s'.stored.revs)
  {
    match l
    case Send => StemsSent(s, s');
    case Reconcile(_, _, _, _, _, _) =>
      var r, n := ReconcileKeeps(cfg, s, l, s');
      assert StemsFrom(r, n);
    case _ =>
  }

  lemma StemsAt(cfg: Config, trace: seq<State>, labels: seq<Label>, n: nat)
    requires Course(cfg, trace, labels) && n < |labels|
    ensures Stems(trace[n].stored.revs, trace[n + 1].stored.revs)
  {
    RunKeepsInv(cfg, trace, labels, n);
    assert StepAt(cfg, trace, labels, n);
    StemsStep(cfg, trace[n], labels[n], trace[n + 1]);
  }

  lemma {:induction false} StemsOver(cfg: Config, trace: seq<State>, labels: seq<Label>, i: nat, j: nat)
    requires Course(cfg, trace, labels) && i <= j <= |labels|
    ensures Stems(trace[i].stored.revs, trace[j].stored.revs)
    decreases j - i
  {
    if i < j {
      StemsOver(cfg, trace, labels, i, j - 1);
      StemsAt(cfg, trace, labels, j - 1);
      StemsTransitive(trace[i].stored.revs, trace[j - 1].stored.revs, trace[j].stored.revs);
    }
  }

  lemma StemsTransitive(a: seq<Revision>, b: seq<Revision>, c: seq<Revision>)
    requires Stems(a, b) && Stems(b, c)
    ensures Stems(a, c)
  {
  }

  ghost function UntaintedVersions(revs: seq<Revision>): (vs: set<string>) {
    set r | r in revs && !Tainted(r) :: r.version
  }

  /** What the window publishes was stored, and untainted, when it began. */
  lemma PublishedFromStart(cfg: Config, trace: seq<State>, labels: seq<Label>, n: nat)
    requires Window(cfg, trace, labels) && n < |labels| && SendsPublish(trace[n], labels[n])
    ensures trace[n].pending[0].seen.version in UntaintedVersions(trace[0].stored.revs)
  {
    var c := trace[n].pending[0].seen;
    ReadyWhenIdle(trace, labels, []);
    StepInStretch(cfg, trace, labels, [], n);
    StemsOver(cfg, trace, labels, 0, n);
    var e :| e in trace[0].stored.revs && StemsFrom(e, c);
  }

  lemma {:induction false} LogFromStart(cfg: Config, trace: seq<State>, labels: seq<Label>, n: nat)
    requires Window(cfg, trace, labels) && n <= |labels|
    ensures forall i :: 0 <= i < |PublishLog(trace, labels, n)| ==>
              PublishLog(trace, labels, n)[i] in UntaintedVersions(trace[0].stored.revs)
  {
    if n > 0 {
      LogFromStart(cfg, trace, labels, n - 1);
      if SendsPublish(trace[n - 1], labels[n - 1]) {
        PublishedFromStart(cfg, trace, labels, n - 1);
      }
    }
  }

  lemma {:induction false} NoRepeatsBound(log: seq<string>, vs: set<string>)
    requires NoRepeats(log) && forall i :: 0 <= i < |log| ==> log[i] in vs
    ensures |log| <= |vs|
  {
    if log != [] {
      var init, last := log[..|log| - 1], log[|log| - 1];
      NoRepeatsBound(init, vs - {last});
    }
  }

  /** The theorem: publications of a window are pairwise different versions, no more than were untainted. */
  lemma PublicationsNeverRepeat(cfg: Config, trace: seq<State>, labels: seq<Label>)
    requires Window(cfg, trace, labels)
    ensures NoRepeats(PublishLog(trace, labels, |labels|))
    ensures |PublishLog(trace, labels, |labels|)| <= |UntaintedVersions(trace[0].stored.revs)|
  {
    var log := PublishLog(trace, labels, |labels|);
    ReadyWhenIdle(trace, labels, []);
    AlwaysReady(cfg, trace, labels, [], |labels|);
    assert [] + log == log;
    LogFromStart(cfg, trace, labels, |labels|);
    NoRepeatsBound(log, UntaintedVersions(trace[0].stored.revs));
  }

  // ---------------------------------------------------------------------
  // A stretch that begins while a reconcile is running

  /** The version a plan will publish, if any. */
  function Leftover(ws: seq<Write>): (v: Option<string>) {
    if ws != [] && ws[0].Publish? then Some(ws[0].seen.version)
    else if |ws| > 1 && ws[0].Unpublish? && ws[1].Publish? then Some(ws[1].seen.version)
    else None
  }

  /** The leftover plan has not published yet, or it has published its version and only deletions are left. */
  ghost predicate LeftoverAt(trace: seq<State>, labels: seq<Label>, n: nat) {
    && n <= |labels| < |trace|
    && var log, left := PublishLog(trace, labels, n), Leftover(trace[0].pending);
       || (log == [] && (trace[n].pending == [] || Leftover(trace[n].pending) == left))
       || (left.Some? && log == [left.value] && AllDeletes(trace[n].pending))
  }

  lemma LeftoverStep(cfg: Config, s: State, l: Label, s': State)
    requires Inv(s) && Step(cfg, s, l, s') && s.pending != [] && !SendsCreate(s, l)
    ensures SendsPublish(s, l) ==> Leftover(s.pending) == Some(s.pending[0].seen.version) && AllDeletes(s'.pending)
    ensures !SendsPublish(s, l) ==> s'.pending == [] || Leftover(s'.pending) == Leftover(s.pending)
    ensures AllDeletes(s.pending) ==> !SendsPublish(s, l) && AllDeletes(s'.pending)
  {
    if SendsPublish(s, l) {
      SendPublish(s, s', s.pending[0].seen);
    } else if l.Send? && s.pending[0].Unpublish? {
      assert Unpublishing(s.stored.revs, s.pending);
    }
  }

  lemma {:induction false} LeftoverLog(cfg: Config, trace: seq<State>, labels: seq<Label>, n: nat)
    requires Course(cfg, trace, labels) && n <= |labels|
    requires forall j :: 0 <= j < n ==> trace[j].pending != []
    ensures LeftoverAt(trace, labels, n)
  {
    if n > 0 {
      LeftoverLog(cfg, trace, labels, n - 1);
      RunKeepsInv(cfg, trace, labels, n - 1);
      assert StepAt(cfg, trace, labels, n - 1);
      LeftoverStep(cfg, trace[n - 1], labels[n - 1], trace[n]);
    }
  }

  /** The first moment between two reconciles, or the end. */
  lemma {:induction false} FirstIdle(trace: seq<State>, n: nat) returns (k: nat)
    requires n < |trace|
    ensures k <= n && (forall j :: 0 <= j < k ==> trace[j].pending != []) && (k == n || trace[k].pending == [])
  {
    if n == 0 {
      k := 0;
    } else {
      k := FirstIdle(trace, n - 1);
      if k == n - 1 && trace[k].pending != [] {
        k := n;
      }
    }
  }

  lemma {:induction false} LogSplits(trace: seq<State>, labels: seq<Label>, k: nat, n: nat)
    requires |trace| == |labels| + 1 && k <= n <= |labels|
    ensures PublishLog(trace, labels, n) == PublishLog(trace, labels, k) + PublishLog(trace[k..], labels[k..], n - k)
  {
    if k < n {
      LogSplits(trace, labels, k, n - 1);
      assert trace[k..][n - 1 - k] == trace[n - 1] && labels[k..][n - 1 - k] == labels[n - 1];
    }
  }

  lemma LaterIsStretch(cfg: Config, trace: seq<State>, labels: seq<Label>, k: nat)
    requires Stretch(cfg, trace, labels) && k <= |labels|
    ensures Stretch(cfg, trace[k..], labels[k..])
  {
    var t, m := trace[k..], labels[k..];
    forall i | 0 <= i < |m| ensures StepAt(cfg, t, m, i) && !SendsCreate(t[i], m[i]) {
      assert StepAt(cfg, trace, labels, k + i) && labels[k + i] == m[i];
    }
  }

  /** From any moment between two reconciles on, no version is published twice. */
  lemma NoRepeatsOnceIdle(cfg: Config, trace: seq<State>, labels: seq<Label>, k: nat)
    requires Course(cfg, trace, labels) && k <= |labels| && trace[k].pending == []
    ensures var head, log := PublishLog(trace, labels, k), PublishLog(trace, labels, |labels|);
            && head <= log && NoRepeats(log[|head|..])
            && |log| - |head| <= |UntaintedVersions(trace[0].stored.revs)|
  {
    var head, tail := PublishLog(trace, labels, k), PublishLog(trace[k..], labels[k..], |labels| - k);
    LogSplits(trace, labels, k, |labels|);
    assert (head + tail)[|head|..] == tail;
    LaterPublications(cfg, trace, labels, k);
    FewerUntainted(cfg, trace, labels, k);
  }

  lemma LaterPublications(cfg: Config, trace: seq<State>, labels: seq<Label>, k: nat)
    requires Course(cfg, trace, labels) && k <= |labels| && trace[k].pending == []
    ensures var tail := PublishLog(trace[k..], labels[k..], |labels| - k);
            NoRepeats(tail) && |tail| <= |UntaintedVersions(trace[k].stored.revs)|
  {
    RunKeepsSound(cfg, trace, labels, k);
    LaterIsStretch(cfg, trace, labels, k);
    PublicationsNeverRepeat(cfg, trace[k..], labels[k..]);
  }

  lemma FewerUntainted(cfg: Config, trace: seq<State>, labels: seq<Label>, k: nat)
    requires Course(cfg, trace, labels) && k <= |labels|
    ensures |UntaintedVersions(trace[k].stored.revs)| <= |UntaintedVersions(trace[0].stored.revs)|
  {
    StemsOver(cfg, trace, labels, 0, k);
    var later, early := UntaintedVersions(trace[k].stored.revs), UntaintedVersions(trace[0].stored.revs);
    assert later <= early;
    assert |early - later| == |early| - |later|;
  }

  /** All versions are different, save that the first may occur once more if a leftover plan published it. */
  ghost predicate OnlyLeftoverRepeats(log: seq<string>, left: Option<string>) {
    NoRepeats(log) || (log != [] && left == Some(log[0]) && NoRepeats(log[1..]))
  }

  /**
   The theorem for every stretch, whatever reconcile is running when it begins: only the version which that one
   publishes can be published again, and only once more; and publications are bounded by the untainted
   revisions, plus one for the leftover plan.
   */
  lemma StretchPublications(cfg: Config, trace: seq<State>, labels: seq<Label>)
    requires Course(cfg, trace, labels)
    ensures var log, left := PublishLog(trace, labels, |labels|), Leftover(trace[0].pending);
            && OnlyLeftoverRepeats(log, left)
            && |log| <= |UntaintedVersions(trace[0].stored.revs)| + (if left.Some? then 1 else 0)
  {
    var k := FirstIdle(trace, |labels|);
    LeftoverLog(cfg, trace, labels, k);
    if trace[k].pending == [] {
      NoRepeatsOnceIdle(cfg, trace, labels, k);
    }
  }
}

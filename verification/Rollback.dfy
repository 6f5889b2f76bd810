/**
 Rollback, as runs: the exact conditions, in whatever state the controllers are, under
 which a version that is moved off can come back and under which a version can be
 published twice, while the desired version stays.
 */
module Rollback {
  import opened Wrappers
  import opened Strings
  import opened Stats
  import opened StatRuns
  import opened Snapshots
  import opened Revisions
  import opened Reconciler
  import opened RevisionController
  import opened Healing
  import opened Protocol
  import opened NoFlapping
  import opened ComingBack

  // ---------------------------------------------------------------------
  // Putting stretches together

  ghost predicate Links(cfg: Config, trace: seq<State>, labels: seq<Label>, s: State, s': State) {
    Stretch(cfg, trace, labels) && trace[0] == s && trace[|labels|] == s'
  }

  /** Some stretch goes from one state to the other. */
  ghost predicate GoesTo(cfg: Config, s: State, s': State) {
    exists trace, labels :: Links(cfg, trace, labels, s, s')
  }

  lemma GoesStep(cfg: Config, s: State, l: Label, s': State)
    requires Step(cfg, s, l, s') && !SendsCreate(s, l) && s'.desired == s.desired
    ensures Links(cfg, [s, s'], [l], s, s') && GoesTo(cfg, s, s')
  {
    var t, m := [s, s'], [l];
    forall i | 0 <= i < |m| ensures StepAt(cfg, t, m, i) && !SendsCreate(t[i], m[i]) {
      assert i == 0;
    }
    assert Links(cfg, t, m, s, s');
  }

  lemma GoesNowhere(cfg: Config, s: State)
    ensures GoesTo(cfg, s, s)
  {
    assert Links(cfg, [s], [], s, s);
  }

  /** One stretch after another. */
  lemma Joined(cfg: Config, t: seq<State>, a: seq<Label>, u: seq<State>, b: seq<Label>)
    requires Stretch(cfg, t, a) && Stretch(cfg, u, b) && u[0] == t[|a|]
    ensures Stretch(cfg, t + u[1..], a + b)
    ensures forall i :: 0 <= i < |u| ==> (t + u[1..])[|a| + i] == u[i]
    ensures forall i :: 0 <= i < |b| ==> (a + b)[|a| + i] == b[i]
  {
    var w, m := t + u[1..], a + b;
    assert forall i :: |a| <= i < |w| ==> w[i] == u[i - |a|];
    forall i | 0 <= i < |m| ensures StepAt(cfg, w, m, i) && !SendsCreate(w[i], m[i]) {
      if i < |a| {
        assert StepAt(cfg, t, a, i);
        assert w[i] == t[i] && m[i] == a[i] && w[i + 1] == t[i + 1];
      } else {
        var j := i - |a|;
        assert StepAt(cfg, u, b, j);
        assert w[i] == u[j] && m[i] == b[j] && w[i + 1] == u[j + 1];
      }
    }
    assert forall i :: 0 <= i < |a| ==> w[i] == t[i];
    assert w[0] == t[0] && t[|a|].desired == t[0].desired;
  }

  lemma GoesOn(cfg: Config, a: State, b: State, c: State)
    requires GoesTo(cfg, a, b) && GoesTo(cfg, b, c)
    ensures GoesTo(cfg, a, c)
  {
    var t, x :| Links(cfg, t, x, a, b);
    var u, y :| Links(cfg, u, y, b, c);
    Joined(cfg, t, x, u, y);
    assert (t + u[1..])[|x| + |y|] == u[|y|];
    assert Links(cfg, t + u[1..], x + y, a, c);
  }

  lemma GoesSound(cfg: Config, s: State, s': State)
    requires GoesTo(cfg, s, s') && Sound(s)
    ensures Sound(s') && s'.desired == s.desired
  {
    var t, x :| Links(cfg, t, x, s, s');
    RunKeepsSound(cfg, t, x, |x|);
  }

  // ---------------------------------------------------------------------
  // What can happen from a state

  ghost predicate IsPublication(cfg: Config, s: State, v: string, trace: seq<State>, labels: seq<Label>, j: nat) {
    && Stretch(cfg, trace, labels) && trace[0] == s && j < |labels|
    && SendsPublish(trace[j], labels[j]) && trace[j].pending[0].seen.version == v
  }

  /** Some stretch from this state publishes the version. */
  ghost predicate CanPublish(cfg: Config, s: State, v: string) {
    exists trace, labels, j: nat :: IsPublication(cfg, s, v, trace, labels, j)
  }

  ghost predicate IsReturn(cfg: Config, s: State, v: string, trace: seq<State>, labels: seq<Label>, i: nat, j: nat) {
    Stretch(cfg, trace, labels) && trace[0] == s && Returns(trace, labels, v, i, j)
  }

  /** Some stretch from this state moves off the version and publishes it again. */
  ghost predicate CanReturn(cfg: Config, s: State, v: string) {
    exists trace, labels, i: nat, j: nat :: IsReturn(cfg, s, v, trace, labels, i, j)
  }

  ghost predicate IsRepeat(cfg: Config, s: State, trace: seq<State>, labels: seq<Label>, i: nat, j: nat) {
    Stretch(cfg, trace, labels) && trace[0] == s && Repeats(trace, labels, i, j)
  }

  /** Some stretch from this state publishes one version twice. */
  ghost predicate CanRepeat(cfg: Config, s: State) {
    exists trace, labels, i: nat, j: nat :: IsRepeat(cfg, s, trace, labels, i, j)
  }

  lemma PublishAfter(cfg: Config, s: State, s': State, v: string)
    requires GoesTo(cfg, s, s') && CanPublish(cfg, s', v)
    ensures CanPublish(cfg, s, v)
  {
    var t, a :| Links(cfg, t, a, s, s');
    var u, b, j: nat :| IsPublication(cfg, s', v, u, b, j);
    Joined(cfg, t, a, u, b);
    assert IsPublication(cfg, s, v, t + u[1..], a + b, |a| + j);
  }

  lemma ReturnAfter(cfg: Config, s: State, s': State, v: string)
    requires GoesTo(cfg, s, s') && CanReturn(cfg, s', v)
    ensures CanReturn(cfg, s, v)
  {
    var t, a :| Links(cfg, t, a, s, s');
    var u, b, i: nat, j: nat :| IsReturn(cfg, s', v, u, b, i, j);
    Joined(cfg, t, a, u, b);
    assert IsReturn(cfg, s, v, t + u[1..], a + b, |a| + i, |a| + j);
  }

  lemma RepeatAfter(cfg: Config, s: State, s': State)
    requires GoesTo(cfg, s, s') && CanRepeat(cfg, s')
    ensures CanRepeat(cfg, s)
  {
    var t, a :| Links(cfg, t, a, s, s');
    var u, b, i: nat, j: nat :| IsRepeat(cfg, s', u, b, i, j);
    Joined(cfg, t, a, u, b);
    assert IsRepeat(cfg, s, t + u[1..], a + b, |a| + i, |a| + j);
  }

  lemma PublishNow(cfg: Config, s: State, c: Revision, s': State)
    requires Step(cfg, s, Send, s') && [Publish(c)] <= s.pending && s'.desired == s.desired
    ensures CanPublish(cfg, s, c.version)
  {
    GoesStep(cfg, s, Send, s');
    assert IsPublication(cfg, s, c.version, [s, s'], [Send], 0);
  }

  /** A write now, and a publication later. */
  lemma SendThenPublish(cfg: Config, s: State, s': State, v: string)
    returns (trace: seq<State>, labels: seq<Label>, j: nat)
    requires Step(cfg, s, Send, s') && !SendsCreate(s, Send) && s'.desired == s.desired && CanPublish(cfg, s', v)
    ensures j > 0 && IsPublication(cfg, s, v, trace, labels, j) && labels[0] == Send
  {
    GoesStep(cfg, s, Send, s');
    var t, b, k: nat :| IsPublication(cfg, s', v, t, b, k);
    Joined(cfg, [s, s'], [Send], t, b);
    trace, labels, j := [s, s'] + t[1..], [Send] + b, 1 + k;
    assert trace[j] == t[k] && labels[j] == b[k];
  }

  /** Unpublished now and published later: the version returns. */
  lemma ReturnOnceUnpublished(cfg: Config, s: State, u: Revision, s': State)
    requires Step(cfg, s, Send, s') && [Unpublish(u)] <= s.pending && s'.desired == s.desired
    requires CanPublish(cfg, s', u.version)
    ensures CanReturn(cfg, s, u.version)
  {
    var trace, labels, j := SendThenPublish(cfg, s, s', u.version);
    assert IsReturn(cfg, s, u.version, trace, labels, 0, j);
  }

  /** Published now and published later: the publication repeats. */
  lemma RepeatOncePublished(cfg: Config, s: State, c: Revision, s': State)
    requires Step(cfg, s, Send, s') && [Publish(c)] <= s.pending && s'.desired == s.desired
    requires CanPublish(cfg, s', c.version)
    ensures CanRepeat(cfg, s)
  {
    var trace, labels, j := SendThenPublish(cfg, s, s', c.version);
    assert IsRepeat(cfg, s, trace, labels, 0, j);
  }

  // ---------------------------------------------------------------------
  // Single steps

  /** Between reconciles, with nothing terminating and the desired revision stored. */
  ghost predicate Idle(s: State) {
    Sound(s) && s.pending == [] && s.stored.terminating == [] && DesiredStored(s)
  }

  /** A status write over a copy that is still the stored one goes through. */
  lemma Accepts(cfg: Config, s: State) returns (s': State)
    requires Inv(s) && s.pending != [] && (s.pending[0].Publish? || s.pending[0].Unpublish?)
    requires s.pending[0].seen in s.stored.revs
    ensures Step(cfg, s, Send, s') && s'.clock == s.clock + 1
  {
    IndexOfMember(s.stored.revs, s.pending[0].seen);
    var after := Apply(s.stored, s.pending[0], s.clock + 1).value;
    s' := s.(stored := after, pending := s.pending[1..], clock := s.clock + 1);
  }

  lemma UnpublishStep(cfg: Config, s: State, from: Revision) returns (s': State)
    requires Inv(s) && [Unpublish(from)] <= s.pending && from in s.stored.revs
    ensures Step(cfg, s, Send, s') && s'.clock == s.clock + 1 && Inv(s') && NonePublished(s'.stored.revs)
    ensures s' == s.(stored := s.stored.(revs := s'.stored.revs), pending := s.pending[1..], clock := s'.clock)
    ensures |s'.stored.revs| == |s.stored.revs|
    ensures forall x :: x in s'.stored.revs <==>
              x == Unpublished(from) || (x in s.stored.revs && x.version != from.version)
  {
    s' := Accepts(cfg, s);
    SendUnpublish(s, s', from);
  }

  lemma PublishStep(cfg: Config, s: State, to: Revision) returns (s': State)
    requires Inv(s) && [Publish(to)] <= s.pending && to in s.stored.revs
    ensures Step(cfg, s, Send, s') && s'.clock == s.clock + 1 && Inv(s') && !Tainted(to)
    ensures s' == s.(stored := s.stored.(revs := s'.stored.revs), pending := s.pending[1..], clock := s'.clock)
    ensures |s'.stored.revs| == |s.stored.revs|
    ensures forall x :: x in s'.stored.revs <==> x == Republished(to) || (x in s.stored.revs && x.version != to.version)
  {
    s' := Accepts(cfg, s);
    SendPublish(s, s', to);
  }

  /** The rest of the plan is given up. */
  lemma GiveUpStep(cfg: Config, s: State) returns (s': State)
    requires Inv(s)
    ensures Step(cfg, s, GiveUp, s') && s' == s.(pending := [], clock := s.clock + 1) && Inv(s')
  {
    s' := s.(pending := [], clock := s.clock + 1);
  }

  lemma BeginsStep(cfg: Config, s: State) returns (s': State)
    requires Idle(s)
    ensures Step(cfg, s, Begin, s') && Inv(s')
    ensures s' == s.(pending := Plan(s.desired, s.resources, s.stored.revs), clock := s.clock + 1)
  {
    s' := s.(pending := Plan(s.desired, s.resources, s.stored.revs), clock := s.clock + 1);
    StepKeepsInv(cfg, s, Begin, s');
  }

  // ---------------------------------------------------------------------
  // Plans

  lemma PlanIs(s: State) returns (us: seq<Write>, ps: seq<Write>)
    requires Idle(s)
    ensures Plan(s.desired, s.resources, s.stored.revs) == us + ps + Deletes(Sorted(s.desired, s.stored.revs))
    ensures PartsOf(s.stored.revs, SelectedVersion(Sorted(s.desired, s.stored.revs)), us, ps)
  {
    var revs := s.stored.revs;
    var d :| d in revs && d.version == s.desired;
    var k :| 0 <= k < |revs| && revs[k] == d;
    CountOne(revs, k);
    us, ps := UpdateParts(s.desired, revs);
  }

  /** The plan that moves the publication from one revision to another. */
  lemma PlanMoves(s: State, from: Revision, to: Revision)
    requires Idle(s) && from in s.stored.revs && Published(from)
    requires IsTopmost(s.desired, s.stored.revs, to) && to.version != from.version
    ensures Plan(s.desired, s.resources, s.stored.revs)
            == [Unpublish(from), Publish(to)] + Deletes(Sorted(s.desired, s.stored.revs))
  {
    var us, ps := PlanIs(s);
    SelectionExists(s.desired, s.stored.revs, to);
    PartsMove(s.stored.revs, us, ps, from, to);
  }

  lemma PartsMove(revs: seq<Revision>, us: seq<Write>, ps: seq<Write>, from: Revision, to: Revision)
    requires Distinct(revs) && AtMostOnePublished(revs) && PartsOf(revs, to.version, us, ps)
    requires from in revs && Published(from) && to in revs && to.version != from.version
    ensures us == [Unpublish(from)] && ps == [Publish(to)]
  {
    assert !Published(to);
    SameVersionSame(revs, us[0].seen, from);
    SameVersionSame(revs, ps[0].seen, to);
  }

  /** The plan that publishes when nothing is published. */
  lemma PlanPublishes(s: State, to: Revision)
    requires Idle(s) && NonePublished(s.stored.revs) && IsTopmost(s.desired, s.stored.revs, to)
    ensures Plan(s.desired, s.resources, s.stored.revs) == [Publish(to)] + Deletes(Sorted(s.desired, s.stored.revs))
  {
    var us, ps := PlanIs(s);
    SelectionExists(s.desired, s.stored.revs, to);
    PartsPublish(s.stored.revs, us, ps, to);
  }

  lemma PartsPublish(revs: seq<Revision>, us: seq<Write>, ps: seq<Write>, to: Revision)
    requires Distinct(revs) && NonePublished(revs) && to in revs && PartsOf(revs, to.version, us, ps)
    ensures us == [] && ps == [Publish(to)]
  {
    SameVersionSame(revs, ps[0].seen, to);
  }

  ghost predicate Moved(revs: seq<Revision>, later: seq<Revision>, from: Revision, to: Revision) {
    forall x :: x in later <==>
      || x == Unpublished(from) || x == Republished(to)
      || (x in revs && x.version != from.version && x.version != to.version)
  }

  /** The two writes that move the publication, one after the other. */
  lemma TwoWrites(cfg: Config, s: State, from: Revision, to: Revision, ds: seq<Write>) returns (s1: State, s2: State)
    requires Inv(s) && s.pending == [Unpublish(from), Publish(to)] + ds && from in s.stored.revs && to in s.stored.revs
    requires from.version != to.version
    ensures Step(cfg, s, Send, s1) && Step(cfg, s1, Send, s2) && Inv(s1) && Inv(s2)
    ensures s1.clock == s.clock + 1 && s2.clock == s.clock + 2 && s1.desired == s.desired
    ensures s1.pending == [Publish(to)] + ds && s2.pending == ds
    ensures s2 == s.(stored := s.stored.(revs := s2.stored.revs), pending := s2.pending, clock := s2.clock)
    ensures |s2.stored.revs| == |s.stored.revs| && Moved(s.stored.revs, s2.stored.revs, from, to)
  {
    s1 := UnpublishStep(cfg, s, from);
    assert s1.pending == [Publish(to)] + ds;
    s2 := PublishStep(cfg, s1, to);
  }

  /** The plan of a reconcile and its first two writes. */
  lemma MoveOver(cfg: Config, s: State, from: Revision, to: Revision) returns (s1: State, s2: State, s3: State)
    requires Idle(s) && from in s.stored.revs && Published(from)
    requires IsTopmost(s.desired, s.stored.revs, to) && to.version != from.version
    ensures Step(cfg, s, Begin, s1) && Step(cfg, s1, Send, s2) && Step(cfg, s2, Send, s3) && Inv(s1) && Inv(s2)
    ensures Inv(s3)
    ensures s1.clock == s.clock + 1 && s2.clock == s.clock + 2 && s3.clock == s.clock + 3
    ensures var ds := Deletes(Sorted(s.desired, s.stored.revs));
            s1.pending == [Unpublish(from), Publish(to)] + ds && s2.pending == [Publish(to)] + ds && s3.pending == ds
    ensures s1.desired == s2.desired == s.desired
    ensures s3 == s.(stored := s.stored.(revs := s3.stored.revs), pending := s3.pending, clock := s3.clock)
    ensures |s3.stored.revs| == |s.stored.revs| && Moved(s.stored.revs, s3.stored.revs, from, to)
  {
    PlanMoves(s, from, to);
    s1 := BeginsStep(cfg, s);
    s2, s3 := TwoWrites(cfg, s1, from, to, Deletes(Sorted(s.desired, s.stored.revs)));
  }

  lemma TopExists(desired: string, revs: seq<Revision>, e: Revision) returns (t: Revision)
    requires Distinct(revs) && e in revs && !Tainted(e)
    ensures IsTopmost(desired, revs, t)
  {
    var list := Sorted(desired, revs);
    SelectionIsTop(desired, revs);
    SortedSame(desired, revs);
    assert e in list;
    t := list[LastUntainted(list)];
  }

  // ---------------------------------------------------------------------
  // Tainting what is published

  ghost predicate CleanConfig(cfg: Config) {
    ColonFree(cfg.node) && CleanNames(cfg.hash, cfg.urls)
  }

  /** There are circumstances in which the first definition that fails is a wrong one. */
  ghost predicate CanBeWrong(cfg: Config, r: Revision) {
    exists w: World :: w.decode == cfg.decode && FirstFailure(w, r.resources, Invalid)
  }

  ghost predicate LoadsIn(w: World, r: Revision) {
    forall i :: 0 <= i < |r.resources| ==> !Fails(w, r.resources[i])
  }

  /** There are circumstances in which all definitions load. */
  ghost predicate CanLoad(cfg: Config, r: Revision) {
    exists w: World :: w.decode == cfg.decode && LoadsIn(w, r)
  }

  /** The revision carries no taint condition, and it can turn out wrong, or be loaded and then rejected. */
  ghost predicate Taintable(cfg: Config, r: Revision) {
    RevisionTainted !in r.conditions && (CanBeWrong(cfg, r) || (CleanConfig(cfg) && CanLoad(cfg, r)))
  }

  ghost predicate AllTaintable(cfg: Config, revs: seq<Revision>) {
    forall r :: r in revs && !Tainted(r) ==> Taintable(cfg, r)
  }

  /** What remains of the published revision once it is tainted. */
  ghost predicate Spoiled(revs: seq<Revision>, later: seq<Revision>, p: Revision, n: Revision) {
    && n.version == p.version && Published(n) && Tainted(n)
    && forall x :: x in later <==> x == n || (x in revs && x.version != p.version)
  }

  /** By its definitions: a reconcile finds one of them wrong. */
  lemma TurnsOutWrong(cfg: Config, s: State, p: Revision) returns (l: Label, s': State)
    requires Inv(s) && p in s.stored.revs && Published(p) && !Tainted(p) && CanBeWrong(cfg, p)
    ensures l.Reconcile? && Step(cfg, s, l, s') && s'.clock == s.clock + 1 && Inv(s')
    ensures s' == s.(stored := s.stored.(revs := s'.stored.revs), clock := s'.clock)
    ensures |s'.stored.revs| == |s.stored.revs| && Spoiled(s.stored.revs, s'.stored.revs, p, TaintSelf(p))
  {
    IndexOfMember(s.stored.revs, p);
    var w: World :| w.decode == cfg.decode && FirstFailure(w, p.resources, Invalid);
    var i := IndexOf(s.stored.revs, p.version);
    l := Reconcile(p.version, w, Bad, s.cache, true, false);
    s' := s.(stored := s.stored.(revs := s.stored.revs[i := TaintSelf(p)]), clock := s.clock + 1);
    assert Reconciled(cfg, s, i, l, s'.clock) == TaintSelf(p);
    StepKeepsInv(cfg, s, l, s');
    Replaced(s.stored.revs, i, TaintSelf(p));
  }

  lemma {:induction false} Streams(cfg: Config, s: State, es: seq<Event>) returns (s': State)
    requires forall i :: 0 <= i < |es| ==> !es[i].Restart?
    ensures GoesTo(cfg, s, s') && s' == s.(history := s.history + es, clock := s'.clock)
  {
    if es == [] {
      s' := s;
      GoesNowhere(cfg, s);
      assert s.history + es == s.history;
    } else {
      var init, e := es[..|es| - 1], es[|es| - 1];
      var s1 := Streams(cfg, s, init);
      s' := s1.(history := s1.history + [e], clock := s1.clock + 1);
      GoesStep(cfg, s1, Stream(e), s');
      GoesOn(cfg, s, s1, s');
      assert s.history + init + [e] == s.history + es;
    }
  }

  /** The xDS server restarts, and one client asks for endpoints and rejects five times what it is sent. */
  lemma ClientRejects(cfg: Config, s: State, version: string) returns (s': State)
    requires CleanConfig(cfg) && ColonFree(version) && version != AGGREGATE
    ensures GoesTo(cfg, s, s') && s' == s.(pending := [], cache := None, history := s'.history, clock := s'.clock)
    ensures Fraction(Run(s'.history), cfg.node, cfg.urls(Endpoint), version) == 1.0
  {
    var s1 := s.(pending := [], cache := None, history := s.history + [Restart], clock := s.clock + 1);
    GoesStep(cfg, s, Crash, s1);
    var es := Rejecting(cfg.node, cfg.urls(Endpoint), version, 5);
    RejectingIsNoRestart(cfg.node, cfg.urls(Endpoint), version, 5);
    s' := Streams(cfg, s1, es);
    GoesOn(cfg, s, s1, s');
    RunAfterRestart(s.history, es);
    RejectingIsEnough(cfg.node, cfg.urls(Endpoint), version);
  }

  lemma LoadedFits(cfg: Config, before: Option<Snapshot>, p: Revision, w: World, snap: Snapshot)
    requires Published(p) && LoadsIn(w, p) && Versioned(cfg.hash, snap) && Represents(w, p.resources, snap)
    ensures LoadingFits(cfg.hash, w, p, Loaded(Tracker(snap)), before, Some(snap))
  {
    forall t | Served(t) ensures t in SERVED {
      EveryTypeListed(t);
    }
  }

  lemma ReconcileSpoils(cfg: Config, p: Revision, st: Store, now: nat, snap: Snapshot)
    requires Published(p) && RevisionTainted !in p.conditions
    requires Fraction(st, cfg.node, cfg.urls(Endpoint), GetVersion(snap, Endpoint)) == 1.0
    ensures Tainted(RevisionAfter(p, Loaded(Tracker(snap)), cfg.urls, cfg.node, true, st, now, true, true))
  {
    var load := Loaded(Tracker(snap));
    EveryTypeListed(Endpoint);
    RejectionTaints(p, load, cfg.urls, cfg.node, st, now, true);
    assert TypeRejected(st, cfg.urls, cfg.node, load.vt, Endpoint);
  }

  /** A reconcile that loads the revision and finds it rejected. */
  lemma FoundRejected(cfg: Config, s: State, p: Revision, w: World, snap: Snapshot) returns (s': State, n: Revision)
    requires Inv(s) && p in s.stored.revs && Published(p) && RevisionTainted !in p.conditions
    requires w.decode == cfg.decode && LoadsIn(w, p) && Versioned(cfg.hash, snap) && Represents(w, p.resources, snap)
    requires Fraction(Run(s.history), cfg.node, cfg.urls(Endpoint), GetVersion(snap, Endpoint)) == 1.0
    ensures GoesTo(cfg, s, s') && Inv(s') && Spoiled(s.stored.revs, s'.stored.revs, p, n)
    ensures s' == s.(stored := s.stored.(revs := s'.stored.revs), cache := Some(snap), clock := s'.clock)
  {
    IndexOfMember(s.stored.revs, p);
    var i := IndexOf(s.stored.revs, p.version);
    var load := Loaded(Tracker(snap));
    var l := Reconcile(p.version, w, load, Some(snap), true, true);
    n := Reconciled(cfg, s, i, l, s.clock + 1);
    LoadedFits(cfg, s.cache, p, w, snap);
    ReconcileSpoils(cfg, p, Run(s.history), s.clock + 1, snap);
    ReconciledEvolves(cfg, s, i, l, s.clock + 1);
    s' := s.(stored := s.stored.(revs := s.stored.revs[i := n]), cache := Some(snap), clock := s.clock + 1);
    GoesStep(cfg, s, l, s');
    StepKeepsInv(cfg, s, l, s');
    Replaced(s.stored.revs, i, n);
  }

  lemma IsRejected(cfg: Config, s: State, p: Revision) returns (s': State, n: Revision)
    requires Idle(s) && p in s.stored.revs && Published(p) && RevisionTainted !in p.conditions
    requires CleanConfig(cfg) && CanLoad(cfg, p)
    ensures GoesTo(cfg, s, s') && Spoiled(s.stored.revs, s'.stored.revs, p, n)
    ensures s'.pending == [] && s'.stored.terminating == [] && s'.desired == s.desired
  {
    var w: World :| w.decode == cfg.decode && LoadsIn(w, p);
    var snap := SnapshotOf(cfg.hash, w, p.resources);
    var s1 := ClientRejects(cfg, s, GetVersion(snap, Endpoint));
    s', n := FoundRejected(cfg, s1, p, w, snap);
    GoesOn(cfg, s, s1, s');
  }

  /** One way or the other. */
  lemma GetsTainted(cfg: Config, s: State, p: Revision) returns (s': State, n: Revision)
    requires Idle(s) && p in s.stored.revs && Published(p) && !Tainted(p) && Taintable(cfg, p)
    ensures GoesTo(cfg, s, s') && Idle(s') && Spoiled(s.stored.revs, s'.stored.revs, p, n) && s'.desired == s.desired
  {
    if CanBeWrong(cfg, p) {
      var l;
      l, s' := TurnsOutWrong(cfg, s, p);
      n := TaintSelf(p);
      GoesStep(cfg, s, l, s');
    } else {
      s', n := IsRejected(cfg, s, p);
    }
    GoesSound(cfg, s, s');
    var d :| d in s.stored.revs && d.version == s.desired;
    assert (if d.version == p.version then n else d) in s'.stored.revs;
  }

  /** Tainting one revision leaves one untainted version less. */
  lemma OneLess(revs: seq<Revision>, later: seq<Revision>, p: Revision, n: Revision)
    requires Distinct(revs) && p in revs && !Tainted(p) && Spoiled(revs, later, p, n)
    ensures UntaintedVersions(later) == UntaintedVersions(revs) - {p.version}
    ensures |UntaintedVersions(later)| < |UntaintedVersions(revs)|
  {
    assert p.version in UntaintedVersions(revs);
    assert forall r :: r in revs && !Tainted(r) && r.version != p.version ==> r in later;
  }

  lemma SameUntainted(cfg: Config, revs: seq<Revision>, later: seq<Revision>, from: Revision, to: Revision)
    requires Distinct(revs) && from in revs && to in revs && from.version != to.version && Moved(revs, later, from, to)
    ensures UntaintedVersions(later) == UntaintedVersions(revs)
    ensures AllTaintable(cfg, revs) ==> AllTaintable(cfg, later)
  {
    assert Tainted(Unpublished(from)) == Tainted(from) && Tainted(Republished(to)) == Tainted(to);
    assert Unpublished(from) in later && Republished(to) in later;
    forall v | v in UntaintedVersions(revs) ensures v in UntaintedVersions(later) {
      var r :| r in revs && !Tainted(r) && r.version == v;
      if v == from.version {
        SameVersionSame(revs, r, from);
      } else if v == to.version {
        SameVersionSame(revs, r, to);
      } else {
        assert r in later;
      }
    }
    forall v | v in UntaintedVersions(later) ensures v in UntaintedVersions(revs) {
      var r :| r in later && !Tainted(r) && r.version == v;
      assert r == Unpublished(from) || r == Republished(to) || r in revs;
    }
    StillTaintable(cfg, from);
    StillTaintable(cfg, to);
  }

  lemma StillTaintable(cfg: Config, r: Revision)
    ensures Taintable(cfg, r) ==> Taintable(cfg, Unpublished(r)) && Taintable(cfg, Republished(r))
  {
    var a, b := Unpublished(r), Republished(r);
    assert a.resources == b.resources == r.resources;
    assert CanBeWrong(cfg, r) ==> CanBeWrong(cfg, a) && CanBeWrong(cfg, b);
    if CanLoad(cfg, r) {
      var w: World :| w.decode == cfg.decode && LoadsIn(w, r);
      assert LoadsIn(w, a) && LoadsIn(w, b);
    }
  }

  // ---------------------------------------------------------------------
  // The way back

  /** A reconcile moves the publication to the topmost revision and stops there. */
  lemma MovesTo(cfg: Config, s: State, from: Revision, to: Revision)
    returns (s1: State, s2: State, s3: State, s': State)
    requires Idle(s) && AllTaintable(cfg, s.stored.revs) && from in s.stored.revs && Published(from)
    requires IsTopmost(s.desired, s.stored.revs, to) && to.version != from.version
    ensures GoesTo(cfg, s, s1) && [Unpublish(from)] <= s1.pending && Step(cfg, s1, Send, s2) && s2.desired == s1.desired
    ensures [Publish(to)] <= s2.pending && Step(cfg, s2, Send, s3) && s3.desired == s2.desired
    ensures GoesTo(cfg, s3, s') && Idle(s') && AllTaintable(cfg, s'.stored.revs) && s'.desired == s.desired
    ensures Moved(s.stored.revs, s'.stored.revs, from, to)
    ensures UntaintedVersions(s'.stored.revs) == UntaintedVersions(s.stored.revs)
  {
    s1, s2, s3 := MoveOver(cfg, s, from, to);
    s' := GiveUpStep(cfg, s3);
    GoesStep(cfg, s, Begin, s1);
    GoesStep(cfg, s3, GiveUp, s');
    StepKeepsSound(cfg, s, Begin, s1);
    StepKeepsSound(cfg, s1, Send, s2);
    StepKeepsSound(cfg, s2, Send, s3);
    GoesSound(cfg, s3, s');
    SameUntainted(cfg, s.stored.revs, s'.stored.revs, from, to);
    MovedVersions(s.stored.revs, s'.stored.revs, from, to);
  }

  lemma MovedVersions(revs: seq<Revision>, later: seq<Revision>, from: Revision, to: Revision)
    requires Moved(revs, later, from, to)
    ensures forall x :: x in revs ==> exists y :: y in later && y.version == x.version
  {
    forall x | x in revs ensures exists y :: y in later && y.version == x.version {
      if x.version == from.version {
        assert Unpublished(from) in later;
      } else if x.version == to.version {
        assert Republished(to) in later;
      } else {
        assert x in later;
      }
    }
  }

  lemma Sends(cfg: Config, s: State, s1: State, s2: State, s3: State, s': State)
    requires GoesTo(cfg, s, s1) && Step(cfg, s1, Send, s2) && Step(cfg, s2, Send, s3) && GoesTo(cfg, s3, s')
    requires !SendsCreate(s1, Send) && !SendsCreate(s2, Send) && s1.desired == s2.desired == s3.desired
    ensures GoesTo(cfg, s, s2) && GoesTo(cfg, s2, s') && GoesTo(cfg, s, s')
  {
    GoesStep(cfg, s1, Send, s2);
    GoesOn(cfg, s, s1, s2);
    GoesStep(cfg, s2, Send, s3);
    GoesOn(cfg, s2, s3, s');
    GoesOn(cfg, s, s2, s');
  }

  /** What is published gets tainted and the next one is published, until the next one is `e`. */
  lemma {:induction false} ComesBack(cfg: Config, s: State, p: Revision, e: Revision)
    requires Idle(s) && AllTaintable(cfg, s.stored.revs) && p in s.stored.revs && Published(p) && !Tainted(p)
    requires e in s.stored.revs && !Tainted(e) && e.version != p.version
    ensures CanPublish(cfg, s, e.version)
    decreases |UntaintedVersions(s.stored.revs)|
  {
    var a, bad := GetsTainted(cfg, s, p);
    OneLess(s.stored.revs, a.stored.revs, p, bad);
    var t := TopExists(a.desired, a.stored.revs, e);
    if t.version == bad.version {
      SameVersionSame(a.stored.revs, t, bad);
    }
    var s1, s2, s3, b := MovesTo(cfg, a, bad, t);
    Sends(cfg, a, s1, s2, s3, b);
    if t.version == e.version {
      PublishNow(cfg, s2, t, s3);
      GoesOn(cfg, s, a, s2);
      PublishAfter(cfg, s, s2, e.version);
    } else {
      ComesBack(cfg, b, Republished(t), e);
      GoesOn(cfg, s, a, b);
      PublishAfter(cfg, s, b, e.version);
    }
  }

  /** From an idle state: the topmost revision is published instead of `e`, and the way back leads to `e`. */
  lemma IdleReturns(cfg: Config, s: State, e: Revision)
    requires Idle(s) && AllTaintable(cfg, s.stored.revs) && Passed(s, e)
    ensures CanReturn(cfg, s, e.version) && CanPublish(cfg, s, e.version)
  {
    var t := TopExists(s.desired, s.stored.revs, e);
    if t.version == e.version {
      SameVersionSame(s.stored.revs, t, e);
    }
    var s1, s2, s3, b := MovesTo(cfg, s, e, t);
    Sends(cfg, s, s1, s2, s3, b);
    assert Republished(t) in b.stored.revs && Unpublished(e) in b.stored.revs;
    ComesBack(cfg, b, Republished(t), Unpublished(e));
    PublishAfter(cfg, s2, b, e.version);
    ReturnOnceUnpublished(cfg, s1, e, s2);
    ReturnAfter(cfg, s, s1, e.version);
    PublishAfter(cfg, s, b, e.version);
  }

  /** From an idle state in which nothing is published. */
  lemma NothingPublished(cfg: Config, s: State, e: Revision)
    requires Idle(s) && AllTaintable(cfg, s.stored.revs) && NonePublished(s.stored.revs)
    requires e in s.stored.revs && !Tainted(e)
    ensures CanPublish(cfg, s, e.version)
  {
    var t := TopExists(s.desired, s.stored.revs, e);
    PlanPublishes(s, t);
    var s1 := BeginsStep(cfg, s);
    var s2 := PublishStep(cfg, s1, t);
    GoesStep(cfg, s, Begin, s1);
    if t.version == e.version {
      PublishNow(cfg, s1, t, s2);
      PublishAfter(cfg, s, s1, e.version);
    } else {
      GoesStep(cfg, s1, Send, s2);
      GoesOn(cfg, s, s1, s2);
      PublishedInstead(cfg, s, s2, t, e);
      PublishAfter(cfg, s, s2, e.version);
    }
  }

  lemma PublishedInstead(cfg: Config, s: State, s': State, t: Revision, e: Revision)
    requires Idle(s) && AllTaintable(cfg, s.stored.revs) && GoesTo(cfg, s, s') && s'.stored.terminating == []
    requires t in s.stored.revs && !Tainted(t) && e in s.stored.revs && !Tainted(e) && e.version != t.version
    requires forall x :: x in s'.stored.revs <==> x == Republished(t) || (x in s.stored.revs && x.version != t.version)
    ensures CanPublish(cfg, s', e.version)
  {
    GoesSound(cfg, s, s');
    var b := GiveUpStep(cfg, s');
    GoesStep(cfg, s', GiveUp, b);
    GoesSound(cfg, s', b);
    StillTaintable(cfg, t);
    var d :| d in s.stored.revs && d.version == s.desired;
    assert (if d.version == t.version then Republished(t) else d) in b.stored.revs;
    ComesBack(cfg, b, Republished(t), e);
    PublishAfter(cfg, s', b, e.version);
  }

  // ---------------------------------------------------------------------
  // From any state

  /** The running plan is given up and the finalizers of what is terminating run. */
  lemma Settles(cfg: Config, s: State) returns (s': State)
    requires Sound(s) && DesiredStored(s)
    ensures GoesTo(cfg, s, s') && Idle(s') && s'.stored.revs == s.stored.revs && s'.desired == s.desired
  {
    var s1 := GiveUpStep(cfg, s);
    GoesStep(cfg, s, GiveUp, s1);
    GoesSound(cfg, s, s1);
    s' := Drained(cfg, s1);
    GoesOn(cfg, s, s1, s');
    GoesSound(cfg, s1, s');
  }

  lemma {:induction false} Drained(cfg: Config, s: State) returns (s': State)
    requires s.pending == []
    ensures GoesTo(cfg, s, s') && s'.pending == [] && s'.desired == s.desired
    ensures s'.stored.revs == s.stored.revs && s'.stored.terminating == []
    decreases |s.stored.terminating|
  {
    if s.stored.terminating == [] {
      s' := s;
      GoesNowhere(cfg, s);
    } else {
      var r := s.stored.terminating[0];
      var s1 := s.(stored := s.stored.(terminating := s.stored.terminating[1..]),
                   cache := if Published(r) then None else s.cache,
                   history := if Published(r) then s.history + [Clear(cfg.node)] else s.history,
                   clock := s.clock + 1);
      GoesStep(cfg, s, Finalize, s1);
      s' := Drained(cfg, s1);
      GoesOn(cfg, s, s1, s');
    }
  }

  lemma PassedReturns(cfg: Config, s: State, e: Revision)
    requires Sound(s) && DesiredStored(s) && AllTaintable(cfg, s.stored.revs) && Passed(s, e)
    ensures CanReturn(cfg, s, e.version) && CanPublish(cfg, s, e.version)
  {
    var s' := Settles(cfg, s);
    IdleReturns(cfg, s', e);
    ReturnAfter(cfg, s, s', e.version);
    PublishAfter(cfg, s, s', e.version);
  }

  /** What is about to be unpublished is, and then the way leads back to it, on top or not. */
  lemma DroppedReturns(cfg: Config, s: State, e: Revision)
    requires Sound(s) && DesiredStored(s) && AllTaintable(cfg, s.stored.revs) && Dropping(s, e)
    ensures CanReturn(cfg, s, e.version)
  {
    var s1 := UnpublishStep(cfg, s, e);
    StepKeepsSound(cfg, s, Send, s1);
    UnpublishKeeps(cfg, s, s1, e);
    var s' := Settles(cfg, s1);
    NothingPublished(cfg, s', Unpublished(e));
    PublishAfter(cfg, s1, s', e.version);
    ReturnOnceUnpublished(cfg, s, e, s1);
  }

  /** What is about to be published though not on top: once published it is passed. */
  lemma LeftBehindNow(cfg: Config, s: State, e: Revision)
    requires Sound(s) && DesiredStored(s) && AllTaintable(cfg, s.stored.revs)
    requires [Publish(e)] <= s.pending && LeftBehind(s, e)
    ensures CanReturn(cfg, s, e.version) && CanRepeat(cfg, s)
  {
    var s1 := PublishStep(cfg, s, e);
    GoesStep(cfg, s, Send, s1);
    StepKeepsSound(cfg, s, Send, s1);
    StepKeepsOrder(cfg, s, Send, s1);
    StillTaintable(cfg, e);
    StillPassed(s.desired, s.stored.revs, s1.stored.revs, e);
    var d :| d in s.stored.revs && d.version == s.desired;
    assert (if d.version == e.version then Republished(e) else d) in s1.stored.revs;
    PassedReturns(cfg, s1, Republished(e));
    ReturnAfter(cfg, s, s1, e.version);
    RepeatOncePublished(cfg, s, e, s1);
  }

  lemma StillPassed(desired: string, revs: seq<Revision>, later: seq<Revision>, e: Revision)
    requires Distinct(revs) && KeepsOrder(revs, later) && e in revs && !Tainted(e) && !IsTopmost(desired, revs, e)
    requires forall x :: x in later <==> x == Republished(e) || (x in revs && x.version != e.version)
    ensures Published(Republished(e)) && !Tainted(Republished(e)) && !IsTopmost(desired, later, Republished(e))
  {
    var u :| u in revs && !Tainted(u) && u.version != e.version && !Before(desired, revs, u, e);
    var n := Republished(e);
    assert u in later && n in later && SortTime(n) == SortTime(e);
    assert !Before(desired, later, u, n);
  }

  lemma LeftBehindReturns(cfg: Config, s: State, e: Revision)
    requires Sound(s) && DesiredStored(s) && AllTaintable(cfg, s.stored.revs) && LeftBehind(s, e)
    ensures CanReturn(cfg, s, e.version) && CanRepeat(cfg, s)
  {
    if [Publish(e)] <= s.pending {
      LeftBehindNow(cfg, s, e);
    } else {
      var s1 := FirstUnpublishes(cfg, s, e);
      GoesStep(cfg, s, Send, s1);
      LeftBehindNow(cfg, s1, e);
      ReturnAfter(cfg, s, s1, e.version);
      RepeatAfter(cfg, s, s1);
    }
  }

  /** The unpublication that comes first leaves the revision where it was. */
  lemma FirstUnpublishes(cfg: Config, s: State, e: Revision) returns (s': State)
    requires Sound(s) && DesiredStored(s) && AllTaintable(cfg, s.stored.revs)
    requires LeftBehind(s, e) && !([Publish(e)] <= s.pending)
    ensures Step(cfg, s, Send, s') && !SendsCreate(s, Send) && s'.desired == s.desired && Sound(s') && DesiredStored(s')
    ensures AllTaintable(cfg, s'.stored.revs) && [Publish(e)] <= s'.pending && LeftBehind(s', e)
  {
    var u := s.pending[0].seen;
    assert Unpublishing(s.stored.revs, s.pending);
    s' := UnpublishStep(cfg, s, u);
    StepKeepsSound(cfg, s, Send, s');
    StepKeepsOrder(cfg, s, Send, s');
    StillNotOnTop(s.desired, s.stored.revs, s'.stored.revs, u, e);
    UnpublishKeeps(cfg, s, s', u);
  }

  lemma UnpublishKeeps(cfg: Config, s: State, s': State, u: Revision)
    requires DesiredStored(s) && AllTaintable(cfg, s.stored.revs) && u in s.stored.revs && s'.desired == s.desired
    requires forall x :: x in s'.stored.revs <==> x == Unpublished(u) || (x in s.stored.revs && x.version != u.version)
    ensures DesiredStored(s') && AllTaintable(cfg, s'.stored.revs)
  {
    StillTaintable(cfg, u);
    var d :| d in s.stored.revs && d.version == s.desired;
    assert (if d.version == u.version then Unpublished(u) else d) in s'.stored.revs;
  }

  lemma StillNotOnTop(desired: string, revs: seq<Revision>, later: seq<Revision>, u: Revision, e: Revision)
    requires Distinct(revs) && KeepsOrder(revs, later) && u in revs && e in revs && u.version != e.version
    requires !Tainted(e) && !IsTopmost(desired, revs, e)
    requires forall x :: x in later <==> x == Unpublished(u) || (x in revs && x.version != u.version)
    ensures e in later && !IsTopmost(desired, later, e)
  {
    var x :| x in revs && !Tainted(x) && x.version != e.version && !Before(desired, revs, x, e);
    if x.version == u.version {
      SameVersionSame(revs, x, u);
    }
    var y := if x.version == u.version then Unpublished(u) else x;
    assert y in later && SortTime(y) == SortTime(x) && !Tainted(y) && y.version == x.version;
    assert !Before(desired, later, y, e);
  }

  // ---------------------------------------------------------------------
  // If and only if

  /**
   Exactly when a version can be moved off and come back while the desired version stays, whatever reconcile is
   running: the desired revision is stored, and the version is that of an untainted revision which is published
   with another above it, or about to be unpublished, or about to be published without being on top.
   */
  lemma ReturnsIff(cfg: Config, s: State, v: string)
    requires Sound(s) && AllTaintable(cfg, s.stored.revs)
    ensures CanReturn(cfg, s, v) <==> DesiredStored(s) && exists e :: MayReturn(s, e) && e.version == v
  {
    if CanReturn(cfg, s, v) {
      var trace, labels, i: nat, j: nat :| IsReturn(cfg, s, v, trace, labels, i, j);
      ReturnNeeds(cfg, trace, labels, v, i, j);
    }
    if DesiredStored(s) && exists e :: MayReturn(s, e) && e.version == v {
      var e :| MayReturn(s, e) && e.version == v;
      if Passed(s, e) {
        PassedReturns(cfg, s, e);
      } else if Dropping(s, e) {
        DroppedReturns(cfg, s, e);
      } else {
        LeftBehindReturns(cfg, s, e);
      }
    }
  }

  /** Exactly when a version can be published twice: the running plan leaves it behind. */
  lemma RepeatsIff(cfg: Config, s: State)
    requires Sound(s) && AllTaintable(cfg, s.stored.revs)
    ensures CanRepeat(cfg, s) <==> DesiredStored(s) && exists e :: LeftBehind(s, e)
  {
    if CanRepeat(cfg, s) {
      var trace, labels, i: nat, j: nat :| IsRepeat(cfg, s, trace, labels, i, j);
      RepeatNeeds(cfg, trace, labels, i, j);
    }
    if DesiredStored(s) && exists e :: LeftBehind(s, e) {
      var e :| LeftBehind(s, e);
      LeftBehindReturns(cfg, s, e);
    }
  }
}

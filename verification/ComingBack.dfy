/**
 What a version needs to be moved off and come back, or to be published twice, while
 the desired version stays: conditions on the state at the start, whatever reconcile
 is running then.
 */
module ComingBack {
  import opened Wrappers
  import opened StatRuns
  import opened Snapshots
  import opened Revisions
  import opened Reconciler
  import opened RevisionController
  import opened Protocol
  import opened NoFlapping

  // ---------------------------------------------------------------------
  // From a moment between two reconciles

  lemma {:induction false} PublishedOrigin(cfg: Config, trace: seq<State>, labels: seq<Label>, n: nat, r: Revision)
    requires Course(cfg, trace, labels) && n <= |labels|
    requires r in trace[n].stored.revs && Published(r)
    ensures || r.version in PublishLog(trace, labels, n)
            || exists e :: e in trace[0].stored.revs && Published(e) && e.version == r.version
  {
    if n > 0 {
      var m := PublishedAt(cfg, trace, labels, n - 1, r);
      if m.Some? {
        PublishedOrigin(cfg, trace, labels, n - 1, m.value);
      }
    }
  }

  /** A published revision was so one step before, or the step published it. */
  lemma PublishedAt(cfg: Config, trace: seq<State>, labels: seq<Label>, n: nat, r: Revision)
    returns (m: Option<Revision>)
    requires Course(cfg, trace, labels) && n < |labels|
    requires r in trace[n + 1].stored.revs && Published(r)
    ensures m.None? ==> SendsPublish(trace[n], labels[n]) && r.version == trace[n].pending[0].seen.version
    ensures m.Some? ==> m.value in trace[n].stored.revs && Published(m.value) && m.value.version == r.version
  {
    RunKeepsInv(cfg, trace, labels, n);
    assert StepAt(cfg, trace, labels, n);
    if SendsPublish(trace[n], labels[n]) {
      SendPublish(trace[n], trace[n + 1], trace[n].pending[0].seen);
      m := None;
    } else {
      var before := PublishedBefore(cfg, trace[n], labels[n], trace[n + 1], r);
      m := Some(before);
    }
  }

  lemma PublishedBefore(cfg: Config, s: State, l: Label, s': State, r: Revision) returns (m: Revision)
    requires Inv(s) && Step(cfg, s, l, s') && !SendsCreate(s, l) && !SendsPublish(s, l) && r in s'.stored.revs
    requires Published(r)
    ensures m in s.stored.revs && Published(m) && m.version == r.version
  {
    m := r;
    match l
    case Send =>
      match s.pending[0] {
        case Unpublish(u) => SendUnpublish(s, s', u);
        case Delete(v) => SendDelete(s, s', v);
      }
    case Reconcile(_, _, _, _, _, _) =>
      var x, n := ReconcileKeeps(cfg, s, l, s');
      m := if r == n then x else r;
    case _ =>
  }

  /** What is published and on top when the window begins is never published again by it. */
  lemma TopStaysPut(cfg: Config, trace: seq<State>, labels: seq<Label>, e: Revision, j: nat)
    requires Window(cfg, trace, labels) && j < |labels| && SendsPublish(trace[j], labels[j])
    requires e in trace[0].stored.revs && Published(e) && IsTopmost(trace[0].desired, trace[0].stored.revs, e)
    ensures trace[j].pending[0].seen.version != e.version
  {
    var revs := trace[0].stored.revs;
    forall r | r in revs && r.version in [e.version] ensures r == e {
      SameVersionSame(revs, r, e);
    }
    ReadyWhenIdle(trace, labels, [e.version]);
    StepInStretch(cfg, trace, labels, [e.version], j);
  }

  /** A version is moved off by step `i` and published again by the later step `j`. */
  ghost predicate Returns(trace: seq<State>, labels: seq<Label>, v: string, i: nat, j: nat) {
    && i < j < |labels| < |trace| && SendsUnpublish(trace[i], labels[i]) && SendsPublish(trace[j], labels[j])
    && trace[i].pending[0].seen.version == v && trace[j].pending[0].seen.version == v
  }

  /** Published and untainted, yet with an untainted revision above it: what an earlier desired version left. */
  ghost predicate Passed(s: State, e: Revision) {
    e in s.stored.revs && Published(e) && !Tainted(e) && !IsTopmost(s.desired, s.stored.revs, e)
  }

  /** A version the window moves off comes back only if it was passed when the window began. Every other is gone
      for good. */
  lemma OnlyThePassedReturns(cfg: Config, trace: seq<State>, labels: seq<Label>, v: string, i: nat, j: nat)
    requires Window(cfg, trace, labels) && Returns(trace, labels, v, i, j)
    ensures exists e :: Passed(trace[0], e) && e.version == v
  {
    var u, c := trace[i].pending[0].seen, trace[j].pending[0].seen;
    ReadyWhenIdle(trace, labels, []);
    StepInStretch(cfg, trace, labels, [], i);
    StepInStretch(cfg, trace, labels, [], j);
    RunKeepsSound(cfg, trace, labels, i);
    StemsOver(cfg, trace, labels, i, j);
    var m :| m in trace[i].stored.revs && StemsFrom(m, c);
    SameVersionSame(trace[i].stored.revs, m, u);
    StemsOver(cfg, trace, labels, 0, i);
    var e :| e in trace[0].stored.revs && StemsFrom(e, u);
    UnpublishedWasPublished(trace[i]);
    PublishedOrigin(cfg, trace, labels, i, u);
    var p :| p in trace[0].stored.revs && Published(p) && p.version == u.version;
    SameVersionSame(trace[0].stored.revs, p, e);
    if IsTopmost(trace[0].desired, trace[0].stored.revs, e) {
      TopStaysPut(cfg, trace, labels, e, j);
    }
  }

  lemma UnpublishedWasPublished(s: State)
    requires Inv(s) && s.pending != [] && s.pending[0].Unpublish?
    ensures Published(s.pending[0].seen)
  {
  }

  // ---------------------------------------------------------------------
  // What a version needs to come back, whatever reconcile is running

  ghost predicate DesiredStored(s: State) {
    exists d :: d in s.stored.revs && d.version == s.desired
  }

  /** The plan that is running can still publish `e`: none of the copies it holds has changed. */
  ghost predicate CanStillPublish(s: State, e: Revision) {
    && e in s.stored.revs
    && (|| [Publish(e)] <= s.pending
        || (&& |s.pending| > 1 && s.pending[1] == Publish(e)
            && s.pending[0].Unpublish? && s.pending[0].seen in s.stored.revs))
  }

  /** It is about to publish what is no longer on top, by a plan for an earlier desired version. */
  ghost predicate LeftBehind(s: State, e: Revision) {
    CanStillPublish(s, e) && !IsTopmost(s.desired, s.stored.revs, e)
  }

  /** It is about to unpublish an untainted revision. */
  ghost predicate Dropping(s: State, e: Revision) {
    [Unpublish(e)] <= s.pending && e in s.stored.revs && !Tainted(e)
  }

  ghost predicate MayReturn(s: State, e: Revision) {
    Passed(s, e) || Dropping(s, e) || LeftBehind(s, e)
  }

  /** A copy that is still the stored one at some later moment has been so all along. */
  lemma StillThere(cfg: Config, trace: seq<State>, labels: seq<Label>, seen: Revision, n: nat)
    requires Course(cfg, trace, labels) && n <= |labels|
    requires Coherent(trace[0].stored.revs, seen) && seen in trace[n].stored.revs
    ensures seen in trace[0].stored.revs
  {
    StemsOver(cfg, trace, labels, 0, n);
    var e :| e in trace[0].stored.revs && StemsFrom(e, seen);
  }

  /** How far the plan that was running at the start has got: what it has unpublished was unchanged. */
  ghost predicate PlanAt(trace: seq<State>, n: nat) {
    && n < |trace|
    && var ws, now := trace[0].pending, trace[n].pending;
       || now == ws
       || (ws != [] && ws[0].Unpublish? && ws[0].seen in trace[0].stored.revs && now == ws[1..])
       || AllDeletes(now)
  }

  lemma PlanStep(cfg: Config, trace: seq<State>, labels: seq<Label>, n: nat)
    requires Course(cfg, trace, labels) && n < |labels| && trace[n].pending != [] && PlanAt(trace, n)
    ensures PlanAt(trace, n + 1)
  {
    var s, l, s' := trace[n], labels[n], trace[n + 1];
    RunKeepsInv(cfg, trace, labels, n);
    assert StepAt(cfg, trace, labels, n);
    if l.Send? {
      if s.pending[0].Unpublish? {
        SendUnpublish(s, s', s.pending[0].seen);
        UnpublishIsFirst(trace[0], s.pending);
        StillThere(cfg, trace, labels, s.pending[0].seen, n);
      } else if s.pending[0].Publish? {
        SendPublish(s, s', s.pending[0].seen);
      } else if s.pending[0].Delete? {
        SendDelete(s, s', s.pending[0].version);
      }
    }
  }

  /** An unpublication only stands at the head of a plan. */
  lemma UnpublishIsFirst(s: State, now: seq<Write>)
    requires Inv(s) && now != [] && now[0].Unpublish?
    requires now == s.pending || (s.pending != [] && s.pending[0].Unpublish? && now == s.pending[1..])
    ensures now == s.pending && Coherent(s.stored.revs, now[0].seen)
  {
    assert Unpublishing(s.stored.revs, s.pending);
  }

  lemma {:induction false} PlanFollowed(cfg: Config, trace: seq<State>, labels: seq<Label>, n: nat)
    requires Course(cfg, trace, labels) && n <= |labels|
    requires forall j :: 0 <= j < n ==> trace[j].pending != []
    ensures PlanAt(trace, n)
  {
    if n > 0 {
      PlanFollowed(cfg, trace, labels, n - 1);
      PlanStep(cfg, trace, labels, n - 1);
    }
  }

  /** What that plan publishes, it could publish from the start. */
  lemma LeftoverPublication(cfg: Config, trace: seq<State>, labels: seq<Label>, n: nat)
    requires Course(cfg, trace, labels) && n < |labels| && SendsPublish(trace[n], labels[n])
    requires forall j :: 0 <= j < n ==> trace[j].pending != []
    ensures CanStillPublish(trace[0], trace[n].pending[0].seen)
  {
    var c := trace[n].pending[0].seen;
    PlanFollowed(cfg, trace, labels, n);
    RunKeepsInv(cfg, trace, labels, n);
    assert StepAt(cfg, trace, labels, n);
    SendPublish(trace[n], trace[n + 1], c);
    PublishIsCoherent(trace[0], trace[n].pending);
    StillThere(cfg, trace, labels, c, n);
  }

  lemma PublishIsCoherent(s: State, now: seq<Write>)
    requires Inv(s) && now != [] && now[0].Publish?
    requires now == s.pending || (s.pending != [] && s.pending[0].Unpublish? && now == s.pending[1..])
    ensures Coherent(s.stored.revs, now[0].seen)
  {
    assert now == s.pending ==> Publishing(s.stored.revs, s.pending);
    assert now != s.pending ==> Unpublishing(s.stored.revs, s.pending);
  }

  lemma LeftoverUnpublication(cfg: Config, trace: seq<State>, labels: seq<Label>, n: nat)
    requires Course(cfg, trace, labels) && n < |labels| && SendsUnpublish(trace[n], labels[n])
    requires forall j :: 0 <= j < n ==> trace[j].pending != []
    ensures [trace[n].pending[0]] <= trace[0].pending && trace[n].pending[0].seen in trace[0].stored.revs
  {
    var u := trace[n].pending[0].seen;
    PlanFollowed(cfg, trace, labels, n);
    RunKeepsInv(cfg, trace, labels, n);
    assert StepAt(cfg, trace, labels, n);
    SendUnpublish(trace[n], trace[n + 1], u);
    UnpublishIsFirst(trace[0], trace[n].pending);
    StillThere(cfg, trace, labels, u, n);
  }

  /** As long as the desired revision is missing, nothing but its creation is planned. */
  lemma {:induction false} NothingButCreation(cfg: Config, trace: seq<State>, labels: seq<Label>, n: nat)
    requires Window(cfg, trace, labels) && !DesiredStored(trace[0]) && n <= |labels|
    ensures trace[n].pending == [] || trace[n].pending[0].Create?
  {
    if n > 0 {
      NothingButCreation(cfg, trace, labels, n - 1);
      StemsOver(cfg, trace, labels, 0, n - 1);
      assert StepAt(cfg, trace, labels, n - 1);
      var s := trace[n - 1];
      assert !SendsCreate(s, labels[n - 1]);
      forall k | 0 <= k < |s.stored.revs| ensures s.stored.revs[k].version != s.desired {
        assert s.stored.revs[k] in s.stored.revs;
      }
      CountNone(s.stored.revs, s.desired);
    }
  }

  /** Once no reconcile is running, there are publications only if the desired revision is stored. */
  lemma DesiredAtPublication(cfg: Config, trace: seq<State>, labels: seq<Label>, k: nat, j: nat)
    requires Course(cfg, trace, labels) && k <= j < |labels| && trace[k].pending == []
    requires SendsPublish(trace[j], labels[j])
    ensures DesiredStored(trace[0])
  {
    RunKeepsSound(cfg, trace, labels, k);
    LaterIsStretch(cfg, trace, labels, k);
    StemsOver(cfg, trace, labels, 0, k);
    if !DesiredStored(trace[k]) {
      NothingButCreation(cfg, trace[k..], labels[k..], j - k);
    }
  }

  lemma {:induction false} InLog(trace: seq<State>, labels: seq<Label>, i: nat, n: nat)
    requires i < n <= |labels| < |trace| && SendsPublish(trace[i], labels[i])
    ensures trace[i].pending[0].seen.version in PublishLog(trace, labels, n)
  {
    if i < n - 1 {
      InLog(trace, labels, i, n - 1);
    }
  }

  lemma {:induction false} FromLog(trace: seq<State>, labels: seq<Label>, n: nat, v: string) returns (m: nat)
    requires n <= |labels| < |trace| && v in PublishLog(trace, labels, n)
    ensures m < n && SendsPublish(trace[m], labels[m]) && trace[m].pending[0].seen.version == v
  {
    if v in PublishLog(trace, labels, n - 1) {
      m := FromLog(trace, labels, n - 1, v);
    } else {
      m := n - 1;
    }
  }

  /** If the running plan publishes nothing but what is on top, it is as good as one just made. */
  lemma ReadyUnlessLeftBehind(trace: seq<State>, labels: seq<Label>)
    requires |labels| < |trace| && forall e :: !LeftBehind(trace[0], e)
    ensures ReadyAt(trace, labels, [], 0)
  {
    var s := trace[0];
    if s.pending != [] {
      assert s.pending[0].Publish? ==> !LeftBehind(s, s.pending[0].seen);
      assert |s.pending| > 1 && s.pending[1].Publish? ==> !LeftBehind(s, s.pending[1].seen);
    }
  }

  /** The same when the published revision is on top and the plan does not unpublish it. */
  lemma ReadyUnlessDropping(trace: seq<State>, labels: seq<Label>, e: Revision)
    requires |labels| < |trace| && Inv(trace[0]) && !Dropping(trace[0], e)
    requires e in trace[0].stored.revs && Published(e) && IsTopmost(trace[0].desired, trace[0].stored.revs, e)
    ensures ReadyAt(trace, labels, [e.version], 0)
  {
    var s := trace[0];
    assert [e.version] + PublishLog(trace, labels, 0) == [e.version];
    forall r | r in s.stored.revs && r.version in [e.version] ensures r == e {
      SameVersionSame(s.stored.revs, r, e);
    }
    assert s.pending != [] && s.pending[0].Unpublish? ==> Unpublishing(s.stored.revs, s.pending);
    assert s.pending != [] && s.pending[0] == Unpublish(e) ==> [Unpublish(e)] <= s.pending;
  }

  /** The plan has at most one publication. */
  lemma OnePublication(s: State, a: Revision, b: Revision)
    requires CanStillPublish(s, a) && CanStillPublish(s, b)
    ensures a == b
  {
    assert [Publish(a)] <= s.pending ==> s.pending[0] == Publish(a);
    assert [Publish(b)] <= s.pending ==> s.pending[0] == Publish(b);
  }

  /** The version that is published at `j` was stored and untainted from the start. */
  lemma UntaintedFromStart(cfg: Config, trace: seq<State>, labels: seq<Label>, j: nat, e: Revision)
    requires Course(cfg, trace, labels) && j < |labels| && SendsPublish(trace[j], labels[j])
    requires e in trace[0].stored.revs && e.version == trace[j].pending[0].seen.version
    ensures !Tainted(e)
  {
    var c := trace[j].pending[0].seen;
    RunKeepsInv(cfg, trace, labels, j);
    assert StepAt(cfg, trace, labels, j);
    SendPublish(trace[j], trace[j + 1], c);
    StemsOver(cfg, trace, labels, 0, j);
    var x :| x in trace[0].stored.revs && StemsFrom(x, c);
    SameVersionSame(trace[0].stored.revs, x, e);
  }

  /** Moved off by the plan that was running: then that plan was about to do so. */
  lemma DroppedReturn(cfg: Config, trace: seq<State>, labels: seq<Label>, v: string, i: nat, j: nat)
    requires Course(cfg, trace, labels) && Returns(trace, labels, v, i, j)
    requires forall m :: 0 <= m < i ==> trace[m].pending != []
    ensures DesiredStored(trace[0]) && Dropping(trace[0], trace[i].pending[0].seen)
  {
    var u := trace[i].pending[0].seen;
    LeftoverUnpublication(cfg, trace, labels, i);
    assert Unpublishing(trace[0].stored.revs, trace[0].pending);
    UntaintedFromStart(cfg, trace, labels, j, u);
    var k := FirstIdle(trace, j);
    if trace[k].pending != [] {
      LeftoverPublication(cfg, trace, labels, j);
    } else {
      DesiredAtPublication(cfg, trace, labels, k, j);
    }
  }

  /** Published by that plan, moved off and published again later: then it was left behind. */
  lemma LeftBehindReturn(cfg: Config, trace: seq<State>, labels: seq<Label>, m: nat, j: nat)
    requires Course(cfg, trace, labels) && m < j < |labels|
    requires SendsPublish(trace[m], labels[m]) && SendsPublish(trace[j], labels[j])
    requires trace[m].pending[0].seen.version == trace[j].pending[0].seen.version
    requires forall x :: 0 <= x < m ==> trace[x].pending != []
    ensures LeftBehind(trace[0], trace[m].pending[0].seen)
  {
    var e := trace[m].pending[0].seen;
    LeftoverPublication(cfg, trace, labels, m);
    if !LeftBehind(trace[0], e) {
      forall x ensures !LeftBehind(trace[0], x) {
        if LeftBehind(trace[0], x) {
          OnePublication(trace[0], x, e);
        }
      }
      ReadyUnlessLeftBehind(trace, labels);
      StepInStretch(cfg, trace, labels, [], j);
      InLog(trace, labels, m, j);
    }
  }

  /** Published from the start, moved off and published again later: then it was passed, or about to be dropped. */
  lemma PublishedReturn(cfg: Config, trace: seq<State>, labels: seq<Label>, e: Revision, j: nat)
    requires Course(cfg, trace, labels) && j < |labels| && SendsPublish(trace[j], labels[j])
    requires e in trace[0].stored.revs && Published(e) && e.version == trace[j].pending[0].seen.version
    ensures Passed(trace[0], e) || Dropping(trace[0], e)
  {
    UntaintedFromStart(cfg, trace, labels, j, e);
    if IsTopmost(trace[0].desired, trace[0].stored.revs, e) && !Dropping(trace[0], e) {
      ReadyUnlessDropping(trace, labels, e);
      StepInStretch(cfg, trace, labels, [e.version], j);
    }
  }

  /** Moved off by a reconcile that began later. */
  lemma LaterReturn(cfg: Config, trace: seq<State>, labels: seq<Label>, v: string, k: nat, i: nat, j: nat)
    requires Course(cfg, trace, labels) && Returns(trace, labels, v, i, j)
    requires k <= i && trace[k].pending == [] && forall m :: 0 <= m < k ==> trace[m].pending != []
    ensures DesiredStored(trace[0]) && exists e :: MayReturn(trace[0], e) && e.version == v
  {
    DesiredAtPublication(cfg, trace, labels, k, j);
    RunKeepsSound(cfg, trace, labels, k);
    LaterIsStretch(cfg, trace, labels, k);
    assert Returns(trace[k..], labels[k..], v, i - k, j - k);
    OnlyThePassedReturns(cfg, trace[k..], labels[k..], v, i - k, j - k);
    var x :| Passed(trace[k], x) && x.version == v;
    PublishedOrigin(cfg, trace, labels, k, x);
    if v in PublishLog(trace, labels, k) {
      var m := FromLog(trace, labels, k, v);
      LeftBehindReturn(cfg, trace, labels, m, j);
      assert MayReturn(trace[0], trace[m].pending[0].seen);
    } else {
      var e :| e in trace[0].stored.revs && Published(e) && e.version == v;
      PublishedReturn(cfg, trace, labels, e, j);
      assert MayReturn(trace[0], e);
    }
  }

  /** Whatever is running at the start, a version comes back only if the desired revision is stored and the version
      is one that may. */
  lemma ReturnNeeds(cfg: Config, trace: seq<State>, labels: seq<Label>, v: string, i: nat, j: nat)
    requires Course(cfg, trace, labels) && Returns(trace, labels, v, i, j)
    ensures DesiredStored(trace[0]) && exists e :: MayReturn(trace[0], e) && e.version == v
  {
    var k := FirstIdle(trace, |labels|);
    if i < k {
      DroppedReturn(cfg, trace, labels, v, i, j);
      assert MayReturn(trace[0], trace[i].pending[0].seen);
    } else {
      LaterReturn(cfg, trace, labels, v, k, i, j);
    }
  }

  /** A version is published by step `i` and again by the later step `j`. */
  ghost predicate Repeats(trace: seq<State>, labels: seq<Label>, i: nat, j: nat) {
    && i < j < |labels| < |trace| && SendsPublish(trace[i], labels[i]) && SendsPublish(trace[j], labels[j])
    && trace[i].pending[0].seen.version == trace[j].pending[0].seen.version
  }

  /** A version is published twice only if the plan running at the start leaves it behind. */
  lemma RepeatNeeds(cfg: Config, trace: seq<State>, labels: seq<Label>, i: nat, j: nat)
    requires Course(cfg, trace, labels) && Repeats(trace, labels, i, j)
    ensures DesiredStored(trace[0]) && exists e :: LeftBehind(trace[0], e)
  {
    if forall e :: !LeftBehind(trace[0], e) {
      ReadyUnlessLeftBehind(trace, labels);
      StepInStretch(cfg, trace, labels, [], j);
      InLog(trace, labels, i, j);
    }
    var k := FirstIdle(trace, j);
    if trace[k].pending != [] {
      LeftoverLog(cfg, trace, labels, j);
      InLog(trace, labels, i, j);
    } else {
      DesiredAtPublication(cfg, trace, labels, k, j);
    }
  }
}

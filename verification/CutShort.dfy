/**
 Why pruning must not be cut short: a run from a fresh node in which every pruning
 but one is finished. The one that fails leaves eleven revisions behind; the next
 reconcile publishes the oldest and deletes it, and its finalizer clears the
 snapshot in use.
 */
module CutShort {
  import opened Wrappers
  import opened StatRuns
  import opened Snapshots
  import opened Revisions
  import opened Reconciler
  import opened RevisionController
  import opened Protocol
  import opened NoFlapping
  import opened ComingBack
  import opened Rollback
  import opened Pruning

  // ---------------------------------------------------------------------
  // Orderly runs, put together

  ghost predicate Leads(cfg: Config, trace: seq<State>, labels: seq<Label>, s: State, s': State) {
    Orderly(cfg, trace, labels) && trace[0] == s && trace[|labels|] == s'
  }

  /** Some orderly run goes from one state to the other. */
  ghost predicate Reaches(cfg: Config, s: State, s': State) {
    exists trace, labels :: Leads(cfg, trace, labels, s, s')
  }

  lemma ReachesStep(cfg: Config, s: State, l: Label, s': State)
    requires Step(cfg, s, l, s') && LetsPruningFinish(s, l)
    ensures Reaches(cfg, s, s')
  {
    var t, m := [s, s'], [l];
    forall i | 0 <= i < |m| ensures StepAt(cfg, t, m, i) && LetsPruningFinish(t[i], m[i]) {
      assert i == 0;
    }
    assert Leads(cfg, t, m, s, s');
  }

  lemma ReachesOn(cfg: Config, a: State, b: State, c: State)
    requires Reaches(cfg, a, b) && Reaches(cfg, b, c)
    ensures Reaches(cfg, a, c)
  {
    var t, x :| Leads(cfg, t, x, a, b);
    var u, y :| Leads(cfg, u, y, b, c);
    LeadsOn(cfg, t, x, u, y);
    assert Leads(cfg, t + u[1..], x + y, a, c);
  }

  lemma LeadsOn(cfg: Config, t: seq<State>, a: seq<Label>, u: seq<State>, b: seq<Label>)
    requires Orderly(cfg, t, a) && Orderly(cfg, u, b) && u[0] == t[|a|]
    ensures Orderly(cfg, t + u[1..], a + b) && (t + u[1..])[|a + b|] == u[|b|]
  {
    var w, m := t + u[1..], a + b;
    assert forall i :: |a| <= i < |w| ==> w[i] == u[i - |a|];
    forall i | 0 <= i < |m| ensures StepAt(cfg, w, m, i) && LetsPruningFinish(w[i], m[i]) {
      if i < |a| {
        assert StepAt(cfg, t, a, i);
        assert w[i] == t[i] && m[i] == a[i] && w[i + 1] == t[i + 1];
      } else {
        var j := i - |a|;
        assert StepAt(cfg, u, b, j);
        assert w[i] == u[j] && m[i] == b[j] && w[i + 1] == u[j + 1];
      }
    }
  }

  // ---------------------------------------------------------------------
  // The steps of a rollout

  /** The three steps of a reconcile that moves the publication; its deletions are still to come. */
  lemma MovesOver(cfg: Config, s: State, from: Revision, to: Revision) returns (mid: State, s': State)
    requires Idle(s) && from in s.stored.revs && Published(from)
    requires IsTopmost(s.desired, s.stored.revs, to) && to.version != from.version
    ensures Reaches(cfg, s, mid) && Reaches(cfg, mid, s') && Sound(s') && s'.clock == s.clock + 3
    ensures mid.pending == [Unpublish(from), Publish(to)] + Deletes(Sorted(s.desired, s.stored.revs))
    ensures s'.pending == Deletes(Sorted(s.desired, s.stored.revs))
    ensures s' == s.(stored := s.stored.(revs := s'.stored.revs), pending := s'.pending, clock := s'.clock)
    ensures |s'.stored.revs| == |s.stored.revs| && Moved(s.stored.revs, s'.stored.revs, from, to)
  {
    var s1, s2, s3 := MoveOver(cfg, s, from, to);
    mid, s' := s1, s3;
    ReachesStep(cfg, s, Begin, s1);
    ReachesStep(cfg, s1, Send, s2);
    ReachesStep(cfg, s2, Send, s3);
    ReachesOn(cfg, s1, s2, s3);
    StepKeepsSound(cfg, s, Begin, s1);
    StepKeepsSound(cfg, s1, Send, s2);
    StepKeepsSound(cfg, s2, Send, s3);
  }

  lemma TaintsIt(cfg: Config, s: State, p: Revision) returns (s': State)
    requires Sound(s) && p in s.stored.revs && Published(p) && !Tainted(p) && CanBeWrong(cfg, p)
    ensures Reaches(cfg, s, s') && Sound(s') && Spoiled(s.stored.revs, s'.stored.revs, p, TaintSelf(p))
    ensures s' == s.(stored := s.stored.(revs := s'.stored.revs), clock := s'.clock)
    ensures |s'.stored.revs| == |s.stored.revs|
  {
    var l;
    l, s' := TurnsOutWrong(cfg, s, p);
    ReachesStep(cfg, s, l, s');
    StepKeepsSound(cfg, s, l, s');
  }

  // ---------------------------------------------------------------------
  // A chain of bad revisions on an old good one

  /** A secret that names no source: wrong whatever the circumstances. */
  const BROKEN := Resource(Secret, "", None, None, None, None)

  lemma BrokenIsWrong(cfg: Config, r: Revision)
    requires r.resources == [BROKEN]
    ensures CanBeWrong(cfg, r)
  {
    var w := World(cfg.decode, name => None, source => Err(Transient));
    assert Fails(w, r.resources[0]) && Load(w, r.resources[0]) == Err(Invalid);
    assert FirstFailure(w, r.resources, Invalid);
  }

  function Unary(n: nat): (s: string)
    ensures |s| == n + 1
  {
    seq(n + 1, i => 'a')
  }

  ghost predicate Oldest(revs: seq<Revision>, o: Revision) {
    o in revs && forall r :: r in revs && r.version != o.version ==> SortTime(o) < SortTime(r)
  }

  /** `n` revisions, all tainted but the oldest, which is untainted. */
  ghost predicate Chain(s: State, o: Revision, n: nat) {
    && Sound(s) && s.stored.terminating == [] && s.cache.Some? && |s.stored.revs| == n
    && Oldest(s.stored.revs, o) && !Tainted(o)
    && (forall r :: r in s.stored.revs && r.version != o.version ==> Tainted(r))
    && (forall r :: r in s.stored.revs ==> |r.version| <= n)
  }

  /** The same with one more, untainted: the desired one. */
  ghost predicate Longer(s: State, o: Revision, p: Revision, n: nat) {
    && Sound(s) && s.stored.terminating == [] && s.cache.Some? && |s.stored.revs| == n
    && Oldest(s.stored.revs, o) && !Tainted(o) && p in s.stored.revs && !Tainted(p) && p.version != o.version
    && p.version == s.desired && p.resources == [BROKEN]
    && (forall r :: r in s.stored.revs && r.version != o.version && r.version != p.version ==> Tainted(r))
    && (forall r :: r in s.stored.revs ==> |r.version| <= n)
  }

  /** An edit of the spec and the creation of the revision for it. */
  lemma Lengthens(cfg: Config, s: State, o: Revision, n: nat) returns (s': State, p: Revision)
    requires Chain(s, o, n) && s.pending == [] && Published(o)
    ensures Reaches(cfg, s, s') && Longer(s', o, p, n + 1) && s'.pending == [] && !Published(p) && Published(o)
  {
    var v := Unary(n);
    var revs := s.stored.revs;
    var s1 := s.(desired := v, resources := [BROKEN], clock := s.clock + 1);
    ReachesStep(cfg, s, Edit(v, [BROKEN]), s1);
    forall i | 0 <= i < |revs| ensures revs[i].version != v {
      assert revs[i] in revs;
    }
    CountNone(revs, v);
    var s2 := s1.(pending := [Create(v, [BROKEN])], clock := s1.clock + 1);
    ReachesStep(cfg, s1, Begin, s2);
    p := NewRevision(s.stored.created, v, [BROKEN], s2.clock + 1);
    s' := s2.(stored := s.stored.(revs := revs + [p], created := s.stored.created + 1), pending := [],
              clock := s2.clock + 1);
    ReachesStep(cfg, s2, Send, s');
    ReachesOn(cfg, s, s1, s2);
    ReachesOn(cfg, s, s2, s');
    StepKeepsSound(cfg, s, Edit(v, [BROKEN]), s1);
    StepKeepsSound(cfg, s1, Begin, s2);
    StepKeepsSound(cfg, s2, Send, s');
    assert forall r :: r in s'.stored.revs <==> r in revs || r == p;
  }

  lemma DesiredOnTop(s: State, o: Revision, p: Revision, n: nat)
    requires Longer(s, o, p, n)
    ensures IsTopmost(s.desired, s.stored.revs, p)
  {
  }

  /** Publishing the desired revision. */
  lemma Publishes(cfg: Config, s: State, o: Revision, p: Revision, n: nat) returns (s': State)
    requires Longer(s, o, p, n) && s.pending == [] && Published(o)
    ensures Reaches(cfg, s, s') && Longer(s', Unpublished(o), Republished(p), n)
    ensures s'.pending == Deletes(Sorted(s.desired, s.stored.revs))
  {
    DesiredOnTop(s, o, p, n);
    var mid;
    mid, s' := MovesOver(cfg, s, o, p);
    ReachesOn(cfg, s, mid, s');
    assert SortTime(Unpublished(o)) == SortTime(o) && SortTime(Republished(p)) == SortTime(p);
    assert Unpublished(o) in s'.stored.revs && Republished(p) in s'.stored.revs;
  }

  /** The desired revision turns out bad, and only the oldest is left. */
  lemma TurnsBad(cfg: Config, s: State, o: Revision, p: Revision, n: nat) returns (s': State)
    requires Longer(s, o, p, n) && Published(p)
    ensures Reaches(cfg, s, s') && Chain(s', o, n) && TaintSelf(p) in s'.stored.revs && s'.desired == p.version
    ensures s'.pending == s.pending && IsTopmost(s'.desired, s'.stored.revs, o)
  {
    BrokenIsWrong(cfg, p);
    s' := TaintsIt(cfg, s, p);
    assert SortTime(TaintSelf(p)) == SortTime(p) && Tainted(TaintSelf(p));
  }

  /** Rolling back to the oldest revision. */
  lemma RollsBack(cfg: Config, s: State, o: Revision, bad: Revision, n: nat) returns (mid: State, s': State)
    requires Chain(s, o, n) && s.pending == [] && IsTopmost(s.desired, s.stored.revs, o)
    requires bad in s.stored.revs && bad.version == s.desired && bad.version != o.version && Published(bad)
    ensures Reaches(cfg, s, mid) && Reaches(cfg, mid, s') && Chain(s', Republished(o), n)
    ensures mid.pending == [Unpublish(bad), Publish(o)] + Deletes(Sorted(s.desired, s.stored.revs))
    ensures s'.pending == Deletes(Sorted(s.desired, s.stored.revs))
  {
    mid, s' := MovesOver(cfg, s, bad, o);
    StillOldest(s.stored.revs, s'.stored.revs, bad, o);
    assert Tainted(Unpublished(bad)) == Tainted(bad);
  }

  lemma StillOldest(revs: seq<Revision>, later: seq<Revision>, from: Revision, o: Revision)
    requires Oldest(revs, o) && from in revs && from.version != o.version && Moved(revs, later, from, o)
    ensures Oldest(later, Republished(o))
  {
    assert SortTime(Republished(o)) == SortTime(o) && SortTime(Unpublished(from)) == SortTime(from);
    assert Republished(o) in later;
  }

  lemma NoDeletes(s: State)
    requires Distinct(s.stored.revs) && |s.stored.revs| <= MAX_REVISIONS
    ensures Deletes(Sorted(s.desired, s.stored.revs)) == []
  {
    SortedSame(s.desired, s.stored.revs);
  }

  /** Of eleven, the oldest is the one to be deleted. */
  lemma DeletesOldest(s: State, o: Revision)
    requires Distinct(s.stored.revs) && |s.stored.revs| == MAX_REVISIONS + 1
    requires Oldest(s.stored.revs, o) && o.version != s.desired
    ensures Deletes(Sorted(s.desired, s.stored.revs)) == [Delete(o.version)]
  {
    var revs := s.stored.revs;
    var list := Sorted(s.desired, revs);
    SortedSame(s.desired, revs);
    SortedInOrder(s.desired, revs);
    assert o in list;
    var k :| 0 <= k < |list| && list[k] == o;
    var first := list[0];
    assert first in list;
    assert first == o || Before(s.desired, revs, first, o);
  }

  /** One more bad revision. */
  lemma OneMoreBad(cfg: Config, s: State, o: Revision, n: nat) returns (s': State, o': Revision)
    requires Chain(s, o, n) && s.pending == [] && Published(o) && n < MAX_REVISIONS
    ensures Reaches(cfg, s, s') && Chain(s', o', n + 1) && s'.pending == [] && Published(o')
  {
    var s1, p := Lengthens(cfg, s, o, n);
    NoDeletes(s1);
    var s2 := Publishes(cfg, s1, o, p, n + 1);
    var s3 := TurnsBad(cfg, s2, Unpublished(o), Republished(p), n + 1);
    NoDeletes(s3);
    var mid;
    mid, s' := RollsBack(cfg, s3, Unpublished(o), TaintSelf(Republished(p)), n + 1);
    o' := Republished(Unpublished(o));
    ReachesOn(cfg, s, s1, s2);
    ReachesOn(cfg, s, s2, s3);
    ReachesOn(cfg, s, s3, mid);
    ReachesOn(cfg, s, mid, s');
  }

  lemma {:induction false} Grows(cfg: Config, s: State, o: Revision, n: nat) returns (s': State, o': Revision)
    requires Chain(s, o, n) && s.pending == [] && Published(o) && n <= MAX_REVISIONS
    ensures Reaches(cfg, s, s') || s' == s
    ensures Chain(s', o', MAX_REVISIONS) && s'.pending == [] && Published(o')
    decreases MAX_REVISIONS - n
  {
    if n == MAX_REVISIONS {
      s', o' := s, o;
    } else {
      var next, x := OneMoreBad(cfg, s, o, n);
      s', o' := Grows(cfg, next, x, n + 1);
      if s' != next {
        ReachesOn(cfg, s, next, s');
      }
    }
  }

  // ---------------------------------------------------------------------
  // The beginning

  lemma FirstCreated(cfg: Config) returns (s0: State, s: State, r: Revision)
    ensures Initial(s0) && Reaches(cfg, s0, s) && s.stored == Stored([r], [], 1) && s.pending == []
    ensures s.desired == Unary(0) && r == NewRevision(0, Unary(0), [], s.clock)
  {
    var v := Unary(0);
    s0 := State(v, [], Stored([], [], 0), [], None, [], 0);
    var s1 := s0.(pending := [Create(v, [])], clock := 1);
    ReachesStep(cfg, s0, Begin, s1);
    r := NewRevision(0, v, [], 2);
    s := s0.(stored := Stored([r], [], 1), clock := 2);
    assert s1.stored.revs + [r] == [r];
    ReachesStep(cfg, s1, Send, s);
    ReachesOn(cfg, s0, s1, s);
  }

  lemma FirstPublished(cfg: Config, s: State, r: Revision) returns (s': State)
    requires s.stored == Stored([r], [], 1) && s.pending == [] && s.desired == Unary(0)
    requires r == NewRevision(0, Unary(0), [], s.clock)
    ensures Reaches(cfg, s, s') && Inv(s') && s'.pending == [] && s'.clock > s.clock
    ensures s'.stored.terminating == [] && |s'.stored.revs| == 1
    ensures forall x :: x in s'.stored.revs <==> x == Republished(r)
  {
    var s1 := s.(pending := [Publish(r)], clock := s.clock + 1);
    FirstPlan(s, r);
    ReachesStep(cfg, s, Begin, s1);
    StepKeepsInv(cfg, s, Begin, s1);
    s' := PublishStep(cfg, s1, r);
    ReachesStep(cfg, s1, Send, s');
    ReachesOn(cfg, s, s1, s');
  }

  /** A revision without resources is created, published and loaded; the status write is lost. */
  lemma Begins(cfg: Config) returns (s0: State, s: State, o: Revision)
    ensures Initial(s0) && Reaches(cfg, s0, s) && Chain(s, o, 1) && s.pending == [] && Published(o)
  {
    var s2, r;
    s0, s2, r := FirstCreated(cfg);
    var s4 := FirstPublished(cfg, s2, r);
    o := Republished(r);
    s := Loads(cfg, s4, o);
    ReachesOn(cfg, s0, s2, s4);
    ReachesOn(cfg, s0, s4, s);
    assert SortTime(o) == s2.clock;
  }

  lemma FirstPlan(s: State, r: Revision)
    requires s.stored.revs == [r] && r.version == s.desired && s.desired != "" && !Tainted(r) && !Published(r)
    ensures Plan(s.desired, s.resources, s.stored.revs) == [Publish(r)]
  {
    var revs := s.stored.revs;
    assert revs[0] == r;
    CountOne(revs, 0);
    var us, ps := UpdateParts(s.desired, revs);
    SelectionExists(s.desired, revs, r);
    SortedSame(s.desired, revs);
    assert Deletes(Sorted(s.desired, revs)) == [];
    assert us == [] && ps == [Publish(r)];
  }

  lemma Loads(cfg: Config, s: State, r: Revision) returns (s': State)
    requires Inv(s) && r in s.stored.revs && Published(r) && r.resources == []
    ensures Reaches(cfg, s, s') && s'.cache.Some? && s' == s.(cache := s'.cache, clock := s.clock + 1)
  {
    var snap := Snapshot(map[], map[]);
    var w := World(cfg.decode, name => None, source => Err(Transient));
    var l := Reconcile(r.version, w, Loaded(map[]), Some(snap), true, false);
    IndexOfMember(s.stored.revs, r);
    var i := IndexOf(s.stored.revs, r.version);
    s' := s.(cache := Some(snap), clock := s.clock + 1);
    assert Reconciled(cfg, s, i, l, s'.clock) == r;
    assert s.stored.revs[i := r] == s.stored.revs;
    assert LoadingFits(cfg.hash, w, r, l.load, s.cache, l.cache);
    ReachesStep(cfg, s, l, s');
  }

  // ---------------------------------------------------------------------
  // The end

  /** From eleven revisions whose pruning is not finished: the oldest is published and deleted by one plan. */
  lemma Hits(cfg: Config, s: State, o: Revision, p: Revision) returns (mid: State, s': State)
    requires Longer(s, o, p, MAX_REVISIONS + 1) && s.pending == [] && Published(p)
    ensures Reaches(cfg, s, mid) && PublishesAndDeletes(mid.pending, o)
    ensures Reaches(cfg, mid, s') && s'.stored.terminating == [Republished(o)] && s'.cache.Some?
  {
    var s1 := TurnsBad(cfg, s, o, p, MAX_REVISIONS + 1);
    DeletesOldest(s1, o);
    var s2;
    mid, s2 := RollsBack(cfg, s1, o, TaintSelf(p), MAX_REVISIONS + 1);
    assert mid.pending[1] == Publish(o) && mid.pending[2] == Delete(o.version);
    s' := DeletesIt(cfg, s2, Republished(o));
    ReachesOn(cfg, s, s1, mid);
    ReachesOn(cfg, mid, s2, s');
  }

  lemma DeletesIt(cfg: Config, s: State, o: Revision) returns (s': State)
    requires Inv(s) && s.stored.terminating == [] && o in s.stored.revs && s.pending == [Delete(o.version)]
    ensures Reaches(cfg, s, s') && s'.stored.terminating == [o] && s'.cache == s.cache
  {
    IndexOfMember(s.stored.revs, o);
    var after := Apply(s.stored, s.pending[0], s.clock + 1).value;
    s' := s.(stored := after, pending := [], clock := s.clock + 1);
    ReachesStep(cfg, s, Send, s');
  }

  /** An orderly run to eleven revisions, the desired one published and the oldest about to be deleted. */
  lemma ReachesEleven(cfg: Config) returns (s0: State, s: State, o: Revision, p: Revision)
    ensures Initial(s0) && Reaches(cfg, s0, s) && Longer(s, o, p, MAX_REVISIONS + 1) && Published(p)
    ensures s.pending == [Delete(o.version)]
  {
    var start, first;
    s0, start, first := Begins(cfg);
    var ten, good := Grows(cfg, start, first, 1);
    if ten != start {
      ReachesOn(cfg, s0, start, ten);
    }
    var eleven, new' := Lengthens(cfg, ten, good, MAX_REVISIONS);
    ReachesOn(cfg, s0, ten, eleven);
    DeletesOldest(eleven, good);
    s := Publishes(cfg, eleven, good, new', MAX_REVISIONS + 1);
    ReachesOn(cfg, s0, eleven, s);
    o, p := Unpublished(good), Republished(new');
  }

  lemma Clears(cfg: Config, s: State, o: Revision) returns (s': State)
    requires s.stored.terminating == [o] && Published(o)
    ensures Step(cfg, s, Finalize, s') && s'.cache.None?
  {
    s' := s.(stored := s.stored.(terminating := []), cache := None, history := s.history + [Clear(cfg.node)],
             clock := s.clock + 1);
  }

  lemma GivesUp(cfg: Config, s: State, o: Revision, p: Revision, n: nat) returns (s': State)
    requires Longer(s, o, p, n)
    ensures Step(cfg, s, GiveUp, s') && Longer(s', o, p, n) && s'.pending == []
  {
    s' := GiveUpStep(cfg, s);
    StepKeepsSound(cfg, s, GiveUp, s');
  }

  ghost predicate PublishesAndDeletes(ws: seq<Write>, o: Revision) {
    Publish(o) in ws && Delete(o.version) in ws
  }

  /**
   For every configuration there is a run from a fresh node, orderly but for one reconcile that gives up with a
   deletion to come, in which a plan publishes and deletes the same revision and its finalizer clears the cache.
   */
  lemma CutShortClearsTheCache(cfg: Config)
    returns (s0: State, s: State, s': State, mid: State, o: Revision, last: State, end: State)
    ensures Initial(s0) && Reaches(cfg, s0, s) && PruneInv(s)
    ensures Step(cfg, s, GiveUp, s') && !LetsPruningFinish(s, GiveUp)
    ensures Reaches(cfg, s', mid) && PublishesAndDeletes(mid.pending, o)
    ensures Reaches(cfg, mid, last) && last.cache.Some?
    ensures Step(cfg, last, Finalize, end) && end.cache.None?
  {
    var p;
    s0, s, o, p := ReachesEleven(cfg);
    ReachedInv(cfg, s0, s);
    s' := GivesUp(cfg, s, o, p, MAX_REVISIONS + 1);
    mid, last := Hits(cfg, s', o, p);
    end := Clears(cfg, last, Republished(o));
  }

  lemma ReachedInv(cfg: Config, s0: State, s: State)
    requires Initial(s0) && Reaches(cfg, s0, s)
    ensures PruneInv(s)
  {
    var trace, labels :| Leads(cfg, trace, labels, s0, s);
    RunKeepsPruneInv(cfg, trace, labels, |labels|);
  }
}

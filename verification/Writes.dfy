/**
 What is stored at each write of an EnvoyConfig reconcile, and what a completed one
 leaves behind (pkg/reconcilers/marin3r/envoyconfig/reconcile_revisions.go:104-171).
 */
module Writes {
  import opened Wrappers
  import opened Snapshots
  import opened Revisions
  import opened Reconciler
  import opened Protocol

  // ---------------------------------------------------------------------
  // What is stored at each write of a reconcile

  /** The machine's state after the first `i` of a reconcile's writes. */
  ghost function At(desired: string, ws: seq<Write>, trace: seq<Stored>, i: nat, now: nat): (s: State)
    requires i < |trace| && i <= |ws|
  {
    State(desired, [], trace[i], ws[i..], None, [], now)
  }

  /** Each of the writes is a step of the machine. */
  lemma TraceStep(desired: string, ws: seq<Write>, trace: seq<Stored>, i: nat, now: nat)
    requires Executes(trace, ws, now) && i < |trace| - 1
    ensures var s, s' := At(desired, ws, trace, i, now), At(desired, ws, trace, i + 1, now);
            SendStep(s, s') && s.pending[0] == ws[i]
  {
    assert Accepted(trace[i], ws[i], trace[i + 1], now);
    assert ws[i..][1..] == ws[i + 1..];
  }

  lemma {:induction false} TraceKeepsInv(desired: string, ws: seq<Write>, trace: seq<Stored>, i: nat, now: nat)
    requires Executes(trace, ws, now) && i < |trace| && desired != ""
    requires WellFormed(trace[0].revs) && PendingOk(trace[0].revs, ws)
    ensures Inv(At(desired, ws, trace, i, now))
  {
    if i == 0 {
      assert ws[0..] == ws;
    } else {
      TraceKeepsInv(desired, ws, trace, i - 1, now);
      TraceStep(desired, ws, trace, i - 1, now);
      var s, s' := At(desired, ws, trace, i - 1, now), At(desired, ws, trace, i, now);
      match ws[i - 1]
      case Create(v, res) => SendCreate(s, s', v, res);
      case Unpublish(u) => SendUnpublish(s, s', u);
      case Publish(c) => SendPublish(s, s', c);
      case Delete(v) => SendDelete(s, s', v);
    }
  }

  lemma {:induction false} TraceKeepsHeld(desired: string, ws: seq<Write>, trace: seq<Stored>, i: nat, now: nat)
    requires Executes(trace, ws, now) && i < |trace| && desired != ""
    requires WellFormed(trace[0].revs) && PendingOk(trace[0].revs, ws) && Held(At(desired, ws, trace, 0, now))
    ensures Held(At(desired, ws, trace, i, now))
  {
    if i > 0 {
      TraceKeepsHeld(desired, ws, trace, i - 1, now);
      TraceKeepsInv(desired, ws, trace, i - 1, now);
      TraceStep(desired, ws, trace, i - 1, now);
      SentHeld(At(desired, ws, trace, i - 1, now), At(desired, ws, trace, i, now));
    }
  }

  /** No two objects share a UID, and none has one that is still to be given. */
  ghost predicate UniqueIds(c: Stored) {
    && (forall r :: r in c.revs ==> r.uid < c.created)
    && (forall a, b :: a in c.revs && b in c.revs && a.uid == b.uid ==> a.version == b.version)
  }

  /** At every single write of a reconcile, also of one that stops short, at most one revision is published
      and no two have the same version; deleted ones count while they are terminating. */
  lemma EveryWriteKeepsOnePublished(desired: string, resources: seq<Resource>, trace: seq<Stored>, i: nat, now: nat)
    requires desired != "" && |trace| > 0 && WellFormed(trace[0].revs) && i < |trace|
    requires Executes(trace, Plan(desired, resources, trace[0].revs), now)
    ensures Distinct(trace[i].revs) && AtMostOnePublished(trace[i].revs)
    ensures trace[0].terminating == [] && UniqueIds(trace[0]) ==>
              Distinct(All(trace[i])) && AtMostOnePublished(All(trace[i]))
  {
    var ws := Plan(desired, resources, trace[0].revs);
    PlanFits(desired, resources, trace[0].revs);
    TraceKeepsInv(desired, ws, trace, i, now);
    if trace[0].terminating == [] && UniqueIds(trace[0]) {
      TraceKeepsHeld(desired, ws, trace, i, now);
      AllDistinct(At(desired, ws, trace, i, now));
    }
  }

  /** Exactly the revisions of this version are published. */
  ghost predicate PublishedIs(revs: seq<Revision>, v: string) {
    forall r :: r in revs ==> (Published(r) <==> r.version == v)
  }

  lemma {:induction false} DeletesKeepPublished(desired: string, ws: seq<Write>, trace: seq<Stored>, k: nat, i: nat,
                                                v: string, now: nat)
    requires Executes(trace, ws, now) && k <= i < |trace| && desired != ""
    requires WellFormed(trace[0].revs) && PendingOk(trace[0].revs, ws)
    requires AllDeletes(ws[k..]) && PublishedIs(trace[k].revs, v)
    ensures PublishedIs(trace[i].revs, v)
    decreases i - k
  {
    if i > k {
      DeletesKeepPublished(desired, ws, trace, k, i - 1, v, now);
      assert ws[i - 1] == ws[k..][i - 1 - k];
      DeleteAt(desired, ws, trace, i - 1, now);
    }
  }

  lemma DeleteAt(desired: string, ws: seq<Write>, trace: seq<Stored>, i: nat, now: nat)
    requires Executes(trace, ws, now) && i < |trace| - 1 && desired != "" && ws[i].Delete?
    requires WellFormed(trace[0].revs) && PendingOk(trace[0].revs, ws)
    ensures forall r :: r in trace[i + 1].revs ==> r in trace[i].revs
  {
    TraceKeepsInv(desired, ws, trace, i, now);
    TraceStep(desired, ws, trace, i, now);
    SendDelete(At(desired, ws, trace, i, now), At(desired, ws, trace, i + 1, now), ws[i].version);
  }

  /** A completed reconcile leaves exactly the selected version published. */
  lemma CompletedPublishesSelected(desired: string, resources: seq<Resource>, trace: seq<Stored>, now: nat)
    requires desired != "" && |trace| > 0 && WellFormed(trace[0].revs) && CountVersion(trace[0].revs, desired) == 1
    requires Executes(trace, Plan(desired, resources, trace[0].revs), now)
    requires |trace| == |Plan(desired, resources, trace[0].revs)| + 1
    ensures PublishedIs(trace[|trace| - 1].revs, SelectedVersion(Sorted(desired, trace[0].revs)))
  {
    var revs := trace[0].revs;
    var list := Sorted(desired, revs);
    var us, ps := UpdateParts(desired, revs);
    PlanFits(desired, resources, revs);
    PartsPublish(desired, SelectedVersion(list), us, ps, Deletes(list), trace, now);
  }

  lemma PartsPublish(desired: string, v: string, us: seq<Write>, ps: seq<Write>, ds: seq<Write>, trace: seq<Stored>,
                     now: nat)
    requires desired != "" && |trace| == |us + ps + ds| + 1 && WellFormed(trace[0].revs)
    requires PartsOf(trace[0].revs, v, us, ps) && AllDeletes(ds)
    requires PendingOk(trace[0].revs, us + ps + ds) && Executes(trace, us + ps + ds, now)
    ensures PublishedIs(trace[|trace| - 1].revs, v)
  {
    var ws := us + ps + ds;
    var b := |us| + |ps|;
    assert ws[b..] == ds && ws[..|us|] == us;
    assert ps != [] ==> ws[|us|] == ps[0];
    AfterUnpublish(desired, v, us, ps, ws, trace, now);
    AfterPublish(desired, v, us, ps, ws, trace, now);
    DeletesKeepPublished(desired, ws, trace, b, |trace| - 1, v, now);
  }

  /** Once the others are unpublished, what carries the selected version is as it was. */
  lemma AfterUnpublish(desired: string, v: string, us: seq<Write>, ps: seq<Write>, ws: seq<Write>, trace: seq<Stored>,
                       now: nat)
    requires desired != "" && |us| < |trace| && WellFormed(trace[0].revs) && Executes(trace, ws, now)
    requires PartsOf(trace[0].revs, v, us, ps) && PendingOk(trace[0].revs, ws) && |us| <= |ws| && ws[..|us|] == us
    ensures forall r :: r in trace[|us|].revs && Published(r) ==> r.version == v
    ensures forall r: Revision :: r.version == v ==> (r in trace[|us|].revs <==> r in trace[0].revs)
  {
    if us != [] {
      assert ws[0] == us[0];
      TraceKeepsInv(desired, ws, trace, 0, now);
      TraceStep(desired, ws, trace, 0, now);
      SendUnpublish(At(desired, ws, trace, 0, now), At(desired, ws, trace, 1, now), us[0].seen);
    }
  }

  lemma AfterPublish(desired: string, v: string, us: seq<Write>, ps: seq<Write>, ws: seq<Write>, trace: seq<Stored>,
                     now: nat)
    requires desired != "" && |us| + |ps| < |trace| && WellFormed(trace[0].revs) && Executes(trace, ws, now)
    requires PartsOf(trace[0].revs, v, us, ps) && PendingOk(trace[0].revs, ws)
    requires ps != [] ==> |us| < |ws| && ws[|us|] == ps[0]
    requires forall r :: r in trace[|us|].revs && Published(r) ==> r.version == v
    requires forall r: Revision :: r.version == v ==> (r in trace[|us|].revs <==> r in trace[0].revs)
    ensures PublishedIs(trace[|us| + |ps|].revs, v)
  {
    if ps != [] {
      var a := |us|;
      TraceKeepsInv(desired, ws, trace, a, now);
      TraceStep(desired, ws, trace, a, now);
      SendPublish(At(desired, ws, trace, a, now), At(desired, ws, trace, a + 1, now), ps[0].seen);
    }
  }

  // ---------------------------------------------------------------------
  // What is kept

  /** The objects, told by version and UID, whatever has become of their status. */
  ghost function Ids(revs: seq<Revision>): (ids: set<(string, nat)>) {
    set r | r in revs :: (r.version, r.uid)
  }

  lemma ReplacedIds(revs: seq<Revision>, later: seq<Revision>, r: Revision, n: Revision)
    requires Distinct(revs) && r in revs && n.version == r.version && n.uid == r.uid
    requires forall x :: x in later <==> x == n || (x in revs && x.version != r.version)
    ensures Ids(later) == Ids(revs)
  {
    forall id | id in Ids(revs) ensures id in Ids(later) {
      var x :| x in revs && (x.version, x.uid) == id;
      if x.version == r.version {
        SameVersionSame(revs, x, r);
        assert n in later;
      } else {
        assert x in later;
      }
    }
  }

  /** Status writes keep the objects. */
  lemma {:induction false} StatusWritesKeep(desired: string, ws: seq<Write>, trace: seq<Stored>, i: nat, now: nat)
    requires Executes(trace, ws, now) && i < |trace| && desired != ""
    requires WellFormed(trace[0].revs) && PendingOk(trace[0].revs, ws)
    requires forall j :: 0 <= j < i ==> ws[j].Unpublish? || ws[j].Publish?
    ensures Ids(trace[i].revs) == Ids(trace[0].revs) && |trace[i].revs| == |trace[0].revs|
  {
    if i > 0 {
      StatusWritesKeep(desired, ws, trace, i - 1, now);
      StatusWriteAt(desired, ws, trace, i - 1, now);
    }
  }

  lemma StatusWriteAt(desired: string, ws: seq<Write>, trace: seq<Stored>, i: nat, now: nat)
    requires Executes(trace, ws, now) && i < |trace| - 1 && desired != "" && (ws[i].Unpublish? || ws[i].Publish?)
    requires WellFormed(trace[0].revs) && PendingOk(trace[0].revs, ws)
    ensures Ids(trace[i + 1].revs) == Ids(trace[i].revs) && |trace[i + 1].revs| == |trace[i].revs|
  {
    TraceKeepsInv(desired, ws, trace, i, now);
    TraceStep(desired, ws, trace, i, now);
    StatusWriteKeeps(At(desired, ws, trace, i, now), At(desired, ws, trace, i + 1, now));
  }

  lemma StatusWriteKeeps(s: State, s': State)
    requires Inv(s) && SendStep(s, s') && (s.pending[0].Unpublish? || s.pending[0].Publish?)
    ensures Ids(s'.stored.revs) == Ids(s.stored.revs) && |s'.stored.revs| == |s.stored.revs|
  {
    var seen := s.pending[0].seen;
    if s.pending[0].Unpublish? {
      SendUnpublish(s, s', seen);
      ReplacedIds(s.stored.revs, s'.stored.revs, seen, Unpublished(seen));
    } else {
      SendPublish(s, s', seen);
      ReplacedIds(s.stored.revs, s'.stored.revs, seen, Republished(seen));
    }
  }

  /** After `i` deletions, what is left is what none of them named. */
  lemma {:induction false} DeletedSoFar(desired: string, ws: seq<Write>, trace: seq<Stored>, b: nat, i: nat, now: nat)
    requires Executes(trace, ws, now) && b + i < |trace| && desired != ""
    requires WellFormed(trace[0].revs) && PendingOk(trace[0].revs, ws)
    requires forall j :: b <= j < b + i ==> ws[j].Delete?
    ensures |trace[b + i].revs| == |trace[b].revs| - i
    ensures forall r :: r in trace[b + i].revs <==>
              r in trace[b].revs && forall m :: b <= m < b + i ==> r.version != ws[m].version
  {
    if i > 0 {
      DeletedSoFar(desired, ws, trace, b, i - 1, now);
      TraceKeepsInv(desired, ws, trace, b + i - 1, now);
      TraceStep(desired, ws, trace, b + i - 1, now);
      SendDelete(At(desired, ws, trace, b + i - 1, now), At(desired, ws, trace, b + i, now), ws[b + i - 1].version);
    }
  }

  /** Of the objects of a list, those that are not among the first `k` are the rest of it. */
  lemma RestOfList(list: seq<Revision>, k: nat, mid: seq<Revision>, left: seq<Revision>)
    requires Distinct(list) && k <= |list| && Ids(mid) == Ids(list)
    requires forall r :: r in left <==> r in mid && forall m :: 0 <= m < k ==> r.version != list[m].version
    ensures Ids(left) == Ids(list[k..])
  {
    forall id | id in Ids(left) ensures id in Ids(list[k..]) {
      var r :| r in left && (r.version, r.uid) == id;
      assert id in Ids(mid);
      var o :| o in list && (o.version, o.uid) == id;
      var i :| 0 <= i < |list| && list[i] == o;
      assert list[k..][i - k] == o;
    }
    forall id | id in Ids(list[k..]) ensures id in Ids(left) {
      var o :| o in list[k..] && (o.version, o.uid) == id;
      var i :| 0 <= i < |list| - k && list[k..][i] == o;
      assert list[k + i] == o && o in list;
      assert id in Ids(mid);
      var r :| r in mid && (r.version, r.uid) == id;
      assert r in left;
    }
  }

  /** A completed reconcile leaves the objects at the end of the sorted list. */
  lemma CompletedKeeps(desired: string, resources: seq<Resource>, trace: seq<Stored>, now: nat)
    requires desired != "" && |trace| > 0 && WellFormed(trace[0].revs) && CountVersion(trace[0].revs, desired) == 1
    requires Executes(trace, Plan(desired, resources, trace[0].revs), now)
    requires |trace| == |Plan(desired, resources, trace[0].revs)| + 1
    ensures var list, left := Sorted(desired, trace[0].revs), trace[|trace| - 1].revs;
            Ids(left) == Ids(list[Excess(list)..]) && |left| == |list| - Excess(list)
  {
    var revs := trace[0].revs;
    SortedSame(desired, revs);
    var us, ps := UpdateParts(desired, revs);
    PlanFits(desired, resources, revs);
    PartsKeep(desired, Sorted(desired, revs), us, ps, trace, now);
  }

  lemma PartsKeep(desired: string, list: seq<Revision>, us: seq<Write>, ps: seq<Write>, trace: seq<Stored>, now: nat)
    requires desired != "" && |trace| == |us + ps + Deletes(list)| + 1 && WellFormed(trace[0].revs) && Distinct(list)
    requires (forall r :: r in list <==> r in trace[0].revs) && |list| == |trace[0].revs|
    requires |us| <= 1 && |ps| <= 1 && (us != [] ==> us[0].Unpublish?) && (ps != [] ==> ps[0].Publish?)
    requires PendingOk(trace[0].revs, us + ps + Deletes(list)) && Executes(trace, us + ps + Deletes(list), now)
    ensures Ids(trace[|trace| - 1].revs) == Ids(list[Excess(list)..])
    ensures |trace[|trace| - 1].revs| == |list| - Excess(list)
  {
    var b, k := |us| + |ps|, Excess(list);
    PartsShape(list, us, ps);
    StatusWritesKeep(desired, us + ps + Deletes(list), trace, b, now);
    PartsLeave(desired, list, us + ps + Deletes(list), b, trace, now);
    assert Ids(list) == Ids(trace[0].revs);
    RestOfList(list, k, trace[b].revs, trace[b + k].revs);
  }

  lemma PartsLeave(desired: string, list: seq<Revision>, ws: seq<Write>, b: nat, trace: seq<Stored>, now: nat)
    requires desired != "" && |ws| == b + Excess(list) && |trace| == |ws| + 1 && Executes(trace, ws, now)
    requires WellFormed(trace[0].revs) && PendingOk(trace[0].revs, ws)
    requires forall j :: b <= j < |ws| ==> ws[j] == Delete(list[j - b].version)
    ensures |trace[|ws|].revs| == |trace[b].revs| - Excess(list)
    ensures forall r :: r in trace[|ws|].revs <==>
              r in trace[b].revs && forall m :: 0 <= m < Excess(list) ==> r.version != list[m].version
  {
    DeletedSoFar(desired, ws, trace, b, Excess(list), now);
    NamedByDeletes(list, ws, b, trace[b].revs, trace[|ws|].revs);
  }

  /** First the status writes, then the deletions of the lowest. */
  lemma PartsShape(list: seq<Revision>, us: seq<Write>, ps: seq<Write>)
    requires |us| <= 1 && |ps| <= 1 && (us != [] ==> us[0].Unpublish?) && (ps != [] ==> ps[0].Publish?)
    ensures var ws, b := us + ps + Deletes(list), |us| + |ps|;
            && |ws| == b + Excess(list)
            && (forall j :: 0 <= j < b ==> ws[j].Unpublish? || ws[j].Publish?)
            && (forall j :: b <= j < |ws| ==> ws[j] == Delete(list[j - b].version))
  {
    var ws, b := us + ps + Deletes(list), |us| + |ps|;
    forall j | 0 <= j < b ensures ws[j].Unpublish? || ws[j].Publish? {
      assert ws[j] == if j < |us| then us[j] else ps[j - |us|];
    }
    forall j | b <= j < |ws| ensures ws[j] == Delete(list[j - b].version) {
      assert ws[j] == Deletes(list)[j - b];
    }
  }

  lemma NamedByDeletes(list: seq<Revision>, ws: seq<Write>, b: nat, mid: seq<Revision>, left: seq<Revision>)
    requires |ws| == b + Excess(list) && forall j :: b <= j < |ws| ==> ws[j] == Delete(list[j - b].version)
    requires forall r :: r in left <==>
               r in mid && forall m :: b <= m < b + Excess(list) ==> r.version != ws[m].version
    ensures forall r :: r in left <==> r in mid && forall m :: 0 <= m < Excess(list) ==> r.version != list[m].version
  {
    forall r | r in mid
      ensures (forall m :: b <= m < b + Excess(list) ==> r.version != ws[m].version) <==>
              (forall m :: 0 <= m < Excess(list) ==> r.version != list[m].version)
    {
      assert forall m :: 0 <= m < Excess(list) ==> ws[b + m].version == list[m].version;
    }
  }

  lemma InRest(list: seq<Revision>, k: nat, i: nat)
    requires k <= i < |list|
    ensures (list[i].version, list[i].uid) in Ids(list[k..])
  {
    assert list[k..][i - k] == list[i];
  }

  /** What is gone of the sorted list comes before what is left of it. */
  lemma GoneBeforeLeft(desired: string, before: seq<Revision>, k: nat, left: seq<Revision>, d: Revision, o: Revision)
    requires Distinct(before) && k <= |Sorted(desired, before)| && Ids(left) == Ids(Sorted(desired, before)[k..])
    requires d in before && (forall x :: x in left ==> x.version != d.version)
    requires o in before && (exists r :: r in left && r.version == o.version)
    ensures Before(desired, before, d, o)
  {
    var list := Sorted(desired, before);
    SortedSame(desired, before);
    SortedInOrder(desired, before);
    assert d in list && o in list;
    var i :| 0 <= i < |list| && list[i] == d;
    var j :| 0 <= j < |list| && list[j] == o;
    if i >= k {
      InRest(list, k, i);
    }
    var r :| r in left && r.version == o.version;
    assert (r.version, r.uid) in Ids(list[k..]);
    var x :| x in list[k..] && (x.version, x.uid) == (r.version, r.uid);
    var m :| 0 <= m < |list| - k && list[k..][m] == x;
    assert list[k + m].version == list[j].version;
  }

  /** A completed reconcile keeps ten revisions, or all if there are fewer, and what it deletes sorts below whatever
      it keeps. */
  lemma CompletedKeepsNewestTen(desired: string, resources: seq<Resource>, trace: seq<Stored>, now: nat)
    requires desired != "" && |trace| > 0 && WellFormed(trace[0].revs) && CountVersion(trace[0].revs, desired) == 1
    requires Executes(trace, Plan(desired, resources, trace[0].revs), now)
    requires |trace| == |Plan(desired, resources, trace[0].revs)| + 1
    ensures |trace[|trace| - 1].revs| == if |trace[0].revs| > 10 then 10 else |trace[0].revs|
    ensures KeepsTheNewest(desired, trace[0].revs, trace[|trace| - 1].revs)
  {
    var before, left := trace[0].revs, trace[|trace| - 1].revs;
    CompletedKeeps(desired, resources, trace, now);
    SortedMembers(desired, before);
    forall d, o | d in before && o in before && Gone(left, d) && !Gone(left, o) ensures Before(desired, before, d, o) {
      GoneBeforeLeft(desired, before, Excess(Sorted(desired, before)), left, d, o);
    }
  }

  ghost predicate Gone(left: seq<Revision>, d: Revision) {
    forall x :: x in left ==> x.version != d.version
  }

  ghost predicate KeepsTheNewest(desired: string, before: seq<Revision>, left: seq<Revision>) {
    forall d, o :: d in before && o in before && Gone(left, d) && !Gone(left, o) ==> Before(desired, before, d, o)
  }
}

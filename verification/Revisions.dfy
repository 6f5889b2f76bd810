/**
 Configuration revisions, the order they are sorted in and the one that gets
 selected (pkg/reconcilers/marin3r/envoyconfig/revisions/sort.go,
 pkg/reconcilers/marin3r/envoyconfig/reconcile_revisions.go:173-200).
 */
module Revisions {
  import opened Wrappers
  import opened Snapshots

  datatype ConditionType = RevisionPublished | RevisionTainted | ResourcesInSync | CacheOutOfSync | RollbackFailed

  datatype Reason =
    | VersionPublished | ResourcesFailing | FailedLoadingResources | ResourcesSynced | SnapshotDoesNotExist
    | CantPublishDesiredVersion | DesiredVersionPublished | AllRevisionsTainted | Recovered

  /** The fixed message that goes with the reason, one of its own, or none. */
  datatype Note = Standard | Detail(text: string) | Missing

  /** `status` says whether the condition is "True". */
  datatype Condition = Condition(status: bool, reason: Reason, message: Note)

  type Conditions = map<ConditionType, Condition>

  predicate IsTrue(cs: Conditions, t: ConditionType) {
    t in cs && cs[t].status
  }

  /** An EnvoyConfigRevision of one node; the API gives each object a `uid` of its own, and `resourceVersion`
      moves with every write it accepts. */
  datatype Revision = Revision(
    uid: nat, version: string, resources: seq<Resource>, createdAt: nat, lastPublishedAt: Option<nat>,
    conditions: Conditions, published: bool, tainted: bool,
    serves: Option<map<ResourceType, string>>, resourceVersion: nat)

  predicate Published(r: Revision) {
    IsTrue(r.conditions, RevisionPublished)
  }

  predicate Tainted(r: Revision) {
    IsTrue(r.conditions, RevisionTainted)
  }

  ghost predicate Distinct(s: seq<Revision>) {
    forall i, j :: 0 <= i < j < |s| ==> s[i].version != s[j].version
  }

  // ---------------------------------------------------------------------
  // Sorting

  /** When the revision was last published, or created if it never was. */
  function SortTime(r: Revision): (t: nat) {
    if r.lastPublishedAt.Some? then r.lastPublishedAt.value else r.createdAt
  }

  predicate Less(desired: string, a: Revision, b: Revision) {
    if b.version == desired then true
    else if a.version == desired then false
    else SortTime(a) < SortTime(b)
  }

  /** On revisions of different versions the comparator is a strict weak order. */
  lemma ComparatorIsOrder(desired: string, a: Revision, b: Revision, c: Revision)
    requires a.version != b.version && b.version != c.version && a.version != c.version
    ensures !(Less(desired, a, b) && Less(desired, b, a))
    ensures Less(desired, a, b) && Less(desired, b, c) ==> Less(desired, a, c)
    ensures !Less(desired, a, b) && !Less(desired, b, c) ==> !Less(desired, a, c)
  {
  }

  function Insert(desired: string, s: seq<Revision>, x: Revision): (r: seq<Revision>) {
    if s == [] then [x]
    else if Less(desired, x, s[|s| - 1]) then Insert(desired, s[..|s| - 1], x) + [s[|s| - 1]]
    else s + [x]
  }

  function Sorted(desired: string, s: seq<Revision>): (r: seq<Revision>) {
    if s == [] then [] else Insert(desired, Sorted(desired, s[..|s| - 1]), s[|s| - 1])
  }

  /** Where the revision of a version is, or -1. */
  function IndexOf(revs: seq<Revision>, version: string): (i: int)
    ensures -1 <= i < |revs|
    ensures i >= 0 ==> revs[i].version == version
    ensures i < 0 ==> forall j :: 0 <= j < |revs| ==> revs[j].version != version
  {
    if revs == [] then -1
    else if revs[|revs| - 1].version == version then |revs| - 1
    else IndexOf(revs[..|revs| - 1], version)
  }

  /** `a` must come before `b`: it is less, or neither is and it came first in the input. */
  ghost predicate Before(desired: string, s: seq<Revision>, a: Revision, b: Revision) {
    && a.version != b.version
    && (Less(desired, a, b) || (!Less(desired, b, a) && IndexOf(s, a.version) < IndexOf(s, b.version)))
  }

  ghost predicate InOrder(desired: string, s: seq<Revision>, t: seq<Revision>) {
    forall i, j :: 0 <= i < j < |t| ==> Before(desired, s, t[i], t[j])
  }

  lemma {:induction false} InsertElements(desired: string, t: seq<Revision>, x: Revision)
    ensures multiset(Insert(desired, t, x)) == multiset(t) + multiset{x}
    ensures forall r :: r in Insert(desired, t, x) ==> r in t || r == x
  {
    if t != [] {
      var init, last := t[..|t| - 1], t[|t| - 1];
      assert t == init + [last];
      InsertElements(desired, init, x);
    }
  }

  lemma {:induction false} InsertKeepsOrder(desired: string, s: seq<Revision>, t: seq<Revision>, x: Revision)
    requires InOrder(desired, s, t)
    requires forall i :: 0 <= i < |t| ==> t[i].version != x.version && IndexOf(s, t[i].version) < IndexOf(s, x.version)
    ensures InOrder(desired, s, Insert(desired, t, x))
  {
    if t != [] {
      var init, last := t[..|t| - 1], t[|t| - 1];
      assert forall i :: 0 <= i < |init| ==> Before(desired, s, t[i], last) && init[i] == t[i];
      if Less(desired, x, last) {
        assert InOrder(desired, s, init);
        InsertKeepsOrder(desired, s, init, x);
        InsertElements(desired, init, x);
        var r := Insert(desired, init, x);
        assert forall i :: 0 <= i < |r| ==> r[i] in r;
        assert forall i :: 0 <= i < |r| ==> Before(desired, s, r[i], last);
      } else {
        assert forall i :: 0 <= i < |t| ==> Before(desired, s, t[i], x);
      }
    }
  }

  lemma {:induction false} SortedElements(desired: string, s: seq<Revision>)
    ensures multiset(Sorted(desired, s)) == multiset(s)
  {
    if s != [] {
      var init, last := s[..|s| - 1], s[|s| - 1];
      SortedElements(desired, init);
      InsertElements(desired, Sorted(desired, init), last);
      assert s == init + [last];
    }
  }

  lemma SortedMembers(desired: string, s: seq<Revision>)
    ensures |Sorted(desired, s)| == |s|
    ensures forall r :: r in Sorted(desired, s) <==> r in s
  {
    var t := Sorted(desired, s);
    SortedElements(desired, s);
    assert |t| == |multiset(t)| == |multiset(s)| == |s|;
    assert forall r :: r in t <==> r in multiset(t);
    assert forall r :: r in s <==> r in multiset(s);
  }

  lemma {:induction false} SortedUpTo(desired: string, s: seq<Revision>, n: nat)
    requires Distinct(s) && n <= |s|
    ensures InOrder(desired, s, Sorted(desired, s[..n]))
  {
    if n > 0 {
      var t, x := Sorted(desired, s[..n - 1]), s[n - 1];
      SortedUpTo(desired, s, n - 1);
      SortedMembers(desired, s[..n - 1]);
      PositionsBefore(s, t, n - 1);
      InsertKeepsOrder(desired, s, t, x);
      assert s[..n][..n - 1] == s[..n - 1];
    }
  }

  lemma PositionsBefore(s: seq<Revision>, t: seq<Revision>, n: nat)
    requires Distinct(s) && n < |s| && forall r :: r in t ==> r in s[..n]
    ensures forall i :: 0 <= i < |t| ==>
              t[i].version != s[n].version && IndexOf(s, t[i].version) < IndexOf(s, s[n].version)
  {
    forall i | 0 <= i < |t|
      ensures t[i].version != s[n].version && IndexOf(s, t[i].version) < IndexOf(s, s[n].version)
    {
      assert t[i] in t;
      PositionBefore(s, t[i], n);
    }
  }

  lemma SortedInOrder(desired: string, s: seq<Revision>)
    requires Distinct(s)
    ensures InOrder(desired, s, Sorted(desired, s))
  {
    SortedUpTo(desired, s, |s|);
    assert s[..|s|] == s;
  }

  lemma PositionBefore(s: seq<Revision>, r: Revision, n: nat)
    requires Distinct(s) && n < |s| && r in s[..n]
    ensures r.version != s[n].version && IndexOf(s, r.version) < n && IndexOf(s, s[n].version) == n
  {
  }

  lemma HeadsAgree(desired: string, s: seq<Revision>, t: seq<Revision>, u: seq<Revision>)
    requires t != [] && u != [] && t[0] in u && u[0] in t && InOrder(desired, s, t) && InOrder(desired, s, u)
    ensures t[0] == u[0]
  {
  }

  lemma TailElements(t: seq<Revision>)
    requires t != []
    ensures multiset(t[1..]) == multiset(t) - multiset{t[0]} && t[0] in multiset(t)
  {
    assert t == [t[0]] + t[1..];
  }

  lemma {:induction false} OrderingUnique(desired: string, s: seq<Revision>, t: seq<Revision>, u: seq<Revision>)
    requires multiset(t) == multiset(u) && InOrder(desired, s, t) && InOrder(desired, s, u)
    ensures t == u
    decreases |t|
  {
    assert |t| == |multiset(t)| == |multiset(u)| == |u|;
    if t != [] {
      TailElements(t);
      TailElements(u);
      assert t[0] in multiset(u) && u[0] in multiset(t);
      HeadsAgree(desired, s, t, u);
      TailInOrder(desired, s, t);
      TailInOrder(desired, s, u);
      OrderingUnique(desired, s, t[1..], u[1..]);
      assert t == [t[0]] + t[1..] && u == [u[0]] + u[1..];
    }
  }

  lemma TailInOrder(desired: string, s: seq<Revision>, t: seq<Revision>)
    requires t != [] && InOrder(desired, s, t)
    ensures InOrder(desired, s, t[1..])
  {
  }

  /** The sort is the one and only stable ordering of its input, so any stable sorting routine computes it. */
  lemma SortedIsTheStableSort(desired: string, s: seq<Revision>, t: seq<Revision>)
    requires Distinct(s)
    ensures t == Sorted(desired, s) <==> multiset(t) == multiset(s) && InOrder(desired, s, t)
  {
    SortedInOrder(desired, s);
    SortedElements(desired, s);
    if multiset(t) == multiset(s) && InOrder(desired, s, t) {
      OrderingUnique(desired, s, t, Sorted(desired, s));
    }
  }

  /** Where an element comes to rest: everything above is greater, the one below is not. */
  lemma {:induction false} InsertAt(desired: string, p: seq<Revision>, x: Revision, j: nat)
    requires j <= |p| && (forall k :: j <= k < |p| ==> Less(desired, x, p[k])) && (j > 0 ==>
              !Less(desired, x, p[j - 1]))
    ensures Insert(desired, p, x) == p[..j] + [x] + p[j..]
    decreases |p|
  {
    if j < |p| {
      var init := p[..|p| - 1];
      assert forall k :: 0 <= k < |init| ==> init[k] == p[k];
      InsertAt(desired, init, x, j);
      LastBack(p, x, j);
    } else {
      assert p[..j] + [x] + p[j..] == p + [x];
    }
  }

  lemma LastBack(p: seq<Revision>, x: Revision, j: nat)
    requires j < |p|
    ensures var init := p[..|p| - 1]; init[..j] + [x] + init[j..] + [p[|p| - 1]] == p[..j] + [x] + p[j..]
  {
  }

  /** One pass of the sort: the element at `i` sinks past those it is less than. */
  method SinkInPlace(desired: string, a: array<Revision>, i: nat)
    requires i < a.Length
    modifies a
    ensures a[..i + 1] == Insert(desired, old(a[..i]), old(a[i])) && a[i + 1..] == old(a[i + 1..])
  {
    ghost var was := a[..];
    ghost var p := a[..i];
    ghost var x := a[i];
    var j := i;
    while j > 0 && Less(desired, a[j], a[j - 1])
      invariant 0 <= j <= i && a[j] == x
      invariant forall k :: 0 <= k < j ==> a[k] == was[k]
      invariant forall k :: j < k <= i ==> a[k] == was[k - 1]
      invariant forall k :: i < k < a.Length ==> a[k] == was[k]
      invariant forall k :: j <= k < i ==> Less(desired, x, was[k])
    {
      a[j - 1], a[j] := a[j], a[j - 1];
      j := j - 1;
    }
    InsertAt(desired, p, x, j);
    SunkShape(a[..], was, i, j);
    assert a[..][..i + 1] == a[..i + 1] && was[..i] == p;
    assert a[..][i + 1..] == a[i + 1..] && was[i + 1..] == old(a[i + 1..]);
  }

  lemma SunkShape(q: seq<Revision>, was: seq<Revision>, i: nat, j: nat)
    requires j <= i < |q| == |was| && q[j] == was[i]
    requires forall k :: 0 <= k < j ==> q[k] == was[k]
    requires forall k :: j < k <= i ==> q[k] == was[k - 1]
    requires forall k :: i < k < |q| ==> q[k] == was[k]
    ensures q[..i + 1] == was[..i][..j] + [was[i]] + was[..i][j..] && q[i + 1..] == was[i + 1..]
  {
  }

  /** Sorts a copy in place; the input is left alone. */
  method SortByPublication(desired: string, list: seq<Revision>) returns (sorted: seq<Revision>)
    ensures sorted == Sorted(desired, list)
  {
    var a := new Revision[|list|](i requires 0 <= i < |list| => list[i]);
    assert a[..] == list;
    var i := 0;
    while i < a.Length
      invariant 0 <= i <= a.Length == |list|
      invariant a[..i] == Sorted(desired, list[..i]) && a[i..] == list[i..]
    {
      assert list[..i + 1][..i] == list[..i] && a[i] == a[i..][0] == list[i];
      assert a[i + 1..] == a[i..][1..] == list[i + 1..];
      SinkInPlace(desired, a, i);
      i := i + 1;
    }
    assert list[..|list|] == list && a[..] == a[..i];
    sorted := a[..];
  }

  // ---------------------------------------------------------------------
  // Selection

  datatype CacheState = InSync | Rollback | RollbackFailedState

  /** Index of the last untainted revision, or -1. */
  function LastUntainted(list: seq<Revision>): (i: int)
    ensures -1 <= i < |list|
    ensures i >= 0 ==> !Tainted(list[i])
    ensures forall j :: i < j < |list| ==> Tainted(list[j])
  {
    if list == [] then -1
    else if !Tainted(list[|list| - 1]) then |list| - 1
    else LastUntainted(list[..|list| - 1])
  }

  /** Scans from the top; the version is empty when every revision is tainted. */
  method GetVersionToPublish(list: seq<Revision>) returns (version: string, state: CacheState)
    ensures version == (if LastUntainted(list) < 0 then "" else list[LastUntainted(list)].version)
    ensures state.RollbackFailedState? <==> version == ""
    ensures (forall i :: 0 <= i < |list| ==> list[i].version != "") ==>
              (state.RollbackFailedState? <==> forall i :: 0 <= i < |list| ==> Tainted(list[i]))
    ensures state.InSync? <==> version != "" && version == list[|list| - 1].version
  {
    version := "";
    var topIdx := |list| - 1;
    var idx := topIdx;
    while idx >= 0
      invariant -1 <= idx <= topIdx && version == ""
      invariant LastUntainted(list) <= idx
      invariant forall j :: idx < j <= topIdx ==> Tainted(list[j])
    {
      var ecr := list[idx];
      if !Tainted(ecr) {
        version := ecr.version;
        break;
      }
      idx := idx - 1;
    }
    if version == "" {
      return "", RollbackFailedState;
    } else if version != list[topIdx].version {
      return version, Rollback;
    }
    return version, InSync;
  }

  /** `r` is the untainted revision that every other untainted one comes before; ties follow the list. */
  ghost predicate IsTopmost(desired: string, revs: seq<Revision>, r: Revision) {
    && r in revs && !Tainted(r)
    && forall u :: u in revs && !Tainted(u) && u.version != r.version ==> Before(desired, revs, u, r)
  }

  lemma SortedSame(desired: string, s: seq<Revision>)
    requires Distinct(s)
    ensures |Sorted(desired, s)| == |s| && Distinct(Sorted(desired, s))
    ensures forall r :: r in Sorted(desired, s) <==> r in s
  {
    SortedInOrder(desired, s);
    SortedMembers(desired, s);
    var t := Sorted(desired, s);
    forall i, j | 0 <= i < j < |t| ensures t[i].version != t[j].version {
      assert Before(desired, s, t[i], t[j]);
    }
  }

  /** The desired revision, if there is one, comes last. */
  lemma DesiredSortsLast(desired: string, s: seq<Revision>, d: Revision)
    requires Distinct(s) && d in s && d.version == desired
    ensures |Sorted(desired, s)| == |s| && Sorted(desired, s)[|s| - 1] == d
  {
    SortedInOrder(desired, s);
    SortedSame(desired, s);
    var t := Sorted(desired, s);
    var i :| 0 <= i < |t| && t[i] == d;
    assert i < |t| - 1 ==> Before(desired, s, d, t[|t| - 1]);
  }

  /** Selection picks the topmost untainted revision; there is none exactly when all are tainted. */
  lemma SelectionIsTop(desired: string, revs: seq<Revision>)
    requires Distinct(revs)
    ensures var t := Sorted(desired, revs); var i := LastUntainted(t);
            if i < 0 then forall r :: r in revs ==> Tainted(r) else IsTopmost(desired, revs, t[i])
  {
    SortedSame(desired, revs);
    SortedInOrder(desired, revs);
    LastUntaintedIsTop(desired, revs, Sorted(desired, revs));
  }

  lemma LastUntaintedIsTop(desired: string, revs: seq<Revision>, t: seq<Revision>)
    requires InOrder(desired, revs, t) && forall r :: r in t <==> r in revs
    ensures var i := LastUntainted(t);
            if i < 0 then forall r :: r in revs ==> Tainted(r) else IsTopmost(desired, revs, t[i])
  {
    var i := LastUntainted(t);
    if i >= 0 {
      assert t[i] in t;
      forall u | u in revs && !Tainted(u) && u.version != t[i].version
        ensures Before(desired, revs, u, t[i])
      {
        var j :| 0 <= j < |t| && t[j] == u;
        assert j < i;
      }
    }
  }

  lemma TopUnique(desired: string, revs: seq<Revision>, a: Revision, b: Revision)
    requires IsTopmost(desired, revs, a) && IsTopmost(desired, revs, b)
    ensures a.version == b.version
  {
  }
}

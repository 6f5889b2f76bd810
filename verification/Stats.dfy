/**
 The discovery statistics store (pkg/discoveryservice/xdss/stats/kv.go and
 stats.go). The store is the unexpired view of the key-value cache; the ghost
 functions say what each operation does to it, the class does it.
 */
module Stats {
  import opened Wrappers
  import opened Strings
  import opened StatKeys

  datatype Item = Int(n: int) | Text(s: string)

  type Store = map<string, Item>

  const AGGREGATE := "*"
  const NACKS := "nack_counter"
  const ACKS := "ack_counter"
  const REQUESTS := "request_counter"
  const INFO := "info"
  const NONCE := "nonce:"
  const MAX_NACKS := 5

  /** What `GetCounter` yields: zero when the key is missing or holds no integer. */
  function Counter(st: Store, k: Key): (n: int) {
    var s := Print(k);
    if s in st && st[s].Int? then st[s].n else 0
  }

  function Increment(st: Store, k: Key, delta: int): (r: Store) {
    st[Print(k) := Int(Counter(st, k) + delta)]
  }

  predicate MatchesAll(key: string, filters: seq<string>) {
    forall i :: 0 <= i < |filters| ==> Contains(key, filters[i])
  }

  function Filtered(st: Store, filters: seq<string>): (r: Store) {
    map k | k in st && MatchesAll(k, filters) :: st[k]
  }

  function Removed(st: Store, filter: string): (r: Store) {
    map k | k in st && !Contains(k, filter) :: st[k]
  }

  predicate Readable(st: Store) {
    forall k :: k in st ==> |Split(k)| >= 5
  }

  function PodOf(key: string): (p: string) {
    match Parse(key) case Some(k) => k.pod case None => ""
  }

  function VersionOf(key: string): (v: string) {
    match Parse(key) case Some(k) => k.version case None => ""
  }

  function NonceFilters(node: string, rtype: string, pod: string, nonce: string): (fs: seq<string>) {
    [node, rtype, pod, NONCE + nonce]
  }

  /** The version a rejection is charged to: known only when the nonce lookup finds exactly one key. */
  ghost function NackVersion(st: Store, node: string, rtype: string, pod: string, nonce: string): (v: Option<string>) {
    var keys := Filtered(st, NonceFilters(node, rtype, pod, nonce)).Keys;
    if |keys| != 1 then None else var k :| k in keys; Some(VersionOf(k))
  }

  function CountNack(st: Store, node: string, rtype: string, version: string, pod: string): (r: Store) {
    Increment(Increment(st, Key(node, rtype, version, pod, NACKS), 1), Key(node, rtype, AGGREGATE, pod, NACKS), 1)
  }

  function CountAck(st: Store, node: string, rtype: string, version: string, pod: string, now: int): (r: Store) {
    var counted := Increment(Increment(st, Key(node, rtype, version, pod, ACKS), 1),
                             Key(node, rtype, AGGREGATE, pod, ACKS), 1);
    counted[Print(Key(node, rtype, version, pod, INFO)) := Int(now)]
  }

  function SubscriptionFilters(node: string, rtype: string): (fs: seq<string>) {
    [REQUESTS] + (if node != "" then [node] else []) + (if rtype != "" then [rtype] else [])
  }

  function Subscribed(st: Store, node: string, rtype: string): (pods: set<string>) {
    set k | k in Filtered(st, SubscriptionFilters(node, rtype)) :: PodOf(k)
  }

  function Failing(st: Store, node: string, rtype: string, version: string): (pods: set<string>) {
    set p | p in Subscribed(st, node, rtype) && Counter(st, Key(node, rtype, version, p, NACKS)) >= MAX_NACKS
  }

  function Fraction(st: Store, node: string, rtype: string, version: string): (r: real) {
    var pods := Subscribed(st, node, rtype);
    if |pods| == 0 then 0.0 else |Failing(st, node, rtype, version)| as real / |pods| as real
  }

  lemma EqualSize(a: set<string>, b: set<string>)
    requires a <= b && |a| == |b|
    ensures a == b
  {
    assert |b - a| == |b| - |a|;
  }

  lemma SmallerSize(a: set<string>, b: set<string>)
    requires a <= b
    ensures |a| <= |b|
  {
    assert |b - a| == |b| - |a|;
  }

  lemma RatioBounds(a: nat, b: nat)
    requires a <= b && b > 0
    ensures 0.0 <= a as real / b as real <= 1.0
    ensures a as real / b as real == 1.0 <==> a == b
    ensures a as real / b as real * b as real == a as real
  {
  }

  lemma ShareMeaning(part: set<string>, whole: set<string>, share: real)
    requires part <= whole && share == if |whole| == 0 then 0.0 else |part| as real / |whole| as real
    ensures 0.0 <= share <= 1.0 && share * |whole| as real == |part| as real
    ensures share == 1.0 <==> whole != {} && part == whole
  {
    SmallerSize(part, whole);
    if whole != {} {
      assert |whole| > 0;
      RatioBounds(|part|, |whole|);
      if |part| == |whole| {
        EqualSize(part, whole);
      }
    }
  }

  /** The failing fraction lies in [0,1], is 0 without subscribers, and is 1 exactly when every subscriber rejects
      five times; in between it is the share of those that do. */
  lemma FractionMeaning(st: Store, node: string, rtype: string, version: string)
    ensures 0.0 <= Fraction(st, node, rtype, version) <= 1.0
    ensures Subscribed(st, node, rtype) == {} ==> Fraction(st, node, rtype, version) == 0.0
    ensures Fraction(st, node, rtype, version) == 1.0 <==>
            && Subscribed(st, node, rtype) != {}
            && forall p :: p in Subscribed(st, node, rtype) ==> Counter(st, Key(node, rtype, version, p, NACKS)) >= 5
    ensures var pods := Subscribed(st, node, rtype);
            var failing := set p | p in pods && Counter(st, Key(node, rtype, version, p, NACKS)) >= 5;
            Fraction(st, node, rtype, version) * |pods| as real == |failing| as real
  {
    var pods, failing := Subscribed(st, node, rtype), Failing(st, node, rtype, version);
    ShareMeaning(failing, pods, Fraction(st, node, rtype, version));
    assert failing == set p | p in pods && Counter(st, Key(node, rtype, version, p, NACKS)) >= 5;
  }

  class StatsCache {
    var store: Store

    /** Every key has been printed from five fields, so reading it never runs past its end. */
    ghost predicate Valid()
      reads this
    {
      Readable(store)
    }

    constructor ()
      ensures Valid() && store == map[]
    {
      store := map[];
    }

    method GetCounter(node: string, rtype: string, version: string, pod: string, stat: string) returns (r: Option<int>)
      ensures r.None? <==> !(Print(Key(node, rtype, version, pod, stat)) in store
                              && store[Print(Key(node, rtype, version, pod, stat))].Int?)
      ensures r.Some? ==> r.value == Counter(store, Key(node, rtype, version, pod, stat))
    {
      var k := Print(Key(node, rtype, version, pod, stat));
      if k in store {
        if !store[k].Int? {
          return None;
        }
        return Some(store[k].n);
      }
      return None;
    }

    method IncrementCounter(node: string, rtype: string, version: string, pod: string, stat: string, increment: int)
      requires Valid()
      modifies this
      ensures Valid()
      ensures store == Increment(old(store), Key(node, rtype, version, pod, stat), increment)
    {
      var counter := GetCounter(node, rtype, version, pod, stat);
      var value := if counter.Some? then counter.value else 0;
      PrintHasFiveParts(Key(node, rtype, version, pod, stat));
      store := store[Print(Key(node, rtype, version, pod, stat)) := Int(value + increment)];
    }

    method FilterKeys(filters: seq<string>) returns (selected: Store)
      ensures selected == Filtered(store, filters)
      ensures forall k :: k in selected <==> k in store && forall i :: 0 <= i < |filters| ==> Contains(k, filters[i])
      ensures forall k :: k in selected ==> selected[k] == store[k]
    {
      selected := map[];
      var rest := store.Keys;
      while rest != {}
        invariant rest <= store.Keys
        invariant selected == map k | k in store && k !in rest && MatchesAll(k, filters) :: store[k]
        decreases rest
      {
        var key :| key in rest;
        var isSelected := true;
        for i := 0 to |filters|
          invariant isSelected == MatchesAll(key, filters[..i])
        {
          assert filters[..i + 1] == filters[..i] + [filters[i]];
          if !Contains(key, filters[i]) {
            isSelected := false;
          }
        }
        assert filters[..|filters|] == filters;
        if isSelected {
          selected := selected[key := store[key]];
        }
        rest := rest - {key};
      }
    }

    method DeleteKeysByFilter(filter: string)
      requires Valid()
      modifies this
      ensures Valid() && store == Removed(old(store), filter)
      ensures forall k :: k in store <==> k in old(store) && !Contains(k, filter)
      ensures forall k :: k in store ==> store[k] == old(store)[k]
    {
      var keys := FilterKeys([filter]);
      assert forall k :: k in store ==> (k in keys <==> Contains(k, filter)) by {
        forall k | k in store ensures k in keys <==> Contains(k, filter) {
          assert MatchesAll(k, [filter]) <==> Contains(k, [filter][0]);
        }
      }
      var rest := keys.Keys;
      ghost var before := store;
      while rest != {}
        invariant rest <= keys.Keys
        invariant store == map k | k in before && !(k in keys && k !in rest) :: before[k]
        decreases rest
      {
        var k :| k in rest;
        store := store - {k};
        rest := rest - {k};
      }
    }

    method WriteResponseNonce(node: string, rtype: string, version: string, pod: string, nonce: string)
      requires Valid()
      modifies this
      ensures Valid() && store == old(store)[Print(Key(node, rtype, version, pod, NONCE + nonce)) := Text("")]
    {
      PrintHasFiveParts(Key(node, rtype, version, pod, NONCE + nonce));
      store := store[Print(Key(node, rtype, version, pod, NONCE + nonce)) := Text("")];
    }

    method ReportNACK(node: string, rtype: string, pod: string, nonce: string) returns (r: Option<int>)
      requires Valid()
      modifies this
      ensures Valid()
      ensures match NackVersion(old(store), node, rtype, pod, nonce)
              case None => r == None && store == old(store)
              case Some(version) =>
                && store == CountNack(old(store), node, rtype, version, pod)
                && r == Some(Counter(store, Key(node, rtype, version, pod, NACKS)))
    {
      var keys := FilterKeys(NonceFilters(node, rtype, pod, nonce));
      if |keys.Keys| != 1 {
        return None;
      }
      var key :| key in keys.Keys;
      assert keys.Keys == {key} by {
        EqualSize({key}, keys.Keys);
      }
      assert Readable(keys);
      var version := Parse(key).value.version;
      IncrementCounter(node, rtype, version, pod, NACKS, 1);
      IncrementCounter(node, rtype, AGGREGATE, pod, NACKS, 1);
      r := GetCounter(node, rtype, version, pod, NACKS);
    }

    method ReportACK(node: string, rtype: string, version: string, pod: string, now: int)
      requires Valid()
      modifies this
      ensures Valid() && store == CountAck(old(store), node, rtype, version, pod, now)
    {
      IncrementCounter(node, rtype, version, pod, ACKS, 1);
      IncrementCounter(node, rtype, AGGREGATE, pod, ACKS, 1);
      PrintHasFiveParts(Key(node, rtype, version, pod, INFO));
      store := store[Print(Key(node, rtype, version, pod, INFO)) := Int(now)];
    }

    method ReportRequest(node: string, rtype: string, pod: string)
      requires Valid()
      modifies this
      ensures Valid() && store == Increment(old(store), Key(node, rtype, AGGREGATE, pod, REQUESTS), 1)
    {
      IncrementCounter(node, rtype, AGGREGATE, pod, REQUESTS, 1);
    }

    method GetSubscribedPods(node: string, rtype: string) returns (pods: set<string>)
      requires Valid()
      ensures pods == Subscribed(store, node, rtype)
    {
      pods := {};
      var filters := [REQUESTS];
      if node != "" {
        filters := filters + [node];
      }
      if rtype != "" {
        filters := filters + [rtype];
      }
      assert filters == SubscriptionFilters(node, rtype);
      var items := FilterKeys(filters);
      var rest := items.Keys;
      while rest != {}
        invariant rest <= items.Keys
        invariant pods == set k | k in items && k !in rest :: PodOf(k)
        decreases rest
      {
        var k :| k in rest;
        var pod := Parse(k).value.pod;
        if pod !in pods {
          pods := pods + {pod};
        }
        rest := rest - {k};
      }
    }

    /** Counts in any order the pods are met in. */
    method CountFailing(pods: set<string>, node: string, rtype: string, version: string) returns (failing: nat)
      ensures failing == |set p | p in pods && Counter(store, Key(node, rtype, version, p, NACKS)) >= MAX_NACKS|
    {
      failing := 0;
      var rest := pods;
      ghost var counted: set<string> := {};
      while rest != {}
        invariant rest <= pods
        invariant counted == set p | p in pods && p !in rest
                                     && Counter(store, Key(node, rtype, version, p, NACKS)) >= MAX_NACKS
        invariant failing == |counted|
        decreases rest
      {
        var pod :| pod in rest;
        var v := GetCounter(node, rtype, version, pod, NACKS);
        if v.Some? && v.value >= MAX_NACKS {
          failing := failing + 1;
          counted := counted + {pod};
        }
        rest := rest - {pod};
      }
      assert counted == set p | p in pods && Counter(store, Key(node, rtype, version, p, NACKS)) >= MAX_NACKS;
    }

    /** Reports 0 where the program would divide zero by zero. */
    method GetPercentageFailing(node: string, rtype: string, version: string) returns (r: real)
      requires Valid()
      ensures r == Fraction(store, node, rtype, version)
    {
      var pods := GetSubscribedPods(node, rtype);
      var failing := CountFailing(pods, node, rtype, version);
      if |pods| == 0 {
        return 0.0;
      }
      return failing as real / |pods| as real;
    }
  }
}
